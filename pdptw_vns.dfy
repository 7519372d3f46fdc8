// pdptw/vns.go: the restart loop of the pdptw package. Each round repairs
// a fresh construction until it is feasible, improves it by 2-opt and keeps
// it when its makespan is strictly smaller than the best so far.
module PdptwVns {
  import opened Utils
  import opened Instance
  import opened Schedule
  import opened Routes
  import opened PdptwSolution
  import opened PdptwLocal2Opt
  import opened PdptwConstruction
  import PdptwGenerate

  /** The makespan of a route from time 0. */
  function MakeSpanOf(p: Pdptw, r: seq<int>): int
    requires RouteOk(p, r)
  {
    Span(p.matrix, p.readyTime, r, 0)
  }

  /** found[at] is the first of the routes of smallest makespan in found. */
  ghost predicate FirstShortest(p: Pdptw, found: seq<seq<int>>, at: int)
  {
    0 <= at < |found| && (forall k :: 0 <= k < |found| ==> RouteOk(p, found[k]))
    && (forall k :: 0 <= k < |found| ==> MakeSpanOf(p, found[at]) <= MakeSpanOf(p, found[k]))
    && (forall k :: 0 <= k < at ==> MakeSpanOf(p, found[at]) < MakeSpanOf(p, found[k]))
  }

  /** Appending a route whose makespan is not smaller keeps the first
      shortest one; appending a strictly smaller one makes it the first
      shortest. */
  lemma {:induction false} FirstShortestSnoc(p: Pdptw, found: seq<seq<int>>, at: int, r: seq<int>)
    requires FirstShortest(p, found, at) && RouteOk(p, r)
    ensures MakeSpanOf(p, r) < MakeSpanOf(p, found[at]) ==> FirstShortest(p, found + [r], |found|)
    ensures MakeSpanOf(p, r) >= MakeSpanOf(p, found[at]) ==> FirstShortest(p, found + [r], at)
  {
    var found' := found + [r];
    assert forall k :: 0 <= k < |found| ==> found'[k] == found[k];
    assert found'[|found|] == r;
  }

  /** What every route VNS keeps in view satisfies: the instance's nodes,
      each exactly once, and feasible whenever its repair ended on its own. */
  ghost predicate Kept(p: Pdptw, r: seq<int>, finished: bool)
  {
    WellFormed(p) && |r| == p.numNodes && Within(r, p.numNodes) && PdptwGenerate.EachNodeOnce(r, p.numNodes)
    && (finished ==> Feasible(p, r))
  }

  /** preprocess: the instance with its arcs filled in. */
  method PreprocessInstance(tsp: Pdptw) returns (t: Pdptw)
    requires WellFormed(tsp)
    ensures t == tsp.(arcs := t.arcs) && WellFormed(t)
    ensures forall i, j :: 0 <= i < t.numNodes && 0 <= j < t.numNodes && i != j ==>
      (Arc(t.arcs, i, j) <==> tsp.readyTime[i] + tsp.matrix[i][j] <= tsp.dueDate[j])
    ensures forall i :: !Arc(t.arcs, i, i)
  {
    var arcs := Instance.Preprocess(tsp.matrix, tsp.readyTime, tsp.dueDate);
    t := tsp.(arcs := arcs);
  }

  /** One round: repair a fresh random construction, then 2-opt it. */
  method Round(ev: Evaluator, c: Construction, t: Pdptw, fuel: nat) returns (s: Solution, ghost finished: bool)
    requires c.strategy == RandomStrategy && SetsInRange(ev)
    requires WellFormed(t) && 2 <= t.numNodes && 0 <= t.startNode < t.numNodes
    ensures s.tsp == t && s.Valid() && Kept(t, s.route[..], finished)
  {
    var x, done := PdptwConstruction.Process(ev, c, t, fuel);
    finished := done;
    s := Local2OptProcess(x, fuel);
  }

  /** VNS(tsp, iterationMax, levelMax) with a random-strategy construction:
      preprocess the arcs, repair a first solution, then run exactly
      max(iterationMax, 0) rounds of repair, 2-opt and keep-if-smaller-
      makespan. found[k] is the route of round k (found[0], the first one,
      is not 2-opted) and finished[k] says whether its repair ended on its
      own. The result is the first of smallest makespan among them, and the
      instance differs from tsp in its arcs only. */
  method Vns(ev: Evaluator, tsp: Pdptw, iterationMax: int, levelMax: int, fuel: nat)
    returns (best: Solution, ghost found: seq<seq<int>>, ghost finished: seq<bool>, ghost bestAt: nat)
    requires WellFormed(tsp) && 2 <= tsp.numNodes && 0 <= tsp.startNode < tsp.numNodes && SetsInRange(ev)
    ensures best.tsp == tsp.(arcs := best.tsp.arcs) && best.Valid()
    ensures |found| == |finished| == Max(iterationMax, 0) + 1
    ensures forall k :: 0 <= k < |found| ==> Kept(best.tsp, found[k], finished[k])
    ensures bestAt < |found| && FirstShortest(best.tsp, found, bestAt) && best.route[..] == found[bestAt]
  {
    var t := PreprocessInstance(tsp);
    var cons := Construction(levelMax, RandomStrategy);
    var done;
    best, done := PdptwConstruction.Process(ev, cons, t, fuel);
    found := [best.route[..]];
    finished := [done];
    bestAt := 0;
    var iteration := 0;
    while iteration < iterationMax
      invariant 0 <= iteration <= Max(iterationMax, 0)
      invariant |found| == |finished| == iteration + 1
      invariant best.tsp == t && best.Valid()
      invariant forall k :: 0 <= k < |found| ==> Kept(t, found[k], finished[k])
      invariant bestAt < |found| && FirstShortest(t, found, bestAt) && best.route[..] == found[bestAt]
    {
      iteration := iteration + 1;
      var s, fin := Round(ev, cons, t, fuel);
      var d := s.MakeSpan();
      var b := best.MakeSpan();
      FirstShortestSnoc(t, found, bestAt, s.route[..]);
      found := found + [s.route[..]];
      finished := finished + [fin];
      if d < b {
        best := s;
        bestAt := iteration;
      }
    }
  }

  /** VNS as written: its Construction is the zero value, whose nil
      strategy panics on the first process call (null here), before any
      route exists. */
  method VnsAsWritten(ev: Evaluator, tsp: Pdptw, iterationMax: int, levelMax: int, fuel: nat)
    returns (best: Solution?)
    requires WellFormed(tsp) && SetsInRange(ev)
    ensures best == null
  {
    var t := PreprocessInstance(tsp);
    var cons := ZeroConstruction();
    var done;
    best, done := ProcessOrPanic(ev, cons, t, fuel);
  }
}
