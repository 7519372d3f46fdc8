// pdp/vns.go: the restart loop of the pdp package. Each round builds a
// solution by shifting until it is feasible, optionally improves it by
// 2-opt and keeps it when its total distance is strictly shorter.
module PdpVns {
  import opened Utils
  import opened Schedule
  import opened Routes
  import opened PdpSolution
  import opened PdpLocal2Opt
  import PdpConstruction

  /** What every route VNS keeps in view satisfies: numNodes positions
      holding each node once, and feasible whenever its construction ended
      on its own. */
  ghost predicate Kept(p: Pdp, r: seq<int>, finished: bool)
  {
    WellFormed(p) && |r| == p.numNodes && EachOnce(r, 0, p.numNodes)
    && (finished ==> Feasible(p, r))
  }

  /** found[at] is the first of the shortest routes in found. */
  ghost predicate FirstShortest(p: Pdp, found: seq<seq<int>>, at: int)
  {
    WellFormed(p) && 0 <= at < |found|
    && (forall k :: 0 <= k < |found| ==> p.numNodes <= |found[k]| && Within(found[k], p.numNodes))
    && (forall k :: 0 <= k < |found| ==> TotalDistanceOf(p, found[at]) <= TotalDistanceOf(p, found[k]))
    && (forall k :: 0 <= k < at ==> TotalDistanceOf(p, found[at]) < TotalDistanceOf(p, found[k]))
  }

  /** Appending a route that is not shorter keeps the first shortest one;
      appending a strictly shorter one makes it the first shortest. */
  lemma {:induction false} FirstShortestSnoc(p: Pdp, found: seq<seq<int>>, at: int, r: seq<int>)
    requires FirstShortest(p, found, at) && p.numNodes <= |r| && Within(r, p.numNodes)
    ensures TotalDistanceOf(p, r) < TotalDistanceOf(p, found[at]) ==> FirstShortest(p, found + [r], |found|)
    ensures TotalDistanceOf(p, r) >= TotalDistanceOf(p, found[at]) ==> FirstShortest(p, found + [r], at)
  {
    var found' := found + [r];
    assert forall k :: 0 <= k < |found| ==> found'[k] == found[k];
    assert found'[|found|] == r;
  }

  /** A 2-opt result of a kept route is kept: it is the route itself, or a
      feasible rearrangement of the same nodes. */
  lemma {:induction false} ImprovedKept(s: Solution, x: Solution, finished: bool)
    requires s.route.Length == s.tsp.numNodes && Kept(s.tsp, s.route[..], finished) && Improves(s, x)
    ensures x.tsp == s.tsp && Kept(s.tsp, x.route[..], finished)
  {
    if x != s {
      assert s.route[..s.tsp.numNodes] == s.route[..];
      assert multiset(x.route[..]) == multiset(s.route[..]);
    }
  }

  /** One round: a fresh construction, then, with localOpt, its 2-opt. */
  method Round(t: Pdp, local2opt: Local2Opt, localOpt: bool, fuel: nat) returns (s: Solution, ghost finished: bool)
    requires WellFormed(t) && 2 <= t.numNodes
    ensures s.tsp == t && s.Valid() && s.route.Length == t.numNodes && Kept(t, s.route[..], finished)
  {
    var x, done := PdpConstruction.Process(t, fuel);
    finished := done;
    s := x;
    if localOpt {
      s := local2opt.Process(x, fuel);
      ImprovedKept(x, s, finished);
    }
  }

  /** One iteration of the restart loop: a round is appended to the
      routes in view, and it becomes the best when strictly shorter than
      the best so far. */
  method KeepShorter(t: Pdp, local2opt: Local2Opt, localOpt: bool, fuel: nat, best: Solution,
                     ghost found: seq<seq<int>>, ghost finished: seq<bool>, ghost bestAt: nat)
    returns (best': Solution, ghost found': seq<seq<int>>, ghost finished': seq<bool>, ghost bestAt': nat)
    requires WellFormed(t) && 2 <= t.numNodes && |found| == |finished|
    requires best.tsp == t && best.Valid() && best.route.Length == t.numNodes
    requires forall k :: 0 <= k < |found| ==> Kept(t, found[k], finished[k])
    requires bestAt < |found| && FirstShortest(t, found, bestAt) && best.route[..] == found[bestAt]
    ensures |found'| == |finished'| == |found| + 1 && found'[..|found|] == found && finished'[..|found|] == finished
    ensures best'.tsp == t && best'.Valid() && best'.route.Length == t.numNodes
    ensures forall k :: 0 <= k < |found'| ==> Kept(t, found'[k], finished'[k])
    ensures bestAt' < |found'| && FirstShortest(t, found', bestAt') && best'.route[..] == found'[bestAt']
  {
    var s, fin := Round(t, local2opt, localOpt, fuel);
    var d := s.TotalDistance();
    var b := best.TotalDistance();
    FirstShortestSnoc(t, found, bestAt, s.route[..]);
    found' := found + [s.route[..]];
    finished' := finished + [fin];
    assert found'[..|found|] == found && finished'[..|found|] == finished;
    assert forall k :: 0 <= k < |found| ==> found'[k] == found[k] && finished'[k] == finished[k];
    best', bestAt' := best, bestAt;
    if d < b {
      best' := s;
      bestAt' := |found|;
    }
  }

  /** VNS(tsp, iterationMax, levelMax, localOpt): preprocess the arcs,
      which panics (null here) unless every precedence entry names an
      earlier node; otherwise build a first solution and run exactly
      max(iterationMax, 0) rounds of build, optional 2-opt and
      keep-if-shorter. found[k] is the route of round k (found[0], the
      first one, is never 2-opted) and finished[k] says whether its
      construction ended on its own. The result is the first shortest of
      them, and the instance differs from tsp in its arcs only. levelMax is
      never read. */
  method Vns(tsp: Pdp, iterationMax: int, levelMax: int, localOpt: bool, fuel: nat)
    returns (best: Solution?, ghost found: seq<seq<int>>, ghost finished: seq<bool>, ghost bestAt: nat)
    requires WellFormed(tsp) && 2 <= tsp.numNodes
    ensures best == null <==> !PickupsFirst(tsp)
    ensures best != null ==> (best.tsp == tsp.(arcs := best.tsp.arcs) && best.Valid()
      && (forall i, j :: 0 <= i < tsp.numNodes && 0 <= j < tsp.numNodes ==>
            i in best.tsp.arcs && j in best.tsp.arcs[i] && (best.tsp.arcs[i][j] <==> !Forbidden(tsp, i, j)))
      && |found| == |finished| == Max(iterationMax, 0) + 1
      && (forall k :: 0 <= k < |found| ==> Kept(best.tsp, found[k], finished[k]))
      && bestAt < |found| && FirstShortest(best.tsp, found, bestAt) && best.route[..] == found[bestAt])
  {
    found, finished, bestAt := [], [], 0;
    var arcs, ok := Preprocess(tsp);
    if !ok {
      best := null;
      return;
    }
    var t := tsp.(arcs := arcs);
    var inc := new int[|tsp.matrix|];
    var local2opt := new Local2Opt(inc);
    var first, done := PdpConstruction.Process(t, fuel);
    best := first;
    found := [best.route[..]];
    finished := [done];
    var iteration := 0;
    while iteration < iterationMax
      invariant 0 <= iteration <= Max(iterationMax, 0)
      invariant |found| == |finished| == iteration + 1
      invariant best != null && best.tsp == t && best.Valid() && t == tsp.(arcs := arcs) && best.route.Length == t.numNodes
      invariant forall k :: 0 <= k < |found| ==> Kept(t, found[k], finished[k])
      invariant bestAt < |found| && FirstShortest(t, found, bestAt) && best.route[..] == found[bestAt]
    {
      iteration := iteration + 1;
      best, found, finished, bestAt := KeepShorter(t, local2opt, localOpt, fuel, best, found, finished, bestAt);
    }
  }
}
