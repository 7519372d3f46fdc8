// gvns/gvns.go: the restart loop of the gvns package. Each round builds a
// solution, improves it in place by 2-opt and keeps it when its total
// distance is strictly shorter than the best so far.
module GvnsSearch {
  import opened Utils
  import opened Schedule
  import opened Routes
  import opened GvnsTsp
  import opened GvnsSolution
  import opened GvnsLocal2Opt

  /** A route the construction hands back: nodes of the instance, at least
      numNodes positions (what 2-opt walks). */
  ghost predicate Buildable(t: Tsp, r: seq<int>)
  {
    Within(r, t.numNodes) && t.numNodes <= |r|
  }

  /** A fresh solution over a built route. */
  method Build(t: Tsp, r: seq<int>) returns (s: Solution)
    requires WellFormed(t) && Buildable(t, r)
    ensures fresh(s) && fresh(s.route) && s.tsp == t && s.route[..] == r && s.Valid()
  {
    var route := new int[|r|](k requires 0 <= k < |r| => r[k]);
    s := new Solution(t, route);
  }

  /** One round of GVNS: the built route became the searched one with the
      same nodes, and it met every due date of its first numNodes positions
      if the built one did. */
  ghost predicate Round(t: Tsp, built: seq<int>, found: seq<int>)
  {
    WellFormed(t) && Buildable(t, built) && Buildable(t, found) && SameNodes(found, built)
    && (ReachedBetween(t, built, 1, t.numNodes) ==> ReachedBetween(t, found, 1, t.numNodes))
  }

  /** found[at] is the first of the shortest routes in found. */
  ghost predicate FirstShortest(t: Tsp, found: seq<seq<int>>, at: int)
  {
    WellFormed(t) && 0 <= at < |found| && (forall k :: 0 <= k < |found| ==> Buildable(t, found[k]))
    && (forall k :: 0 <= k < |found| ==> TotalDist(t.matrix, found[at]) <= TotalDist(t.matrix, found[k]))
    && (forall k :: 0 <= k < at ==> TotalDist(t.matrix, found[at]) < TotalDist(t.matrix, found[k]))
  }

  /** Appending a route that is not shorter than the shortest keeps the
      first shortest one; appending a strictly shorter one makes it the
      first shortest. */
  lemma {:induction false} FirstShortestSnoc(t: Tsp, found: seq<seq<int>>, at: int, r: seq<int>)
    requires FirstShortest(t, found, at) && Buildable(t, r)
    ensures TotalDist(t.matrix, r) < TotalDist(t.matrix, found[at]) ==> FirstShortest(t, found + [r], |found|)
    ensures TotalDist(t.matrix, r) >= TotalDist(t.matrix, found[at]) ==> FirstShortest(t, found + [r], at)
  {
    var found' := found + [r];
    assert forall k :: 0 <= k < |found| ==> found'[k] == found[k];
    assert found'[|found|] == r;
  }

  /** The body of a round: build a fresh solution and improve it in place
      with a 2-opt whose cache has one entry per matrix row. */
  method BuildAndSearch(t: Tsp, built: seq<int>, fuel: nat) returns (s: Solution)
    requires WellFormed(t) && Buildable(t, built) && 2 <= t.numNodes
    ensures fresh(s) && fresh(s.route) && s.tsp == t && s.Valid()
    ensures Round(t, built, s.route[..])
  {
    s := Build(t, built);
    var inc := new int[|t.matrix|];
    var local2opt := new Local2Opt(inc);
    local2opt.Process(s, fuel);
  }

  /** One iteration of the restart loop: a round on builds[iteration],
      kept as best when strictly shorter than the best so far. */
  method KeepShorter(t: Tsp, builds: seq<seq<int>>, iteration: int, best: Solution,
                     ghost searched: seq<seq<int>>, ghost bestAt: nat, fuel: nat)
    returns (best': Solution, ghost searched': seq<seq<int>>, ghost bestAt': nat)
    requires WellFormed(t) && 2 <= t.numNodes && 1 <= iteration < |builds| && |searched| == iteration
    requires best.tsp == t && best.Valid() && searched[0] == builds[0]
    requires forall k :: 0 <= k < |builds| ==> Buildable(t, builds[k])
    requires forall k :: 0 <= k < |searched| ==> Round(t, builds[k], searched[k])
    requires bestAt < |searched| && FirstShortest(t, searched, bestAt) && best.route[..] == searched[bestAt]
    ensures best'.tsp == t && best'.Valid() && |searched'| == iteration + 1 && searched'[0] == builds[0]
    ensures searched'[..iteration] == searched
    ensures forall k :: 0 <= k < |searched'| ==> Round(t, builds[k], searched'[k])
    ensures bestAt' < |searched'| && FirstShortest(t, searched', bestAt') && best'.route[..] == searched'[bestAt']
  {
    var s := BuildAndSearch(t, builds[iteration], fuel);
    var d := s.TotalDistance();
    var b := best.TotalDistance();
    FirstShortestSnoc(t, searched, bestAt, s.route[..]);
    searched' := searched + [s.route[..]];
    assert searched'[..iteration] == searched;
    assert forall k :: 0 <= k < |searched| ==> searched'[k] == searched[k];
    best', bestAt' := best, bestAt;
    if d < b {
      best' := s;
      bestAt' := iteration;
    }
  }

  /** GVNS(tsp, iterationMax, levelMax): preprocess the arcs, build a first
      solution, then run exactly max(iterationMax, 0) rounds of build,
      2-opt in place and keep-if-shorter. builds[k] is the route the
      construction returns on its k-th call; searched[k] is that route after
      its round's 2-opt (searched[0], the first one, is not searched). The
      result is the first shortest of them, each Round kept its nodes and
      its time windows, and the instance differs from tsp in its arcs only.
      levelMax is never read. */
  method Gvns(tsp: Tsp, iterationMax: int, levelMax: int, builds: seq<seq<int>>, fuel: nat)
    returns (best: Solution, ghost searched: seq<seq<int>>, ghost bestAt: nat)
    requires WellFormed(tsp) && 2 <= tsp.numNodes
    requires |builds| == Max(iterationMax, 0) + 1
    requires forall k :: 0 <= k < |builds| ==> Buildable(tsp, builds[k])
    ensures best.tsp.name == tsp.name && best.tsp.numNodes == tsp.numNodes && best.tsp.matrix == tsp.matrix
    ensures best.tsp.readyTime == tsp.readyTime && best.tsp.dueDate == tsp.dueDate && best.Valid()
    ensures |searched| == |builds| && searched[0] == builds[0]
    ensures forall k :: 0 <= k < |builds| ==> Round(best.tsp, builds[k], searched[k])
    ensures bestAt < |searched| && FirstShortest(best.tsp, searched, bestAt) && best.route[..] == searched[bestAt]
  {
    var t := Preprocess(tsp);
    assert t.numNodes == tsp.numNodes;
    assert forall k :: 0 <= k < |builds| ==> Buildable(t, builds[k]);
    var iteration := 0;
    best := Build(t, builds[0]);
    searched := [builds[0]];
    bestAt := 0;
    assert Round(t, builds[0], builds[0]);
    while iteration < iterationMax
      invariant 0 <= iteration <= Max(iterationMax, 0) && |searched| == iteration + 1
      invariant best.tsp == t && best.Valid() && searched[0] == builds[0]
      invariant forall k :: 0 <= k < |builds| ==> Buildable(t, builds[k])
      invariant forall k :: 0 <= k < |searched| ==> Round(t, builds[k], searched[k])
      invariant bestAt < |searched| && FirstShortest(t, searched, bestAt) && best.route[..] == searched[bestAt]
    {
      iteration := iteration + 1;
      best, searched, bestAt := KeepShorter(t, builds, iteration, best, searched, bestAt, fuel);
    }
  }
}
