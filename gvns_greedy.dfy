// gvns/greedy.go: the nearest-neighbour tour of the gvns package, built on
// a Solution through GetNode, HasNode and AddNode.
module GvnsGreedy {
  import opened Utils
  import opened Schedule
  import opened Routes
  import opened GvnsTsp
  import opened GvnsSolution
  import opened Nearest

  /** The state of Greedy after `steps` greedy steps. */
  ghost predicate Building(tsp: Tsp, best: Solution, steps: int)
    reads best, best.route
  {
    WellFormed(tsp) && best.tsp == tsp && (0 < tsp.numNodes ==> best.Valid()) && steps >= 0 && best.route.Length == steps + 1
    && best.route[0] == 0 && Marked(best.nodes) == ValueSet(best.route[..])
    && NearestSteps(tsp.matrix, best.route[..], steps)
  }

  /** One pass of the loop of Greedy: append the unvisited node nearest to
      the node at position i. */
  method Step(tsp: Tsp, best: Solution, i: int)
    requires 0 <= i < tsp.numNodes - 1 && Building(tsp, best, i)
    modifies best
    ensures Building(tsp, best, i + 1) && fresh(best.route)
  {
    var current := best.GetNode(i);
    var minIndex := NearestNode(tsp.matrix[current], best.nodes);
    ghost var r := best.route[..];
    NearestStepsAppend(tsp.matrix, r, minIndex);
    MarkedAdd(best.nodes, minIndex);
    best.AddNode(minIndex);
    ValueSetSnoc(r, minIndex);
  }

  /** The end of Greedy: return to node 0. */
  method Finish(tsp: Tsp, best: Solution)
    requires Building(tsp, best, Max(tsp.numNodes - 1, 0))
    modifies best
    ensures best.tsp == tsp && fresh(best.route) && (0 < tsp.numNodes ==> best.Valid())
    ensures NearestTour(tsp.matrix, tsp.numNodes - 1, best.route[..])
    ensures Bounded(tsp.matrix) && 0 < tsp.numNodes ==>
      best.route.Length == tsp.numNodes + 1 && Distinct(best.route[..tsp.numNodes])
  {
    ghost var r := best.route[..];
    NearestStepsExtend(tsp.matrix, r, tsp.numNodes - 1, 0);
    best.AddNode(0);
    ghost var r' := best.route[..];
    assert r' == r + [0];
    assert r'[0] == 0 && r'[|r'| - 1] == 0;
    if 0 < tsp.numNodes {
      assert Within(r', tsp.numNodes);
    }
    if Bounded(tsp.matrix) && 0 < tsp.numNodes {
      NearestTourVisitsAll(tsp.matrix, r', tsp.numNodes - 1);
    }
  }

  /** Greedy(tsp): start from the route [0]; numNodes-1 times append the
      unvisited node nearest to the node at the current step; then return
      to 0. The tour is the nearest-neighbour tour of the matrix, and when
      every distance is below MaxInt64 it visits every node once before the
      final 0. */
  method Greedy(tsp: Tsp) returns (best: Solution)
    requires WellFormed(tsp)
    ensures fresh(best) && best.tsp == tsp && (0 < tsp.numNodes ==> best.Valid())
    ensures NearestTour(tsp.matrix, tsp.numNodes - 1, best.route[..])
    ensures Bounded(tsp.matrix) && 0 < tsp.numNodes ==>
      best.route.Length == tsp.numNodes + 1 && Distinct(best.route[..tsp.numNodes])
  {
    var start := new int[1];
    start[0] := 0;
    best := new Solution(tsp, start);
    assert best.route[..] == [0];
    assert forall k :: k in Marked(best.nodes) <==> k == 0;
    ValueSetSnoc([], 0);
    assert best.route[..] == [] + [0];
    var i := 0;
    while i < tsp.numNodes - 1
      invariant 0 <= i <= Max(tsp.numNodes - 1, 0)
      invariant fresh(best) && Building(tsp, best, i)
    {
      Step(tsp, best, i);
      i := i + 1;
    }
    Finish(tsp, best);
  }
}
