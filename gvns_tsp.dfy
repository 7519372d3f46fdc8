// gvns/tsp.go: the TSP with time windows of the gvns package, a travel
// matrix and one window per node, and its arc preprocessing.
module GvnsTsp {
  import opened Schedule
  import Instance

  datatype Tsp = Tsp(
    name: string,
    numNodes: int,
    matrix: seq<seq<int>>,
    readyTime: seq<int>,
    dueDate: seq<int>,
    arcs: map<int, map<int, bool>>)  // filled by Preprocess

  /** The indexing the solver relies on: a square matrix of numNodes rows and
      one window per node. */
  ghost predicate WellFormed(t: Tsp)
  {
    t.numNodes == |t.matrix| && |t.readyTime| == t.numNodes && |t.dueDate| == t.numNodes
    && Square(t.matrix)
  }

  /** preprocess: one row of arcs per matrix row; arcs[i][j] says whether node
      j is reached in time when leaving node i at its ready time. Nothing else
      of the instance changes, and the diagonal is never written, so a lookup
      arcs[i][i] reads false. */
  method Preprocess(t: Tsp) returns (t': Tsp)
    requires WellFormed(t)
    ensures t' == t.(arcs := t'.arcs) && WellFormed(t')
    ensures forall i :: i in t'.arcs <==> 0 <= i < t.numNodes
    ensures forall i, j :: 0 <= i < t.numNodes ==> (j in t'.arcs[i] <==> 0 <= j < t.numNodes && j != i)
    ensures forall i, j :: 0 <= i < t.numNodes && 0 <= j < t.numNodes && i != j ==>
      (Instance.Arc(t'.arcs, i, j) <==> t.readyTime[i] + t.matrix[i][j] <= t.dueDate[j])
    ensures forall i :: !Instance.Arc(t'.arcs, i, i)
  {
    var arcs := Instance.Preprocess(t.matrix, t.readyTime, t.dueDate);
    t' := t.(arcs := arcs);
  }
}
