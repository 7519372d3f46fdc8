// The problem instance of the PDPTW solver: one vehicle of fixed capacity,
// a square travel-time matrix, a time window per node and paired
// pickup/delivery tasks. core.PDPTW and pdptw.PDPTW carry the same fields,
// so one datatype serves both packages.
module Instance {
  import opened Utils

  datatype Pdptw = Pdptw(
    name: string,
    startNode: int,
    capacity: int,
    numNodes: int,
    traveled: int,                   // time already spent when the route starts
    carrying: int,                   // load already on board when the route starts
    matrix: seq<seq<int>>,
    readyTime: seq<int>,
    dueDate: seq<int>,
    demands: map<int, int>,
    precedence: map<int, int>,       // delivery node -> its pickup node
    pred: map<int, int>,             // delivery -> pickup, pickup -> minus delivery
    arcs: map<int, map<int, bool>>)  // filled by Preprocess

  /** The indexing the solver relies on: square matrix, one window per node. */
  ghost predicate WellFormed(p: Pdptw)
  {
    p.numNodes == |p.matrix| && |p.readyTime| == p.numNodes && |p.dueDate| == p.numNodes
    && forall i :: 0 <= i < |p.matrix| ==> |p.matrix[i]| == p.numNodes
  }

  function Arc(arcs: map<int, map<int, bool>>, i: int, j: int): bool
  {
    i in arcs && j in arcs[i] && arcs[i][j]
  }

  /** CreateInstance: numNodes is the matrix size, the name is fixed,
      every other argument is kept; pred and arcs start empty. */
  function CreateInstance(
    startNode: int, vehicleCapacity: int, traveled: int, carrying: int,
    readyTime: seq<int>, dueDate: seq<int>, demands: map<int, int>,
    precedence: map<int, int>, matrix: seq<seq<int>>): (p: Pdptw)
    ensures p.name == "instance" && p.numNodes == |matrix|
    ensures p.startNode == startNode && p.capacity == vehicleCapacity
    ensures p.traveled == traveled && p.carrying == carrying
    ensures p.readyTime == readyTime && p.dueDate == dueDate && p.matrix == matrix
    ensures p.demands == demands && p.precedence == precedence
    ensures p.pred == map[] && p.arcs == map[]
    ensures (|readyTime| == |matrix| && |dueDate| == |matrix|
             && forall i :: 0 <= i < |matrix| ==> |matrix[i]| == |matrix|) <==> WellFormed(p)
  {
    Pdptw("instance", startNode, vehicleCapacity, |matrix|, traveled, carrying,
          matrix, readyTime, dueDate, demands, precedence, map[], map[])
  }

  /** CreateInstance of the pdptw package: the zero value, an instance of
      no nodes and no tasks. */
  function ZeroInstance(): (p: Pdptw)
    ensures p.name == "" && p.numNodes == 0 && p.startNode == 0 && p.capacity == 0
    ensures p.traveled == 0 && p.carrying == 0
    ensures p.matrix == [] && p.readyTime == [] && p.dueDate == []
    ensures p.demands == map[] && p.precedence == map[] && p.pred == map[] && p.arcs == map[]
    ensures WellFormed(p) && NumberOfTasks(p) == 0
  {
    Pdptw("", 0, 0, 0, 0, 0, [], [], [], map[], map[], map[], map[])
  }

  /** NumberOfTasks: numNodes / 2 with Go's truncating division. */
  function NumberOfTasks(p: Pdptw): (n: int)
    ensures p.numNodes >= 0 ==> 0 <= p.numNodes - 2 * n <= 1
    ensures p.numNodes < 0 ==> -1 <= p.numNodes - 2 * n <= 0
  {
    GoDiv(p.numNodes, 2)
  }

  /** Go's integer division truncates toward zero. */
  function GoDiv(a: int, b: int): (q: int)
    requires b > 0
    ensures a >= 0 ==> q * b <= a < q * b + b
    ensures a < 0 ==> q * b - b < a <= q * b
  {
    if a >= 0 then a / b else -((-a) / b)
  }

  /** Two maps agree on every key outside ks: same keys, same values. */
  ghost predicate MapsAgreeOutside(a: map<int, int>, b: map<int, int>, ks: set<int>)
  {
    forall k :: k !in ks ==> (k in a <==> k in b) && (k in a ==> a[k] == b[k])
  }

  /** Two window slices of one length agree at every index outside ks. */
  ghost predicate SlicesAgreeOutside(a: seq<int>, b: seq<int>, ks: set<int>)
  {
    |a| == |b| && forall k :: 0 <= k < |a| && k !in ks ==> a[k] == b[k]
  }

  /** The task records that follow the matrix: a pickup/delivery pair of seven
      fields (pickup, delivery, quantity, both windows) or a single node of
      four fields (node, demand, window). Any other length changes nothing.
      The writes of a pair go pickup first, so when both ids coincide the
      delivery's writes are the ones that stay, except in pred, where the
      pickup's entry is written last. */
  function Record(p: Pdptw, e: seq<int>): (q: Pdptw)
    requires |p.readyTime| == |p.dueDate|
    requires |e| == 7 ==> 0 <= e[0] < |p.readyTime| && 0 <= e[1] < |p.readyTime|
    requires |e| == 4 ==> 0 <= e[0] < |p.readyTime|
    ensures q.name == p.name && q.startNode == p.startNode && q.traveled == p.traveled && q.carrying == p.carrying
    ensures q.numNodes == p.numNodes && q.matrix == p.matrix && q.capacity == p.capacity && q.arcs == p.arcs
    ensures |q.readyTime| == |p.readyTime| && |q.dueDate| == |p.dueDate|
    ensures |e| != 7 && |e| != 4 ==> q == p
    ensures |e| == 7 ==>
      && e[1] in q.precedence && q.precedence[e[1]] == e[0]
      && MapsAgreeOutside(q.precedence, p.precedence, {e[1]})
      && e[0] in q.pred && q.pred[e[0]] == -e[1]
      && (e[0] != e[1] ==> e[1] in q.pred && q.pred[e[1]] == e[0])
      && MapsAgreeOutside(q.pred, p.pred, {e[0], e[1]})
      && e[1] in q.demands && q.demands[e[1]] == -e[2]
      && (e[0] != e[1] ==> e[0] in q.demands && q.demands[e[0]] == e[2])
      && MapsAgreeOutside(q.demands, p.demands, {e[0], e[1]})
      && q.readyTime[e[1]] == e[5] && q.dueDate[e[1]] == e[6]
      && (e[0] != e[1] ==> q.readyTime[e[0]] == e[3] && q.dueDate[e[0]] == e[4])
      && SlicesAgreeOutside(q.readyTime, p.readyTime, {e[0], e[1]})
      && SlicesAgreeOutside(q.dueDate, p.dueDate, {e[0], e[1]})
    ensures |e| == 4 ==>
      && e[1] in q.precedence && q.precedence[e[1]] == -1
      && MapsAgreeOutside(q.precedence, p.precedence, {e[1]})
      && q.pred == p.pred
      && e[0] in q.demands && q.demands[e[0]] == e[1]
      && MapsAgreeOutside(q.demands, p.demands, {e[0]})
      && q.readyTime[e[0]] == e[2] && q.dueDate[e[0]] == e[3]
      && SlicesAgreeOutside(q.readyTime, p.readyTime, {e[0]})
      && SlicesAgreeOutside(q.dueDate, p.dueDate, {e[0]})
  {
    if |e| == 7 then
      p.(precedence := p.precedence[e[1] := e[0]],
         pred := p.pred[e[1] := e[0]][e[0] := -e[1]],
         demands := p.demands[e[0] := e[2]][e[1] := -e[2]],
         readyTime := p.readyTime[e[0] := e[3]][e[1] := e[5]],
         dueDate := p.dueDate[e[0] := e[4]][e[1] := e[6]])
    else if |e| == 4 then
      p.(precedence := p.precedence[e[1] := -1],
         demands := p.demands[e[0] := e[1]],
         readyTime := p.readyTime[e[0] := e[2]],
         dueDate := p.dueDate[e[0] := e[3]])
    else p
  }

  /** A pickup/delivery record for two distinct nodes gives the pair net zero
      demand, makes the delivery's precedence the pickup, and sets both windows. */
  lemma {:induction false} RecordPair(p: Pdptw, e: seq<int>)
    requires |p.readyTime| == |p.dueDate| && |e| == 7
    requires 0 <= e[0] < |p.readyTime| && 0 <= e[1] < |p.readyTime| && e[0] != e[1]
    ensures var q := Record(p, e);
      Get(q.demands, e[0]) == e[2] && Get(q.demands, e[1]) == -e[2] && Get(q.demands, e[0]) + Get(q.demands, e[1]) == 0
      && q.pred[e[1]] == e[0] && q.pred[e[0]] == -e[1]
      && q.readyTime[e[0]] == e[3] && q.dueDate[e[0]] == e[4]
      && q.readyTime[e[1]] == e[5] && q.dueDate[e[1]] == e[6]
      && (forall k :: k != e[0] && k != e[1] ==> Get(q.demands, k) == Get(p.demands, k))
  {
  }

  /** The header line: node count, capacity, start node and, when present,
      the time and load already accumulated. The window slices are resized. */
  function Header(p: Pdptw, e: seq<int>): (q: Pdptw)
    requires |e| == 3 || |e| >= 5
    requires e[0] >= 0
    ensures q.numNodes == e[0] && q.capacity == e[1] && q.startNode == e[2]
    ensures |e| > 3 ==> q.traveled == e[3] && q.carrying == e[4]
    ensures |e| == 3 ==> q.traveled == p.traveled && q.carrying == p.carrying
    ensures |q.readyTime| == e[0] && |q.dueDate| == e[0]
    ensures forall k :: 0 <= k < e[0] ==> q.readyTime[k] == 0 && q.dueDate[k] == 0
  {
    var zeros := seq(e[0], _ => 0);
    var h := p.(numNodes := e[0], capacity := e[1], startNode := e[2],
                dueDate := zeros, readyTime := zeros);
    if |e| > 3 then h.(traveled := e[3], carrying := e[4]) else h
  }

  /** One tokenised, non-comment line i of an instance file: the header, one
      of the numNodes matrix rows, or a task record. */
  function ReadLine(p: Pdptw, i: nat, e: seq<int>): (q: Pdptw)
    requires i == 0 ==> (|e| == 3 || |e| >= 5) && e[0] >= 0
    requires i > p.numNodes ==> |p.readyTime| == |p.dueDate|
    requires i > p.numNodes && |e| == 7 ==> 0 <= e[0] < |p.readyTime| && 0 <= e[1] < |p.readyTime|
    requires i > p.numNodes && |e| == 4 ==> 0 <= e[0] < |p.readyTime|
    ensures i == 0 ==> q == Header(p, e)
    ensures 0 < i <= p.numNodes ==> q == p.(matrix := p.matrix + [e])
    ensures i > 0 ==> q.numNodes == p.numNodes
  {
    if i == 0 then Header(p, e)
    else if i <= p.numNodes then p.(matrix := p.matrix + [e])
    else Record(p, e)
  }

  /** preprocess: arcs[i][j] says whether node j can still be reached in time
      when leaving node i at its ready time. The diagonal is never written, so
      a lookup arcs[i][i] reads the zero value false. */
  method Preprocess(matrix: seq<seq<int>>, readyTime: seq<int>, dueDate: seq<int>)
    returns (arcs: map<int, map<int, bool>>)
    requires |readyTime| >= |matrix|
    requires forall i :: 0 <= i < |matrix| ==> |matrix[i]| <= |dueDate|
    ensures forall i :: i in arcs <==> 0 <= i < |matrix|
    ensures forall i, j :: 0 <= i < |matrix| ==>
      (j in arcs[i] <==> 0 <= j < |matrix[i]| && j != i)
    ensures forall i, j :: 0 <= i < |matrix| && 0 <= j < |matrix[i]| && i != j ==>
      (arcs[i][j] <==> readyTime[i] + matrix[i][j] <= dueDate[j])
    ensures forall i :: !Arc(arcs, i, i)
  {
    arcs := map[];
    var i := 0;
    while i < |matrix|
      invariant 0 <= i <= |matrix|
      invariant forall k :: k in arcs <==> 0 <= k < i
      invariant forall k, j :: 0 <= k < i ==> (j in arcs[k] <==> 0 <= j < |matrix[k]| && j != k)
      invariant forall k, j :: 0 <= k < i && 0 <= j < |matrix[k]| && k != j ==>
        (arcs[k][j] <==> readyTime[k] + matrix[k][j] <= dueDate[j])
    {
      var row: map<int, bool> := map[];
      var j := 0;
      while j < |matrix[i]|
        invariant 0 <= j <= |matrix[i]|
        invariant forall l :: l in row <==> 0 <= l < j && l != i
        invariant forall l :: 0 <= l < j && l != i ==>
          (row[l] <==> readyTime[i] + matrix[i][l] <= dueDate[l])
      {
        if i != j {
          if readyTime[i] + matrix[i][j] > dueDate[j] {
            row := row[j := false];
          } else {
            row := row[j := true];
          }
        }
        j := j + 1;
      }
      arcs := arcs[i := row];
      i := i + 1;
    }
  }
}
