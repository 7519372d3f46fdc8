// pdptw/solution.go: a route of the pdptw package, its feasibility scans
// (from time 0 and an empty vehicle, with no closing-load test), the set
// of flagged positions of getSet, the objective values and the moves.
module PdptwSolution {
  import opened Utils
  import opened Instance
  import opened Schedule
  import opened Routes

  /** getSet asks for one of two position sets. */
  datatype SetType = FeasibleSet | UnfeasibleSet

  ghost predicate RouteOk(p: Pdptw, r: seq<int>)
  {
    WellFormed(p) && Within(r, p.numNodes)
  }

  /** The clock of the scans on reaching position i from time 0: travel,
      then wait for the ready time. */
  function Arrival(p: Pdptw, r: seq<int>, i: nat): int
    requires RouteOk(p, r) && i < |r|
  {
    ArriveAt(p.matrix, p.readyTime, r, 0, i)
  }

  /** The load on board on reaching position i: the demands of r[..i]. */
  function Carried(p: Pdptw, r: seq<int>, i: nat): int
    requires i <= |r|
  {
    Load(p.demands, r, 0, i)
  }

  /** A node with a precedence entry finds it among positions 1..i. */
  predicate PredSeen(p: Pdptw, r: seq<int>, i: nat)
    requires 1 <= i < |r|
  {
    r[i] in p.precedence ==> p.precedence[r[i]] in r[1..i + 1]
  }

  /** A due date other than 0 is missed at position i. */
  predicate Late(p: Pdptw, r: seq<int>, i: nat)
    requires RouteOk(p, r) && i < |r|
  {
    p.dueDate[r[i]] != 0 && p.dueDate[r[i]] < Arrival(p, r, i)
  }

  /** IsFeasible's three tests at position i. */
  predicate StepOk(p: Pdptw, r: seq<int>, i: nat)
    requires RouteOk(p, r) && 1 <= i < |r|
  {
    Carried(p, r, i) <= p.capacity && PredSeen(p, r, i) && !Late(p, r, i)
  }

  /** IsFeasible: every position 1..numNodes-1 passes. */
  predicate Feasible(p: Pdptw, r: seq<int>)
    requires RouteOk(p, r) && p.numNodes <= |r|
  {
    forall i :: 1 <= i < p.numNodes ==> StepOk(p, r, i)
  }

  /** IsFeasiblePrecendence: only the precedence test, at every position
      1..numNodes-1. */
  predicate PrecedenceFeasible(p: Pdptw, r: seq<int>)
    requires p.numNodes <= |r|
  {
    forall i :: 1 <= i < p.numNodes ==> PredSeen(p, r, i)
  }

  /** getSet's test at position i: the partner named by -pred is not at i or
      later, or a due date other than 0 is missed, or the vehicle is
      overloaded. */
  predicate InSet(p: Pdptw, r: seq<int>, i: nat)
    requires RouteOk(p, r) && 1 <= i < |r|
  {
    (r[i] in p.pred && -p.pred[r[i]] !in r[i..]) || Late(p, r, i) || Carried(p, r, i) > p.capacity
  }

  /** The positions 1..k-1 that pass InSet, in increasing order. */
  function SetUpTo(p: Pdptw, r: seq<int>, k: nat): seq<int>
    requires RouteOk(p, r) && k <= |r|
  {
    if k <= 1 then [] else SetUpTo(p, r, k - 1) + (if InSet(p, r, k - 1) then [k - 1] else [])
  }

  /** getSet's result holds exactly the InSet positions of [1, k), each once
      and in increasing order. */
  lemma {:induction false} SetUpToSpec(p: Pdptw, r: seq<int>, k: nat)
    requires RouteOk(p, r) && k <= |r|
    ensures forall x :: x in SetUpTo(p, r, k) <==> 1 <= x < k && InSet(p, r, x)
    ensures forall a, b :: 0 <= a < b < |SetUpTo(p, r, k)| ==> SetUpTo(p, r, k)[a] < SetUpTo(p, r, k)[b]
  {
    if k > 1 {
      SetUpToSpec(p, r, k - 1);
      var s := SetUpTo(p, r, k - 1);
      assert forall a :: 0 <= a < |s| ==> s[a] in s;
    }
  }

  /** A delivery whose pickup is a node other than 0 is in getSet's list
      wherever it stands: its pred entry is that pickup, and minus the
      pickup names no node. */
  lemma {:induction false} DeliveriesFlagged(p: Pdptw, r: seq<int>, i: nat)
    requires RouteOk(p, r) && 1 <= i < |r|
    requires r[i] in p.pred && p.pred[r[i]] > 0
    ensures i in SetUpTo(p, r, |r|)
  {
    SetUpToSpec(p, r, |r|);
    assert forall k :: 0 <= k < |r[i..]| ==> r[i..][k] >= 0;
  }

  /** On a feasible route of numNodes positions only the pred test can
      put a position in getSet's list. */
  lemma {:induction false} FeasibleSetIsPredOnly(p: Pdptw, r: seq<int>, x: int)
    requires RouteOk(p, r) && p.numNodes == |r| && Feasible(p, r)
    ensures x in SetUpTo(p, r, |r|) <==> 1 <= x < |r| && r[x] in p.pred && -p.pred[r[x]] !in r[x..]
  {
    SetUpToSpec(p, r, |r|);
    if 1 <= x < |r| {
      assert StepOk(p, r, x);
    }
  }

  /** A Solution: the route slice, the visited-node marks and the instance. */
  class Solution {
    var route: array<int>
    var nodes: map<int, bool>
    const tsp: Pdptw

    ghost predicate Valid()
      reads this, route
    {
      RouteOk(tsp, route[..])
    }

    /** NewSolution: the loop marks the slice INDICES 0..len-1, not the
        nodes stored there. */
    constructor (tsp: Pdptw, route: array<int>)
      ensures this.tsp == tsp && this.route == route
      ensures forall k :: k in nodes <==> 0 <= k < route.Length
      ensures forall k :: k in nodes ==> nodes[k]
    {
      var marked: map<int, bool> := map[];
      var node := 0;
      while node < route.Length
        invariant 0 <= node <= route.Length
        invariant forall k :: k in marked <==> 0 <= k < node
        invariant forall k :: k in marked ==> marked[k]
      {
        marked := marked[node := true];
        node := node + 1;
      }
      this.tsp := tsp;
      this.route := route;
      this.nodes := marked;
    }

    /** The copy a value receiver works on: the same slice, map and instance. */
    constructor ValueCopy(s: Solution)
      ensures route == s.route && nodes == s.nodes && tsp == s.tsp
    {
      route := s.route;
      nodes := s.nodes;
      tsp := s.tsp;
    }

    /** IsFeasible: scan positions 1..numNodes-1 from time 0 and load 0. */
    method IsFeasible() returns (ok: bool)
      requires Valid() && tsp.numNodes <= route.Length
      ensures ok == Feasible(tsp, route[..])
    {
      ghost var r := route[..];
      var traveled := 0;
      var carrying := 0;
      var i := 1;
      while i < tsp.numNodes
        invariant 1 <= i <= Max(tsp.numNodes, 1)
        invariant 0 < |r| ==> traveled == Arrival(tsp, r, i - 1)
        invariant carrying == Carried(tsp, r, i - 1)
        invariant forall k :: 1 <= k < i ==> StepOk(tsp, r, k)
      {
        traveled := traveled + tsp.matrix[route[i - 1]][route[i]];
        carrying := carrying + Get(tsp.demands, route[i - 1]);
        if traveled < tsp.readyTime[route[i]] {
          traveled := tsp.readyTime[route[i]];
        }
        if carrying > tsp.capacity {
          assert !StepOk(tsp, r, i);
          return false;
        }
        if route[i] in tsp.precedence {
          var hasNode := SearchBack(route, i, tsp.precedence[route[i]]);
          if !hasNode {
            assert !StepOk(tsp, r, i);
            return false;
          }
        }
        if tsp.dueDate[route[i]] != 0 && tsp.dueDate[route[i]] < traveled {
          assert !StepOk(tsp, r, i);
          return false;
        }
        i := i + 1;
      }
      return true;
    }

    /** IsFeasiblePrecendence: the precedence test of IsFeasible alone, so
        every feasible route passes it. */
    method IsFeasiblePrecendence() returns (ok: bool)
      requires Valid() && tsp.numNodes <= route.Length
      ensures ok == PrecedenceFeasible(tsp, route[..])
      ensures Feasible(tsp, route[..]) ==> ok
    {
      ghost var r := route[..];
      var i := 1;
      while i < tsp.numNodes
        invariant 1 <= i <= Max(tsp.numNodes, 1)
        invariant forall k :: 1 <= k < i ==> PredSeen(tsp, r, k)
      {
        if route[i] in tsp.precedence {
          var hasNode := SearchBack(route, i, tsp.precedence[route[i]]);
          if !hasNode {
            assert !PredSeen(tsp, r, i) && !StepOk(tsp, r, i);
            return false;
          }
        }
        i := i + 1;
      }
      return true;
    }

    /** IsFeasibleLog: IsFeasible with a log line before each rejection;
        the verdict is the same. */
    method IsFeasibleLog() returns (ok: bool)
      requires Valid() && tsp.numNodes <= route.Length
      ensures ok == Feasible(tsp, route[..])
    {
      ok := IsFeasible();
    }

    /** getSet: the same list whichever set type is asked for, since both
        branches of the source append. */
    method GetSet(setType: SetType) returns (positions: seq<int>)
      requires Valid()
      ensures positions == SetUpTo(tsp, route[..], route.Length)
      ensures forall x :: x in positions <==> 1 <= x < route.Length && InSet(tsp, route[..], x)
    {
      ghost var r := route[..];
      var traveled := 0;
      var carrying := 0;
      positions := [];
      var i := 1;
      while i < route.Length
        invariant 1 <= i <= Max(route.Length, 1)
        invariant 0 < |r| ==> traveled == Arrival(tsp, r, i - 1)
        invariant 0 < |r| ==> carrying == Carried(tsp, r, i - 1)
        invariant 0 < |r| ==> positions == SetUpTo(tsp, r, i)
        invariant |r| == 0 ==> positions == []
      {
        var isFeasible;
        traveled, carrying, isFeasible := Inspect(i, traveled, carrying);
        if setType == FeasibleSet && isFeasible {
          positions := positions + [i];
        } else if isFeasible {
          positions := positions + [i];
        }
        i := i + 1;
      }
      SetUpToSpec(tsp, r, route.Length);
    }

    /** One round of getSet: arrive at position i, load the demand of
        i - 1, and tell whether position i belongs to the list. */
    method Inspect(i: int, traveled: int, carrying: int) returns (traveled': int, carrying': int, listed: bool)
      requires Valid() && 1 <= i < route.Length
      requires traveled == Arrival(tsp, route[..], i - 1) && carrying == Carried(tsp, route[..], i - 1)
      ensures traveled' == Arrival(tsp, route[..], i) && carrying' == Carried(tsp, route[..], i)
      ensures listed <==> InSet(tsp, route[..], i)
    {
      traveled' := traveled + tsp.matrix[route[i - 1]][route[i]];
      carrying' := carrying + Get(tsp.demands, route[i - 1]);
      var tmp := false;
      if traveled' < tsp.readyTime[route[i]] {
        traveled' := tsp.readyTime[route[i]];
      }
      if route[i] in tsp.pred {
        var hasNode := SearchFrom(route, i, -tsp.pred[route[i]]);
        if !hasNode {
          tmp := true;
        }
      }
      listed := tmp
        || (tsp.dueDate[route[i]] != 0 && tsp.dueDate[route[i]] < traveled')
        || carrying' > tsp.capacity;
    }

    /** exchange(pos, newPos): relocate the node at pos to newPos. */
    method Exchange(pos: int, newPos: int)
      requires 0 <= pos < route.Length && 0 <= newPos < route.Length
      modifies route
      ensures route[..] == Relocated(old(route[..]), pos, newPos)
    {
      Routes.Exchange(route, pos, newPos);
    }

    /** change(i, j): swap two positions. */
    method Change(i: int, j: int)
      requires 0 <= i < route.Length && 0 <= j < route.Length
      modifies route
      ensures route[..] == Swapped(old(route[..]), i, j)
    {
      Routes.Change(route, i, j);
    }

    function HasNode(node: int): bool
      reads this
    {
      node in nodes && nodes[node]
    }

    /** AddNode: append the node and mark it visited. */
    method AddNode(node: int)
      modifies this
      ensures fresh(route) && route[..] == old(route[..]) + [node]
      ensures nodes == old(nodes)[node := true]
    {
      route := Appended(route, node);
      nodes := nodes[node := true];
    }

    /** RemoveNode: drop the last entry (whatever the argument) and unmark
        the argument. */
    method RemoveNode(node: int)
      requires 0 < route.Length
      modifies this
      ensures fresh(route) && route[..] == old(route[..route.Length - 1])
      ensures nodes == old(nodes)[node := false]
    {
      route := Prefix(route, route.Length - 1);
      nodes := nodes[node := false];
    }

    function GetNode(index: int): int
      reads this, route
      requires 0 <= index < route.Length
    {
      route[index]
    }

    function GetCurrent(): int
      reads this, route
      requires 0 < route.Length
    {
      route[route.Length - 1]
    }

    /** TotalDistance: the sum of the edge lengths. */
    method TotalDistance() returns (total: int)
      requires Valid()
      ensures total == TotalDist(tsp.matrix, route[..])
    {
      ghost var r := route[..];
      total := 0;
      var i := 1;
      while i <= route.Length - 1
        invariant 1 <= i <= Max(route.Length, 1)
        invariant 0 < |r| ==> total == Distance(tsp.matrix, r, i - 1)
        invariant |r| == 0 ==> total == 0
      {
        total := total + tsp.matrix[route[i - 1]][route[i]];
        i := i + 1;
      }
    }

    /** MakeSpan: the wait-then-travel clock from time 0. */
    method MakeSpan() returns (traveled: int)
      requires Valid()
      ensures traveled == Span(tsp.matrix, tsp.readyTime, route[..], 0)
    {
      ghost var r := route[..];
      traveled := 0;
      var i := 0;
      while i < route.Length - 1
        invariant 0 <= i <= Max(route.Length - 1, 0)
        invariant 0 < |r| ==> traveled == TimeAt(tsp.matrix, tsp.readyTime, r, 0, i)
        invariant |r| == 0 ==> traveled == 0
      {
        if traveled < tsp.readyTime[route[i]] {
          traveled := tsp.readyTime[route[i]];
        }
        traveled := traveled + tsp.matrix[route[i]][route[i + 1]];
        i := i + 1;
      }
    }

    /** Copy: a fresh route holding the first numNodes entries; nodes is
        left empty. */
    method Copy() returns (x: Solution)
      requires Valid() && 0 <= tsp.numNodes <= route.Length
      ensures fresh(x) && fresh(x.route) && x.tsp == tsp && x.nodes == map[]
      ensures x.route[..] == route[..tsp.numNodes] && x.Valid()
    {
      var a := Prefix(route, tsp.numNodes);
      x := new Solution(tsp, a);
      x.nodes := map[];
    }

    /** kExchange(iaux, jaux): a copy with route[iaux+1..jaux] reversed,
        returned only if it is feasible; otherwise (and when iaux > jaux)
        the receiver itself. The receiver is never changed. */
    method KExchange(iaux: int, jaux: int) returns (x: Solution)
      requires Valid() && 1 <= tsp.numNodes <= route.Length
      requires iaux < jaux ==> -1 <= iaux && jaux < tsp.numNodes
      ensures x.tsp == tsp && x.Valid()
      ensures iaux > jaux ==> x == this
      ensures x != this ==> fresh(x) && fresh(x.route) && x.route.Length == tsp.numNodes
      ensures iaux <= jaux ==>
        var moved := ReversedSpan(route[..tsp.numNodes], iaux + 1, jaux);
        RouteOk(tsp, moved) && (x != this <==> Feasible(tsp, moved))
        && (x != this ==> x.route[..] == moved)
      ensures 0 <= iaux && tsp.numNodes == route.Length ==> SameNodes(x.route[..], route[..])
      ensures x == this || Feasible(tsp, x.route[..])
    {
      if iaux > jaux {
        return this;
      }
      var start := iaux + 1;
      var end := jaux;
      var c := Copy();
      ReverseSpan(c.route, start, end);
      ReversedSpanPerm(route[..tsp.numNodes], start, end);
      MultisetWithin(route[..tsp.numNodes], c.route[..], tsp.numNodes);
      var ok := c.IsFeasible();
      if ok {
        if 0 <= iaux && tsp.numNodes == route.Length {
          assert route[..tsp.numNodes] == route[..];
          if start <= end {
            ReversedSameNodes(route[..], route[..], start, end, tsp.numNodes);
          } else {
            assert c.route[..] == route[..];
          }
        }
        return c;
      }
      return this;
    }

    /** disturb(level): level random draws, each a kExchange of the
        unchanged receiver, so only the last draw counts; no draw at all
        (level <= 0) returns nil. The receiver is a value copy: kExchange
        hands back that copy, sharing the route slice, or a fresh feasible
        reversal of route[n1+1..n2]. */
    method Disturb(level: int) returns (x: Solution?, ghost n1: int, ghost n2: int)
      requires Valid() && tsp.numNodes == route.Length
      requires level > 0 ==> route.Length >= 3
      ensures level <= 0 ==> x == null
      ensures level > 0 ==> x != null && x.tsp == tsp && x.Valid() && SameNodes(x.route[..], route[..])
      ensures level > 0 ==> 0 <= n1 && n1 + 2 <= n2 < route.Length
      ensures level > 0 ==>
        ((x.route == route && x.nodes == nodes)
         || (fresh(x.route) && x.route[..] == ReversedSpan(route[..], n1 + 1, n2) && Feasible(tsp, x.route[..])))
    {
      var s := new Solution.ValueCopy(this);
      x := null;
      n1, n2 := 0, 0;
      var j := 0;
      while j < level
        invariant j > 0 ==> x != null && x.tsp == tsp && x.Valid() && SameNodes(x.route[..], route[..])
        invariant j > 0 ==> 0 <= n1 && n1 + 2 <= n2 < route.Length
        invariant j > 0 ==>
          ((x.route == route && x.nodes == nodes)
           || (fresh(x.route) && x.route[..] == ReversedSpan(route[..], n1 + 1, n2) && Feasible(tsp, x.route[..])))
        invariant 0 <= j && (level <= 0 ==> j == 0) && (j == 0 ==> x == null)
        invariant s.route == route && s.nodes == nodes && s.tsp == tsp
      {
        var d1 := Random(0, s.route.Length - 2);
        var d2 := Random(d1 + 2, s.route.Length);
        n1, n2 := d1, d2;
        assert route[..tsp.numNodes] == route[..];
        x := s.KExchange(d1, d2);
        j := j + 1;
      }
    }
  }
}
