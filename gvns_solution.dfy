// gvns/solution.go: a route of the TSP with time windows, its feasibility
// scan, its lateness penalty, the split of its inner positions into those
// reached in time and those reached late, relocation and the node helpers.
module GvnsSolution {
  import opened Utils
  import opened Schedule
  import opened Routes
  import opened GvnsTsp

  /** A route over the nodes of a well-formed instance. */
  ghost predicate RouteOk(t: Tsp, r: seq<int>)
  {
    WellFormed(t) && Within(r, t.numNodes)
  }

  /** The clock of the scans on reaching position i from time 0: travel,
      then wait for the ready time. */
  function Arrival(t: Tsp, r: seq<int>, i: nat): int
    requires RouteOk(t, r) && i < |r|
  {
    ArriveAt(t.matrix, t.readyTime, r, 0, i)
  }

  /** Position i is reached by the due date of its node. */
  predicate OnTime(t: Tsp, r: seq<int>, i: nat)
    requires RouteOk(t, r) && i < |r|
  {
    Arrival(t, r, i) <= t.dueDate[r[i]]
  }

  /** IsFeasible: every position after the start is reached on time; a due
      date of 0 gets no exemption. */
  predicate Feasible(t: Tsp, r: seq<int>)
    requires RouteOk(t, r)
  {
    forall i :: 1 <= i < |r| ==> OnTime(t, r, i)
  }

  /** How late position i is reached (0 when on time). */
  function Lateness(t: Tsp, r: seq<int>, i: nat): int
    requires RouteOk(t, r) && i < |r|
  {
    if t.dueDate[r[i]] < Arrival(t, r, i) then Arrival(t, r, i) - t.dueDate[r[i]] else 0
  }

  /** The lateness of positions 1..k-1 summed up. */
  function PenaltyUpTo(t: Tsp, r: seq<int>, k: int): int
    requires RouteOk(t, r) && (k <= |r| || k <= 1)
  {
    if k <= 1 then 0 else PenaltyUpTo(t, r, k - 1) + Lateness(t, r, k - 1)
  }

  /** Penalty: the lateness of the whole route. */
  function PenaltyOf(t: Tsp, r: seq<int>): int
    requires RouteOk(t, r)
  {
    PenaltyUpTo(t, r, |r|)
  }

  /** The penalty of a prefix is never negative, and it is 0 exactly when
      every position of the prefix is reached on time. */
  lemma {:induction false} PenaltyUpToZeroIff(t: Tsp, r: seq<int>, k: int)
    requires RouteOk(t, r) && (k <= |r| || k <= 1)
    ensures PenaltyUpTo(t, r, k) >= 0
    ensures PenaltyUpTo(t, r, k) == 0 <==> forall i :: 1 <= i < k ==> OnTime(t, r, i)
  {
    if k > 1 {
      PenaltyUpToZeroIff(t, r, k - 1);
      assert (forall i :: 1 <= i < k ==> OnTime(t, r, i))
        <==> (forall i :: 1 <= i < k - 1 ==> OnTime(t, r, i)) && OnTime(t, r, k - 1);
    }
  }

  /** Penalty is never negative, and it is 0 exactly when the route is
      feasible. */
  lemma {:induction false} PenaltyZeroIffFeasible(t: Tsp, r: seq<int>)
    requires RouteOk(t, r)
    ensures PenaltyOf(t, r) >= 0
    ensures PenaltyOf(t, r) == 0 <==> Feasible(t, r)
  {
    PenaltyUpToZeroIff(t, r, |r|);
  }

  /** The positions 1..k-1 whose OnTime verdict is onTime, in increasing order. */
  function Positions(t: Tsp, r: seq<int>, onTime: bool, k: int): seq<int>
    requires RouteOk(t, r) && (k <= |r| || k <= 1)
  {
    if k <= 1 then [] else Positions(t, r, onTime, k - 1) + (if OnTime(t, r, k - 1) == onTime then [k - 1] else [])
  }

  /** A Positions list holds exactly the positions of [1, k) with the asked
      verdict, each once, in increasing order. */
  lemma {:induction false} PositionsSpec(t: Tsp, r: seq<int>, onTime: bool, k: int)
    requires RouteOk(t, r) && (k <= |r| || k <= 1)
    ensures forall x :: x in Positions(t, r, onTime, k) <==> 1 <= x < k && OnTime(t, r, x) == onTime
    ensures forall a, b :: 0 <= a < b < |Positions(t, r, onTime, k)| ==>
      Positions(t, r, onTime, k)[a] < Positions(t, r, onTime, k)[b]
  {
    if k > 1 {
      PositionsSpec(t, r, onTime, k - 1);
      var s := Positions(t, r, onTime, k - 1);
      assert forall a :: 0 <= a < |s| ==> s[a] in s;
    }
  }

  /** calcSets splits the inner positions 1..len-2: each lands in exactly one
      of the two lists, the on-time ones in the first, and both lists are
      increasing. */
  lemma {:induction false} CalcSetsPartition(t: Tsp, r: seq<int>)
    requires RouteOk(t, r)
    ensures var f, u := Positions(t, r, true, |r| - 1), Positions(t, r, false, |r| - 1);
      (forall x :: 1 <= x < |r| - 1 <==> x in f || x in u)
      && (forall x :: !(x in f && x in u))
      && (forall x :: x in f ==> OnTime(t, r, x))
      && (forall a, b :: 0 <= a < b < |f| ==> f[a] < f[b])
      && (forall a, b :: 0 <= a < b < |u| ==> u[a] < u[b])
  {
    PositionsSpec(t, r, true, |r| - 1);
    PositionsSpec(t, r, false, |r| - 1);
  }

  /** A Solution: the route slice, the visited-node marks and the instance. */
  class Solution {
    var route: array<int>
    var nodes: map<int, bool>
    const tsp: Tsp

    ghost predicate Valid()
      reads this, route
    {
      RouteOk(tsp, route[..])
    }

    /** NewSolution: the loop marks the slice INDICES 0..len-1, not the
        nodes stored there. */
    constructor (tsp: Tsp, route: array<int>)
      ensures this.tsp == tsp && this.route == route
      ensures forall k :: k in nodes <==> 0 <= k < route.Length
      ensures forall k :: k in nodes ==> nodes[k]
    {
      var marked: map<int, bool> := map[];
      var node := 0;
      while node < route.Length
        invariant 0 <= node <= route.Length
        invariant forall k :: k in marked <==> 0 <= k < node
        invariant forall k :: k in marked ==> marked[k]
      {
        marked := marked[node := true];
        node := node + 1;
      }
      this.tsp := tsp;
      this.route := route;
      this.nodes := marked;
    }

    /** IsFeasible: scan positions 1..len-1 from time 0. */
    method IsFeasible() returns (ok: bool)
      requires Valid()
      ensures ok == Feasible(tsp, route[..])
    {
      ghost var r := route[..];
      var traveled := 0;
      var i := 1;
      while i < route.Length
        invariant 1 <= i <= Max(route.Length, 1)
        invariant 0 < |r| ==> traveled == Arrival(tsp, r, i - 1)
        invariant forall k :: 1 <= k < i ==> OnTime(tsp, r, k)
      {
        traveled := traveled + tsp.matrix[route[i - 1]][route[i]];
        if traveled < tsp.readyTime[route[i]] {
          traveled := tsp.readyTime[route[i]];
        }
        if tsp.dueDate[route[i]] < traveled {
          assert !OnTime(tsp, r, i);
          return false;
        }
        i := i + 1;
      }
      return true;
    }

    /** Penalty: the summed lateness of positions 1..len-1. */
    method Penalty() returns (penalty: int)
      requires Valid()
      ensures penalty == PenaltyOf(tsp, route[..])
      ensures penalty >= 0 && (penalty == 0 <==> Feasible(tsp, route[..]))
    {
      ghost var r := route[..];
      penalty := 0;
      var traveled := 0;
      var i := 1;
      while i < route.Length
        invariant 1 <= i <= Max(route.Length, 1)
        invariant 0 < |r| ==> traveled == Arrival(tsp, r, i - 1)
        invariant penalty == PenaltyUpTo(tsp, r, i)
      {
        traveled := traveled + tsp.matrix[route[i - 1]][route[i]];
        if traveled < tsp.readyTime[route[i]] {
          traveled := tsp.readyTime[route[i]];
        }
        if tsp.dueDate[route[i]] < traveled {
          penalty := penalty + traveled - tsp.dueDate[route[i]];
        }
        i := i + 1;
      }
      PenaltyZeroIffFeasible(tsp, r);
    }

    /** calcSets: positions 1..len-2 reached on time go to feasible, the
        others to unfeasible. The second half of the source's test (ready
        time after the clock) never holds, since the clock has just waited
        for the ready time. */
    method CalcSets() returns (feasible: seq<int>, unfeasible: seq<int>)
      requires Valid()
      ensures feasible == Positions(tsp, route[..], true, route.Length - 1)
      ensures unfeasible == Positions(tsp, route[..], false, route.Length - 1)
    {
      ghost var r := route[..];
      feasible, unfeasible := [], [];
      var traveled := 0;
      var i := 1;
      while i <= route.Length - 2
        invariant 1 <= i <= Max(route.Length - 1, 1)
        invariant 0 < |r| ==> traveled == Arrival(tsp, r, i - 1)
        invariant feasible == Positions(tsp, r, true, i) && unfeasible == Positions(tsp, r, false, i)
      {
        traveled := traveled + tsp.matrix[route[i - 1]][route[i]];
        if traveled < tsp.readyTime[route[i]] {
          traveled := tsp.readyTime[route[i]];
        }
        if tsp.dueDate[route[i]] < traveled || tsp.readyTime[route[i]] > traveled {
          unfeasible := unfeasible + [i];
        } else {
          feasible := feasible + [i];
        }
        i := i + 1;
      }
    }

    /** exchange(p, paux): relocate the node at p to paux. */
    method Exchange(p: int, paux: int)
      requires 0 <= p < route.Length && 0 <= paux < route.Length
      modifies route
      ensures route[..] == Relocated(old(route[..]), p, paux)
    {
      Routes.Exchange(route, p, paux);
    }

    function HasNode(node: int): bool
      reads this
    {
      node in nodes && nodes[node]
    }

    /** AddNode: append the node and mark it visited. */
    method AddNode(node: int)
      modifies this
      ensures fresh(route) && route[..] == old(route[..]) + [node]
      ensures nodes == old(nodes)[node := true]
    {
      route := Appended(route, node);
      nodes := nodes[node := true];
    }

    /** RemoveNode: drop the last entry (whatever the argument) and unmark
        the argument. */
    method RemoveNode(node: int)
      requires 0 < route.Length
      modifies this
      ensures fresh(route) && route[..] == old(route[..route.Length - 1])
      ensures nodes == old(nodes)[node := false]
    {
      route := Prefix(route, route.Length - 1);
      nodes := nodes[node := false];
    }

    function GetNode(index: int): int
      reads this, route
      requires 0 <= index < route.Length
    {
      route[index]
    }

    function GetCurrent(): int
      reads this, route
      requires 0 < route.Length
    {
      route[route.Length - 1]
    }

    /** TotalDistance: the sum of the edge lengths. */
    method TotalDistance() returns (total: int)
      requires Valid()
      ensures total == TotalDist(tsp.matrix, route[..])
    {
      ghost var r := route[..];
      total := 0;
      var i := 1;
      while i <= route.Length - 1
        invariant 1 <= i <= Max(route.Length, 1)
        invariant 0 < |r| ==> total == Distance(tsp.matrix, r, i - 1)
        invariant |r| == 0 ==> total == 0
      {
        total := total + tsp.matrix[route[i - 1]][route[i]];
        i := i + 1;
      }
    }
  }
}
