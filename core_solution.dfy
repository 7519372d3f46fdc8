// core/solution.go: a route over the nodes of one instance, its feasibility
// scans, its objective values and the cached arrays the local searches use.
module CoreSolution {
  import opened Utils
  import opened Instance
  import opened Schedule
  import opened Routes

  /** getSet asks for one of two position sets. */
  datatype SetType = FeasibleSet | UnfeasibleSet

  ghost predicate RouteOk(p: Pdptw, r: seq<int>)
  {
    WellFormed(p) && Within(r, p.numNodes)
  }

  /** Has the node at i its precedence predecessor at index i or later
      (IsFeasible's test; a predecessor missing from the route passes)? */
  predicate PredAfter(p: Pdptw, r: seq<int>, i: int)
    requires 0 <= i < |r|
  {
    r[i] in p.precedence && i <= FirstIndex(r, p.precedence[r[i]])
  }

  /** IsFeasible's three tests at position i. */
  predicate StepOk(p: Pdptw, r: seq<int>, i: nat)
    requires RouteOk(p, r) && 1 <= i < |r|
  {
    Load(p.demands, r, p.carrying, i) <= p.capacity
    && !PredAfter(p, r, i)
    && !(p.dueDate[r[i]] != 0 && p.dueDate[r[i]] < ArriveAt(p.matrix, p.readyTime, r, p.traveled, i))
  }

  /** The load before the last scanned position plus the last node's demand. */
  function ClosingLoad(p: Pdptw, r: seq<int>): int
    requires RouteOk(p, r) && 0 < |r| && p.numNodes <= |r|
  {
    Load(p.demands, r, p.carrying, Max(p.numNodes - 1, 0)) + Get(p.demands, r[|r| - 1])
  }

  /** IsFeasible: every position 1..numNodes-1 passes, and the load closes to zero. */
  predicate Feasible(p: Pdptw, r: seq<int>)
    requires RouteOk(p, r) && 0 < |r| && p.numNodes <= |r|
  {
    (forall i :: 1 <= i < p.numNodes ==> StepOk(p, r, i)) && ClosingLoad(p, r) == 0
  }

  /** getSet's membership test as written: the position goes in when it has
      NO precedence violation, or misses its window, or overloads. */
  predicate InSet(p: Pdptw, r: seq<int>, i: nat)
    requires RouteOk(p, r) && 1 <= i < |r|
  {
    var predViolation := r[i] in p.precedence && i >= FirstIndex(r, p.precedence[r[i]]);
    !predViolation
    || (p.dueDate[r[i]] != 0 && p.dueDate[r[i]] < ArriveAt(p.matrix, p.readyTime, r, p.traveled, i))
    || Load(p.demands, r, p.carrying, i) > p.capacity
  }

  /** The positions 1..k-1 that pass InSet, in increasing order. */
  function SetUpTo(p: Pdptw, r: seq<int>, k: nat): seq<int>
    requires RouteOk(p, r) && k <= |r|
  {
    if k <= 1 then [] else SetUpTo(p, r, k - 1) + (if InSet(p, r, k - 1) then [k - 1] else [])
  }

  /** getSet's result holds exactly the InSet positions of [1, k), each once and in order. */
  lemma {:induction false} SetUpToSpec(p: Pdptw, r: seq<int>, k: nat)
    requires RouteOk(p, r) && k <= |r|
    ensures forall x :: x in SetUpTo(p, r, k) <==> 1 <= x < k && InSet(p, r, x)
    ensures forall a, b :: 0 <= a < b < |SetUpTo(p, r, k)| ==> SetUpTo(p, r, k)[a] < SetUpTo(p, r, k)[b]
  {
    if k > 1 {
      SetUpToSpec(p, r, k - 1);
      var s := SetUpTo(p, r, k - 1);
      assert forall a :: 0 <= a < |s| ==> s[a] in s;
    }
  }

  /** One precedence write of calcGlobals at position i: a node with a
      predecessor pairs i with the predecessor's first index, a position
      not yet paired gets -1. */
  function PrecStep(p: Pdptw, r: seq<int>, m: map<int, int>, i: int): map<int, int>
    requires 0 <= i < |r|
  {
    if r[i] in p.precedence then
      var index := FirstIndex(r, p.precedence[r[i]]);
      m[index := i][i := index]
    else if i !in m then m[i := -1]
    else m
  }

  /** The precedence writes for positions lo..k-1, applied to m. */
  function PrecSteps(p: Pdptw, r: seq<int>, m: map<int, int>, lo: int, k: int): map<int, int>
    requires 0 <= lo && k <= |r|
    decreases k - lo
  {
    if k <= lo then m else PrecStep(p, r, PrecSteps(p, r, m, lo, k - 1), k - 1)
  }

  /** The closing write: the last position is paired with the index of its
      predecessor, where a missing predecessor reads as node 0. */
  function PrecClose(p: Pdptw, r: seq<int>, m: map<int, int>): map<int, int>
    requires 0 < |r|
  {
    var i := |r| - 1;
    var index := FirstIndex(r, Get(p.precedence, r[i]));
    m[i := index][index := i]
  }

  /** One round's precedence write of calcGlobals and updateGlobals: a node
      with a predecessor is paired with the predecessor's index both ways,
      any other position is marked -1 unless it was already written. */
  method WritePairs(p: Pdptw, r: seq<int>, m: map<int, int>, i: int) returns (m': map<int, int>)
    requires 0 <= i < |r|
    ensures m' == PrecStep(p, r, m, i)
  {
    m' := m;
    var n1 := r[i];
    if n1 in p.precedence {
      var index := IndexOf(p.precedence[n1], r);
      m' := m'[index := i];
      m' := m'[i := index];
    } else if i !in m' {
      m' := m'[i := -1];
    }
  }

  /** The closing precedence write of calcGlobals and updateGlobals: the
      last position and its predecessor's index are paired both ways. */
  method ClosePairs(p: Pdptw, r: seq<int>, m: map<int, int>) returns (m': map<int, int>)
    requires 0 < |r|
    ensures m' == PrecClose(p, r, m)
  {
    var last := |r| - 1;
    var n := Get(p.precedence, r[last]);
    var index := IndexOf(n, r);
    m' := m[last := index];
    m' := m'[index := last];
  }

  /** The whole precedence map of calcGlobals. */
  function PrecOf(p: Pdptw, r: seq<int>): map<int, int>
    requires 0 < |r|
  {
    PrecClose(p, r, PrecSteps(p, r, map[], 0, |r| - 1))
  }

  /** Every position scanned gets an entry, and no value leaves [-1, |r|). */
  lemma {:induction false} PrecStepsKeys(p: Pdptw, r: seq<int>, m: map<int, int>, lo: int, k: int)
    requires 0 <= lo <= k <= |r|
    requires forall i :: i in m ==> -1 <= i < |r| && -1 <= m[i] < |r|
    ensures forall i :: lo <= i < k ==> i in PrecSteps(p, r, m, lo, k)
    ensures forall i :: i in PrecSteps(p, r, m, lo, k) ==> -1 <= i < |r| && -1 <= PrecSteps(p, r, m, lo, k)[i] < |r|
    decreases k - lo
  {
    if k > lo {
      PrecStepsKeys(p, r, m, lo, k - 1);
    }
  }

  /** calcGlobals pairs every position of the route; keys and values are
      positions or -1. */
  lemma {:induction false} PrecOfKeys(p: Pdptw, r: seq<int>)
    requires 0 < |r|
    ensures forall i :: 0 <= i < |r| ==> i in PrecOf(p, r)
    ensures forall i :: i in PrecOf(p, r) ==> -1 <= i < |r| && -1 <= PrecOf(p, r)[i] < |r|
  {
    PrecStepsKeys(p, r, map[], 0, |r| - 1);
  }

  /** calcGlobals' carrying map after positions 0..k-1: the load once each
      of them has been served. */
  function LoadsUpTo(p: Pdptw, r: seq<int>, k: nat): map<int, int>
    requires k <= |r|
  {
    if k == 0 then map[] else LoadsUpTo(p, r, k - 1)[k - 1 := Load(p.demands, r, p.carrying, k)]
  }

  lemma {:induction false} LoadsUpToSpec(p: Pdptw, r: seq<int>, k: nat)
    requires k <= |r|
    ensures forall i :: i in LoadsUpTo(p, r, k) <==> 0 <= i < k
    ensures forall i :: 0 <= i < k ==> LoadsUpTo(p, r, k)[i] == Load(p.demands, r, p.carrying, i + 1)
  {
    if k > 0 {
      LoadsUpToSpec(p, r, k - 1);
    }
  }

  /** A Solution: a route slice, the set of visited nodes and the instance. */
  class Solution {
    var route: array<int>
    var nodes: map<int, bool>
    const tsp: Pdptw

    ghost predicate Valid()
      reads this, route
    {
      RouteOk(tsp, route[..])
    }

    /** NewSolution: note that the loop marks the slice INDICES 0..len-1,
        not the nodes stored there. */
    constructor (tsp: Pdptw, route: array<int>)
      ensures this.tsp == tsp && this.route == route
      ensures forall k :: k in nodes <==> 0 <= k < route.Length
      ensures forall k :: k in nodes ==> nodes[k]
    {
      var marked: map<int, bool> := map[];
      var node := 0;
      while node < route.Length
        invariant 0 <= node <= route.Length
        invariant forall k :: k in marked <==> 0 <= k < node
        invariant forall k :: k in marked ==> marked[k]
      {
        marked := marked[node := true];
        node := node + 1;
      }
      this.tsp := tsp;
      this.route := route;
      this.nodes := marked;
    }

    function HasNode(node: int): bool
      reads this
    {
      node in nodes && nodes[node]
    }

    function GetNode(index: int): int
      reads this, route
      requires 0 <= index < route.Length
    {
      route[index]
    }

    function GetCurrent(): int
      reads this, route
      requires 0 < route.Length
    {
      route[route.Length - 1]
    }

    /** exchange(pos, newPos): relocate the node at pos to newPos. */
    method Exchange(pos: int, newPos: int)
      requires 0 <= pos < route.Length && 0 <= newPos < route.Length
      modifies route
      ensures route[..] == Relocated(old(route[..]), pos, newPos)
    {
      Routes.Exchange(route, pos, newPos);
    }

    /** change(i, j): swap two positions. */
    method Change(i: int, j: int)
      requires 0 <= i < route.Length && 0 <= j < route.Length
      modifies route
      ensures route[..] == Swapped(old(route[..]), i, j)
    {
      Routes.Change(route, i, j);
    }

    /** addNode: append the node and mark it visited. */
    method AddNode(node: int)
      modifies this
      ensures fresh(route) && route[..] == old(route[..]) + [node]
      ensures nodes == old(nodes)[node := true]
    {
      var r := route;
      var a := new int[r.Length + 1];
      var i := 0;
      while i < r.Length
        invariant 0 <= i <= r.Length
        invariant forall k :: 0 <= k < i ==> a[k] == r[k]
        modifies a
      {
        a[i] := r[i];
        i := i + 1;
      }
      a[r.Length] := node;
      assert a[..] == r[..] + [node];
      route := a;
      nodes := nodes[node := true];
    }

    /** removeNode: drop the last entry (whatever the argument) and unmark the argument. */
    method RemoveNode(node: int)
      requires 0 < route.Length
      modifies this
      ensures fresh(route) && route[..] == old(route[..route.Length - 1])
      ensures nodes == old(nodes)[node := false]
    {
      var r := route;
      var a := new int[r.Length - 1];
      var i := 0;
      while i < r.Length - 1
        invariant 0 <= i <= r.Length - 1
        invariant forall k :: 0 <= k < i ==> a[k] == r[k]
        modifies a
      {
        a[i] := r[i];
        i := i + 1;
      }
      assert a[..] == r[..r.Length - 1];
      route := a;
      nodes := nodes[node := false];
    }

    /** IsFeasible: scan positions 1..numNodes-1, then check the closing load. */
    method IsFeasible() returns (ok: bool)
      requires Valid() && 0 < route.Length && tsp.numNodes <= route.Length
      ensures ok == Feasible(tsp, route[..])
    {
      ghost var r := route[..];
      var traveled := tsp.traveled;
      var carrying := tsp.carrying;
      var i := 1;
      while i < tsp.numNodes
        invariant 1 <= i <= Max(tsp.numNodes, 1)
        invariant traveled == ArriveAt(tsp.matrix, tsp.readyTime, r, tsp.traveled, i - 1)
        invariant carrying == Load(tsp.demands, r, tsp.carrying, i - 1)
        invariant forall k :: 1 <= k < i ==> StepOk(tsp, r, k)
      {
        traveled := traveled + tsp.matrix[route[i - 1]][route[i]];
        carrying := carrying + Get(tsp.demands, route[i - 1]);
        if traveled < tsp.readyTime[route[i]] {
          traveled := tsp.readyTime[route[i]];
        }
        if carrying > tsp.capacity {
          assert !StepOk(tsp, r, i);
          return false;
        }
        if route[i] in tsp.precedence {
          var index := IndexOf(tsp.precedence[route[i]], route[..]);
          if i <= index {
            assert !StepOk(tsp, r, i);
            return false;
          }
        }
        assert traveled == ArriveAt(tsp.matrix, tsp.readyTime, r, tsp.traveled, i);
        if tsp.dueDate[route[i]] != 0 && tsp.dueDate[route[i]] < traveled {
          assert !StepOk(tsp, r, i);
          return false;
        }
        i := i + 1;
      }
      var last := route.Length - 1;
      ok := carrying + Get(tsp.demands, route[last]) == 0;
    }

    /** isFeasibleEdge: wait at route[i], travel to route[j], load route[j];
        the updated clock and load are returned with the verdict. No due-date
        exemption for 0. */
    function IsFeasibleEdge(i: int, j: int, sum: int, carrying: int): (w: Walk)
      reads this, route
      requires Valid() && 0 <= i < route.Length && 0 <= j < route.Length
      ensures w.sum == Step(tsp.matrix, tsp.readyTime, sum, route[i], route[j])
      ensures w.carrying == carrying + Get(tsp.demands, route[j])
      ensures w.ok <==> w.sum <= tsp.dueDate[route[j]] && w.carrying <= tsp.capacity
    {
      EdgeWalk(tsp, route[..], i, j, sum, carrying)
    }

    /** isFeasibleRange: the edges start..end walked one by one, stopping at
        the first failure, with the clock and load updated through every
        walked edge. */
    method IsFeasibleRange(start: int, end: int, sum: int, carrying: int)
      returns (ok: bool, sum': int, carrying': int)
      requires Valid() && 0 <= start && end < route.Length
      ensures Walk(ok, sum', carrying') == RangeWalk(tsp, route[..], start, end, sum, carrying)
    {
      ghost var r := route[..];
      sum', carrying' := sum, carrying;
      var i := start;
      while i < end
        invariant start <= i && (start <= end ==> i <= end)
        invariant RangeWalk(tsp, r, start, end, sum, carrying) == RangeWalk(tsp, r, i, end, sum', carrying')
      {
        var n1 := route[i];
        var n2 := route[i + 1];
        if tsp.readyTime[n1] > sum' {
          sum' := tsp.readyTime[n1];
        }
        sum' := sum' + tsp.matrix[n1][n2];
        carrying' := carrying' + Get(tsp.demands, n2);
        if sum' > tsp.dueDate[n2] || carrying' > tsp.capacity {
          return false, sum', carrying';
        }
        i := i + 1;
      }
      ok := true;
    }

    /** getSet: the same list whichever set type is asked for, since both
        branches of the source append. */
    method GetSet(setType: SetType) returns (positions: seq<int>)
      requires Valid()
      ensures positions == SetUpTo(tsp, route[..], route.Length)
      ensures forall x :: x in positions <==> 1 <= x < route.Length && InSet(tsp, route[..], x)
    {
      ghost var r := route[..];
      var traveled := tsp.traveled;
      var carrying := tsp.carrying;
      positions := [];
      var i := 1;
      while i < route.Length
        invariant 1 <= i <= Max(route.Length, 1)
        invariant 0 < |r| ==> traveled == ArriveAt(tsp.matrix, tsp.readyTime, r, tsp.traveled, i - 1)
        invariant 0 < |r| ==> carrying == Load(tsp.demands, r, tsp.carrying, i - 1)
        invariant 0 < |r| ==> positions == SetUpTo(tsp, r, i)
        invariant |r| == 0 ==> positions == []
      {
        traveled := traveled + tsp.matrix[route[i - 1]][route[i]];
        carrying := carrying + Get(tsp.demands, route[i - 1]);
        var predViolation := false;
        if traveled < tsp.readyTime[route[i]] {
          traveled := tsp.readyTime[route[i]];
        }
        if route[i] in tsp.precedence {
          var index := IndexOf(tsp.precedence[route[i]], route[..]);
          if i >= index {
            predViolation := true;
          }
        }
        var isFeasible := !predViolation
          || (tsp.dueDate[route[i]] != 0 && tsp.dueDate[route[i]] < traveled)
          || carrying > tsp.capacity;
        if setType == FeasibleSet && isFeasible {
          positions := positions + [i];
        } else if isFeasible {
          positions := positions + [i];
        }
        i := i + 1;
      }
      SetUpToSpec(tsp, r, route.Length);
    }

    /** TotalDistance: the sum of the edge lengths. */
    method TotalDistance() returns (total: int)
      requires Valid()
      ensures total == TotalDist(tsp.matrix, route[..])
    {
      ghost var r := route[..];
      total := 0;
      var i := 1;
      while i <= route.Length - 1
        invariant 1 <= i <= Max(route.Length, 1)
        invariant 0 < |r| ==> total == Distance(tsp.matrix, r, i - 1)
        invariant |r| == 0 ==> total == 0
      {
        total := total + tsp.matrix[route[i - 1]][route[i]];
        i := i + 1;
      }
    }

    /** MakeSpan: the wait-then-travel clock from the instance's start time. */
    method MakeSpan() returns (traveled: int)
      requires Valid()
      ensures traveled == Span(tsp.matrix, tsp.readyTime, route[..], tsp.traveled)
    {
      ghost var r := route[..];
      traveled := tsp.traveled;
      var i := 0;
      while i < route.Length - 1
        invariant 0 <= i <= Max(route.Length - 1, 0)
        invariant 0 < |r| ==> traveled == TimeAt(tsp.matrix, tsp.readyTime, r, tsp.traveled, i)
        invariant |r| == 0 ==> traveled == tsp.traveled
      {
        if traveled < tsp.readyTime[route[i]] {
          traveled := tsp.readyTime[route[i]];
        }
        traveled := traveled + tsp.matrix[route[i]][route[i + 1]];
        i := i + 1;
      }
    }

    /** Copy: a fresh route holding the first numNodes entries; nodes is left empty. */
    method Copy() returns (x: Solution)
      requires Valid() && 0 <= tsp.numNodes <= route.Length
      ensures fresh(x) && fresh(x.route) && x.tsp == tsp && x.nodes == map[]
      ensures x.route[..] == route[..tsp.numNodes] && x.Valid()
    {
      var a := new int[tsp.numNodes];
      var i := 0;
      while i < tsp.numNodes
        invariant 0 <= i <= tsp.numNodes
        invariant forall k :: 0 <= k < i ==> a[k] == route[k]
      {
        a[i] := route[i];
        i := i + 1;
      }
      assert a[..] == route[..tsp.numNodes];
      x := new Solution(tsp, a);
      x.nodes := map[];
    }

    /** kExchange(iaux, jaux): a copy with route[iaux+1..jaux] reversed,
        returned only if it is feasible; otherwise (and when iaux > jaux) the
        receiver itself. The receiver is never changed. */
    method KExchange(iaux: int, jaux: int) returns (x: Solution)
      requires Valid() && 1 <= tsp.numNodes <= route.Length
      requires iaux < jaux ==> -1 <= iaux && jaux < tsp.numNodes
      ensures x.tsp == tsp && x.Valid()
      ensures iaux > jaux ==> x == this
      ensures x != this ==> fresh(x) && fresh(x.route) && x.route.Length == tsp.numNodes
      ensures iaux <= jaux ==>
        var moved := ReversedSpan(route[..tsp.numNodes], iaux + 1, jaux);
        RouteOk(tsp, moved) && (x != this <==> Feasible(tsp, moved))
        && (x != this ==> x.route[..] == moved)
      ensures 0 <= iaux && tsp.numNodes == route.Length ==> SameNodes(x.route[..], route[..])
      ensures x == this || Feasible(tsp, x.route[..])
    {
      if iaux > jaux {
        return this;
      }
      var start := iaux + 1;
      var end := jaux;
      var c := Copy();
      ReverseSpan(c.route, start, end);
      ReversedSpanPerm(route[..tsp.numNodes], start, end);
      MultisetWithin(route[..tsp.numNodes], c.route[..], tsp.numNodes);
      var ok := c.IsFeasible();
      if ok {
        if 0 <= iaux && tsp.numNodes == route.Length {
          assert route[..tsp.numNodes] == route[..];
          if start <= end {
            ReversedSameNodes(route[..], route[..], start, end, tsp.numNodes);
          } else {
            assert c.route[..] == route[..];
          }
        }
        return c;
      }
      return this;
    }

    /** disturb(level): level random 2-opt moves (kExchange) chained on a
        copy; the receiver is never changed. Each move keeps the route a
        permutation with its start node, and a move is only taken when it
        yields a feasible route. */
    method Disturb(level: int) returns (x: Solution)
      requires Valid() && tsp.numNodes == route.Length
      requires level > 0 ==> route.Length >= 3
      ensures fresh(x) && fresh(x.route) && x.tsp == tsp && x.Valid()
      ensures SameNodes(x.route[..], route[..])
      ensures x.route[..] == route[..] || Feasible(tsp, x.route[..])
    {
      x := Copy();
      assert route[..tsp.numNodes] == route[..];
      var j := 0;
      while j < level
        invariant fresh(x) && fresh(x.route) && x.tsp == tsp && x.Valid()
        invariant SameNodes(x.route[..], route[..])
        invariant x.route[..] == route[..] || Feasible(tsp, x.route[..])
      {
        var n1 := Random(0, route.Length - 2);
        var n2 := Random(n1 + 2, route.Length);
        x := x.KExchange(n1, n2);
        j := j + 1;
      }
    }

    /** calcGlobals: the cached clock per position (traveled[k] is the clock
        on reaching position k, traveled[0] stays 0), the load after serving
        each position but the last, and the precedence pairing of positions. */
    method CalcGlobals() returns (traveled: array<int>, carrying: map<int, int>, precedence: map<int, int>)
      requires Valid() && 0 < route.Length <= tsp.numNodes
      ensures fresh(traveled) && traveled.Length == tsp.numNodes
      ensures TimesFollow(tsp, route[..], traveled[..]) && LoadsFollow(tsp, route[..], carrying)
      ensures precedence == PrecOf(tsp, route[..])
    {
      var r := route[..];
      var t := tsp.traveled;
      var c := tsp.carrying;
      traveled := new int[tsp.numNodes](_ => 0);
      carrying := map[];
      precedence := map[];
      var i := 0;
      while i < |r| - 1
        invariant 0 <= i <= |r| - 1 && |r| <= traveled.Length
        invariant t == TimeAt(tsp.matrix, tsp.readyTime, r, tsp.traveled, i)
        invariant c == Load(tsp.demands, r, tsp.carrying, i)
        invariant TimesUpTo(tsp, r, traveled[..], i)
        invariant carrying == LoadsUpTo(tsp, r, i)
        invariant precedence == PrecSteps(tsp, r, map[], 0, i)
      {
        var n1 := r[i];
        var n2 := r[i + 1];
        if tsp.readyTime[n1] > t {
          t := tsp.readyTime[n1];
        }
        t := t + tsp.matrix[n1][n2];
        assert t == TimeAt(tsp.matrix, tsp.readyTime, r, tsp.traveled, i + 1);
        ghost var u := traveled[..];
        traveled[i + 1] := t;
        assert traveled[..] == u[i + 1 := t];
        TimesUpToStep(tsp, r, u, i, t);
        precedence := WritePairs(tsp, r, precedence, i);
        c := c + Get(tsp.demands, n1);
        assert c == Load(tsp.demands, r, tsp.carrying, i + 1);
        carrying := carrying[i := c];
        i := i + 1;
      }
      precedence := ClosePairs(tsp, r, precedence);
      LoadsUpToSpec(tsp, r, |r| - 1);
    }

    /** Check: starts at the start node, has numNodes entries, repeats no
        node, and is feasible. */
    method Check() returns (ok: bool)
      requires Valid() && 0 < route.Length
      ensures ok <==> route[0] == tsp.startNode && tsp.numNodes == route.Length
                      && Distinct(route[..]) && Feasible(tsp, route[..])
    {
      if tsp.startNode != route[0] {
        return false;
      }
      if tsp.numNodes != route.Length {
        return false;
      }
      var seen: set<int> := {};
      var i := 0;
      while i < route.Length
        invariant 0 <= i <= route.Length
        invariant seen == ValueSet(route[..i])
      {
        assert route[..i + 1] == route[..i] + [route[i]];
        seen := seen + {route[i]};
        i := i + 1;
      }
      assert route[..i] == route[..];
      DistinctIffFullSet(route[..]);
      if |seen| != route.Length {
        return false;
      }
      ok := IsFeasible();
    }
  }

  /** The clock, load and verdict threaded through the edge checks. */
  datatype Walk = Walk(ok: bool, sum: int, carrying: int)

  function EdgeWalk(p: Pdptw, r: seq<int>, i: int, j: int, sum: int, carrying: int): Walk
    requires RouteOk(p, r) && 0 <= i < |r| && 0 <= j < |r|
  {
    var s := Step(p.matrix, p.readyTime, sum, r[i], r[j]);
    var c := carrying + Get(p.demands, r[j]);
    Walk(s <= p.dueDate[r[j]] && c <= p.capacity, s, c)
  }

  /** The chain of isFeasibleEdge(k, k+1) for k = start..end-1, stopping at
      the first failure with that edge's clock and load. */
  function RangeWalk(p: Pdptw, r: seq<int>, start: int, end: int, sum: int, carrying: int): Walk
    requires RouteOk(p, r) && 0 <= start && end < |r|
    decreases end - start
  {
    if start >= end then Walk(true, sum, carrying)
    else
      var w := EdgeWalk(p, r, start, start + 1, sum, carrying);
      if !w.ok then w else RangeWalk(p, r, start + 1, end, w.sum, w.carrying)
  }

  /** A walk of the range that succeeds started from the cached clock at
      start ends on the cached clock at end, having added the demands of
      start+1..end to the load. */
  lemma {:induction false} RangeWalkFollowsClock(p: Pdptw, r: seq<int>, start: nat, end: nat, carrying: int)
    requires RouteOk(p, r) && start <= end < |r|
    ensures var w := RangeWalk(p, r, start, end, TimeAt(p.matrix, p.readyTime, r, p.traveled, start), carrying);
      w.ok ==> w.sum == TimeAt(p.matrix, p.readyTime, r, p.traveled, end)
               && w.carrying == carrying + Load(p.demands, r, 0, end + 1) - Load(p.demands, r, 0, start + 1)
    decreases end - start
  {
    if start < end {
      var t := TimeAt(p.matrix, p.readyTime, r, p.traveled, start);
      var w := EdgeWalk(p, r, start, start + 1, t, carrying);
      RangeWalkFollowsClock(p, r, start + 1, end, w.carrying);
    }
  }

  /** The caches of calcGlobals for route r: traveled[k] is the clock on
      reaching k for k >= 1, traveled[0] is 0 and the tail past the route
      is 0. */
  ghost predicate TimesFollow(p: Pdptw, r: seq<int>, times: seq<int>)
    requires RouteOk(p, r)
  {
    0 < |r| <= |times| && times[0] == 0
    && (forall k {:trigger times[k]} :: 1 <= k < |r| ==> times[k] == TimeAt(p.matrix, p.readyTime, r, p.traveled, k))
    && (forall k :: |r| <= k < |times| ==> times[k] == 0)
  }

  /** The clock cache of calcGlobals once positions up to i are written. */
  ghost predicate TimesUpTo(p: Pdptw, r: seq<int>, u: seq<int>, i: int)
    requires RouteOk(p, r) && 0 <= i < |r|
  {
    0 < |u| && u[0] == 0
    && (forall k {:trigger u[k]} :: 1 <= k <= i && k < |u| ==> u[k] == TimeAt(p.matrix, p.readyTime, r, p.traveled, k))
    && (forall k {:trigger u[k]} :: i < k < |u| ==> u[k] == 0)
  }

  lemma {:induction false} TimesUpToStep(p: Pdptw, r: seq<int>, u: seq<int>, i: int, t: int)
    requires RouteOk(p, r) && 0 <= i && i + 1 < |r| && i + 1 < |u|
    requires TimesUpTo(p, r, u, i) && t == TimeAt(p.matrix, p.readyTime, r, p.traveled, i + 1)
    ensures TimesUpTo(p, r, u[i + 1 := t], i + 1)
  {
    var u' := u[i + 1 := t];
    forall k | 1 <= k <= i && k < |u'| ensures u'[k] == TimeAt(p.matrix, p.readyTime, r, p.traveled, k) {
      assert u'[k] == u[k];
    }
    forall k | i + 1 < k < |u'| ensures u'[k] == 0 {
      assert u'[k] == u[k];
    }
  }

  /** The load cache of calcGlobals: the load after serving each position
      but the last. */
  ghost predicate LoadsFollow(p: Pdptw, r: seq<int>, loads: map<int, int>)
  {
    (forall k :: k in loads <==> 0 <= k < |r| - 1)
    && (forall k :: 0 <= k < |r| - 1 ==> loads[k] == Load(p.demands, r, p.carrying, k + 1))
  }

  /** The clock cache holds the true clock at every position of r. */
  ghost predicate ClockExact(p: Pdptw, r: seq<int>, times: seq<int>)
    requires RouteOk(p, r)
  {
    |r| <= |times| && forall k {:trigger times[k]} :: 0 <= k < |r| ==> times[k] == TimeAt(p.matrix, p.readyTime, r, p.traveled, k)
  }

  /** The clock cache with the start time written at position 0, where
      calcGlobals leaves 0, holds the true clock whatever the start time. */
  lemma {:induction false} SeededCachesExact(p: Pdptw, r: seq<int>, times: seq<int>)
    requires RouteOk(p, r) && TimesFollow(p, r, times)
    ensures ClockExact(p, r, times[0 := p.traveled])
  {
    var u := times[0 := p.traveled];
    forall k | 0 <= k < |r| ensures u[k] == TimeAt(p.matrix, p.readyTime, r, p.traveled, k) {
      if k > 0 {
        assert u[k] == times[k];
      }
    }
  }

  /** An instance that starts at time 10, with unit travel and due dates
      11 and 12 at nodes 1 and 2, and the caches calcGlobals computes on it
      for the route 0 1 2 3. */
  function LateStart(): (p: Pdptw)
    ensures WellFormed(p) && p.numNodes == 4
  {
    Pdptw("", 0, 0, 4, 10, 0, seq(4, a => seq(4, b => 1)), seq(4, a => 0), [100, 11, 12, 100], map[], map[], map[], map[])
  }

  const LateRoute: seq<int> := [0, 1, 2, 3]
  const LateTimes: seq<int> := [0, 11, 12, 13]
  const LateLoads: map<int, int> := map[0 := 0, 1 := 0, 2 := 0]

  lemma {:induction false} LateStartCaches()
    ensures RouteOk(LateStart(), LateRoute)
    ensures TimesFollow(LateStart(), LateRoute, LateTimes) && LoadsFollow(LateStart(), LateRoute, LateLoads)
    ensures Get(PrecOf(LateStart(), LateRoute), 1) == -1 && Get(PrecOf(LateStart(), LateRoute), 2) == -1
  {
    var p := LateStart();
    var r := LateRoute;
    assert TimeAt(p.matrix, p.readyTime, r, 10, 1) == 11;
    assert TimeAt(p.matrix, p.readyTime, r, 10, 2) == 12;
    assert TimeAt(p.matrix, p.readyTime, r, 10, 3) == 13;
    assert Load(p.demands, r, 0, 3) == 0;
    var m := PrecSteps(p, r, map[], 0, 3);
    assert PrecSteps(p, r, map[], 0, 2) == PrecStep(p, r, PrecSteps(p, r, map[], 0, 1), 1);
    assert Get(PrecSteps(p, r, map[], 0, 2), 1) == -1;
    assert Get(m, 1) == -1 && Get(m, 2) == -1;
    assert FirstIndex(r, Get(p.precedence, r[3])) == 0;
  }
}
