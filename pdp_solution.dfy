// pdp/solution.go and the PDP struct of pdp/pdp.go: the pickup-and-delivery
// instance without time windows or capacities. A route is feasible when the
// pickup of every delivery comes before it; the penalty of an infeasible
// route adds up, over the unmet deliveries, the positions their pickups
// wait at.
module PdpSolution {
  import opened Utils
  import opened Schedule
  import opened Routes

  /** The PDP struct: precedence maps a delivery node to its pickup node. */
  datatype Pdp = Pdp(
    name: string,
    numNodes: int,
    matrix: seq<seq<int>>,
    arcs: map<int, map<int, bool>>,  // filled by Preprocess
    precedence: map<int, int>)

  /** The indexing the solver relies on: one square matrix row per node. */
  ghost predicate WellFormed(p: Pdp)
  {
    p.numNodes == |p.matrix| && Square(p.matrix)
  }

  /** 0, 1, ..., n - 1. */
  function Range(n: int): (r: seq<int>)
    ensures |r| == Max(n, 0) && forall k :: 0 <= k < |r| ==> r[k] == k
    decreases Max(n, 0)
  {
    if n <= 0 then [] else Range(n - 1) + [n - 1]
  }

  /** Every node of [lo, hi) exactly once, and nothing else. */
  ghost predicate EachOnce(r: seq<int>, lo: int, hi: int)
  {
    forall x :: multiset(r)[x] == if lo <= x < hi then 1 else 0
  }

  lemma {:induction false} RangeEachOnce(n: int)
    ensures EachOnce(Range(n), 0, n)
    decreases Max(n, 0)
  {
    if n > 0 {
      RangeEachOnce(n - 1);
      assert multiset(Range(n)) == multiset(Range(n - 1)) + multiset{n - 1};
    }
  }

  /** A route holding each of 0..n-1 once has n positions, all of them
      nodes of the instance. */
  lemma {:induction false} EachOnceWithin(r: seq<int>, n: int)
    requires EachOnce(r, 0, n)
    ensures |r| == Max(n, 0) && Within(r, n)
  {
    RangeEachOnce(n);
    assert multiset(r) == multiset(Range(n)) by {
      forall x ensures multiset(r)[x] == multiset(Range(n))[x] {
      }
    }
    assert |r| == |multiset(r)| == |multiset(Range(n))| == |Range(n)|;
    forall k | 0 <= k < |r| ensures 0 <= r[k] < n {
      assert r[k] in multiset(r);
    }
  }

  // ---------------------------------------------------------------------
  // preprocess

  /** The rows preprocess writes before it looks at node i: a pickup of a
      later delivery has its row already, so precedence[i] must be at most
      i (and a node). */
  ghost predicate PickupsFirst(p: Pdp)
  {
    forall i :: 0 <= i < |p.matrix| && i in p.precedence ==> 0 <= p.precedence[i] <= i
  }

  /** The arc from i to j is forbidden exactly when i is j's pickup. */
  ghost predicate Forbidden(p: Pdp, i: int, j: int)
  {
    j in p.precedence && p.precedence[j] == i
  }

  /** preprocess: a full row of true arcs for every node, the diagonal
      included, then false on the arc from each delivery's pickup to it.
      The write into the pickup's row panics when that row does not exist
      yet; ok is false exactly then, and the arcs reached so far are what
      was filled. */
  method Preprocess(p: Pdp) returns (arcs: map<int, map<int, bool>>, ok: bool)
    requires Square(p.matrix)
    ensures ok <==> PickupsFirst(p)
    ensures ok ==> forall i :: i in arcs <==> 0 <= i < |p.matrix|
    ensures ok ==> forall i, j :: 0 <= i < |p.matrix| ==> (j in arcs[i] <==> 0 <= j < |p.matrix|)
    ensures ok ==> forall i, j :: 0 <= i < |p.matrix| && 0 <= j < |p.matrix| ==>
      (arcs[i][j] <==> !Forbidden(p, i, j))
  {
    var n := |p.matrix|;
    arcs := map[];
    var i := 0;
    while i < n
      invariant 0 <= i <= n
      invariant forall a :: a in arcs <==> 0 <= a < i
      invariant forall a, b :: 0 <= a < i ==> (b in arcs[a] <==> 0 <= b < n)
      invariant forall a, b :: 0 <= a < i && 0 <= b < n ==>
        (arcs[a][b] <==> !(0 <= b < i && Forbidden(p, a, b)))
      invariant forall k :: 0 <= k < i && k in p.precedence ==> 0 <= p.precedence[k] <= k
    {
      var row: map<int, bool> := map[];
      var j := 0;
      while j < n
        invariant 0 <= j <= n
        invariant forall b :: b in row <==> 0 <= b < j
        invariant forall b :: b in row ==> row[b]
      {
        row := row[j := true];
        j := j + 1;
      }
      arcs := arcs[i := row];
      if i in p.precedence {
        var value := p.precedence[i];
        if !(value in arcs) {
          // the row of a later (or no) node: Go panics on the nil map
          assert !(0 <= value <= i);
          ok := false;
          return;
        }
        arcs := arcs[value := arcs[value][i := false]];
      }
      i := i + 1;
    }
    ok := true;
  }

  // ---------------------------------------------------------------------
  // The route functions the scans compute

  /** Is the pickup of the delivery at position i among positions lo..i?
      A node that is not a delivery is always met. */
  predicate Met(p: Pdp, r: seq<int>, i: int, lo: int)
    requires 0 <= lo <= i < |r|
  {
    r[i] in p.precedence ==> p.precedence[r[i]] in r[lo..i + 1]
  }

  /** IsFeasible: every delivery at positions 1..numNodes-2 has its pickup
      at a position from 1 up to it (the first and last positions, the two
      depots, are not checked). */
  predicate Feasible(p: Pdp, r: seq<int>)
    requires p.numNodes <= |r|
  {
    forall i :: 1 <= i < p.numNodes - 1 ==> Met(p, r, i, 1)
  }

  /** The first position from j below hi holding v, or 0 when there is
      none. */
  function FirstFrom(r: seq<int>, j: int, hi: int, v: int): (k: nat)
    requires 0 <= j && hi <= |r|
    ensures j < hi && v in r[j..hi] ==> j <= k < hi && r[k] == v && v !in r[j..k]
    ensures !(j < hi && v in r[j..hi]) ==> k == 0
    decreases hi - j
  {
    if j >= hi then 0
    else if r[j] == v then j
    else
      var k := FirstFrom(r, j + 1, hi, v);
      assert r[j..hi] == [r[j]] + r[j + 1..hi];
      assert k > 0 ==> r[j..k] == [r[j]] + r[j + 1..k];
      k
  }

  /** NodePenalty(i): the position of the pickup of the delivery at i,
      searched from i to the last but none of the first numNodes
      positions; 0 when it is no delivery or the pickup is not there. */
  function NodePenaltyOf(p: Pdp, r: seq<int>, i: int): (pen: nat)
    requires 0 <= i < |r| && p.numNodes <= |r|
    ensures pen != 0 ==> r[i] in p.precedence && i <= pen < p.numNodes && r[pen] == p.precedence[r[i]]
  {
    if r[i] in p.precedence then FirstFrom(r, i, p.numNodes, p.precedence[r[i]]) else 0
  }

  /** The penalty of the delivery at position i: its NodePenalty if unmet. */
  function Term(p: Pdp, r: seq<int>, i: int): nat
    requires 1 <= i < |r| && p.numNodes <= |r|
  {
    if Met(p, r, i, 1) then 0 else NodePenaltyOf(p, r, i)
  }

  /** The penalty of positions 1..k-1. */
  function PenaltyUpTo(p: Pdp, r: seq<int>, k: int): nat
    requires (k <= 1 || k <= |r|) && p.numNodes <= |r|
    decreases k
  {
    if k <= 1 then 0 else PenaltyUpTo(p, r, k - 1) + Term(p, r, k - 1)
  }

  /** One more position of the sum. */
  lemma {:induction false} PenaltyUpToStep(p: Pdp, r: seq<int>, k: int)
    requires 1 <= k < |r| && p.numNodes <= |r|
    ensures PenaltyUpTo(p, r, k + 1) == PenaltyUpTo(p, r, k) + Term(p, r, k)
  {
  }

  /** Penalty: the sum over positions 1..numNodes-2. */
  function PenaltyOf(p: Pdp, r: seq<int>): nat
    requires p.numNodes <= |r|
  {
    PenaltyUpTo(p, r, p.numNodes - 1)
  }

  /** Every pickup of a delivery inside the checked positions is somewhere
      at positions 1..numNodes-1: true of every route holding each node
      once whose pickups are not the depot 0. */
  ghost predicate PickupsOnRoute(p: Pdp, r: seq<int>)
    requires p.numNodes <= |r|
  {
    forall i :: 1 <= i < p.numNodes - 1 && r[i] in p.precedence ==> p.precedence[r[i]] in r[1..p.numNodes]
  }

  lemma {:induction false} MetUpTo(p: Pdp, r: seq<int>, k: int)
    requires k <= p.numNodes <= |r|
    requires forall i :: 1 <= i < k ==> Met(p, r, i, 1)
    ensures PenaltyUpTo(p, r, k) == 0
    decreases k
  {
    if k > 1 {
      MetUpTo(p, r, k - 1);
    }
  }

  lemma {:induction false} NoPenaltyUpTo(p: Pdp, r: seq<int>, k: int)
    requires k <= p.numNodes - 1 && p.numNodes <= |r| && PickupsOnRoute(p, r)
    requires PenaltyUpTo(p, r, k) == 0
    ensures forall i :: 1 <= i < k ==> Met(p, r, i, 1)
    decreases k
  {
    if k > 1 {
      NoPenaltyUpTo(p, r, k - 1);
    }
  }

  /** IsFeasible implies Penalty 0; the converse holds when every pickup is
      on the route (a missing pickup adds nothing). */
  lemma {:induction false} PenaltyZeroIffFeasible(p: Pdp, r: seq<int>)
    requires p.numNodes <= |r|
    ensures Feasible(p, r) ==> PenaltyOf(p, r) == 0
    ensures PickupsOnRoute(p, r) && PenaltyOf(p, r) == 0 ==> Feasible(p, r)
  {
    if Feasible(p, r) {
      MetUpTo(p, r, p.numNodes - 1);
    }
    if PickupsOnRoute(p, r) && PenaltyOf(p, r) == 0 {
      NoPenaltyUpTo(p, r, p.numNodes - 1);
    }
  }

  /** calcSets over positions 1..k-1, as intended: a delivery whose pickup
      is among positions 0..i goes to the feasible list, any other
      delivery to the unfeasible list. */
  function SetsUpTo(p: Pdp, r: seq<int>, k: int): (seq<int>, seq<int>)
    requires k <= 1 || k <= |r|
    decreases k
  {
    if k <= 1 then ([], [])
    else
      var sets := SetsUpTo(p, r, k - 1);
      var i := k - 1;
      if r[i] !in p.precedence then sets
      else if Met(p, r, i, 0) then (sets.0 + [i], sets.1)
      else (sets.0, sets.1 + [i])
  }

  /** calcSets over positions 1..k-1 as the source writes it: an unmet
      delivery makes the unfeasible list the feasible list so far followed
      by i (it appends to the wrong slice), so that list is rebuilt, not
      accumulated. The append is read with value semantics: the two slices
      share no storage. */
  function SetsUpToAsWritten(p: Pdp, r: seq<int>, k: int): (seq<int>, seq<int>)
    requires k <= 1 || k <= |r|
    decreases k
  {
    if k <= 1 then ([], [])
    else
      var sets := SetsUpToAsWritten(p, r, k - 1);
      var i := k - 1;
      if r[i] !in p.precedence then sets
      else if Met(p, r, i, 0) then (sets.0 + [i], sets.1)
      else (sets.0, sets.0 + [i])
  }

  /** calcSets: positions 1..numNodes-2. */
  function CalcSetsOf(p: Pdp, r: seq<int>): (seq<int>, seq<int>)
    requires p.numNodes <= |r|
  {
    SetsUpTo(p, r, Max(p.numNodes - 1, 0))
  }

  /** calcSets as written: positions 1..numNodes-2. */
  function CalcSetsAsWritten(p: Pdp, r: seq<int>): (seq<int>, seq<int>)
    requires p.numNodes <= |r|
  {
    SetsUpToAsWritten(p, r, Max(p.numNodes - 1, 0))
  }

  /** A delivery position whose pickup is among positions 0..i. */
  ghost predicate MetDelivery(p: Pdp, r: seq<int>, i: int)
    requires 0 <= i < |r|
  {
    r[i] in p.precedence && Met(p, r, i, 0)
  }

  /** A delivery position whose pickup is not among positions 0..i. */
  ghost predicate UnmetDelivery(p: Pdp, r: seq<int>, i: int)
    requires 0 <= i < |r|
  {
    r[i] in p.precedence && !Met(p, r, i, 0)
  }

  ghost predicate Increasing(s: seq<int>)
  {
    forall a, b :: 0 <= a < b < |s| ==> s[a] < s[b]
  }

  /** The feasible list holds the met delivery positions, in increasing
      order. */
  lemma {:induction false} FeasibleSetSpec(p: Pdp, r: seq<int>, k: int)
    requires k <= 1 || k <= |r|
    ensures forall x :: x in SetsUpTo(p, r, k).0 <==> 1 <= x < k && MetDelivery(p, r, x)
    ensures Increasing(SetsUpTo(p, r, k).0)
    decreases k
  {
    if k > 1 {
      FeasibleSetSpec(p, r, k - 1);
      var f := SetsUpTo(p, r, k - 1).0;
      var i := k - 1;
      assert forall x :: x in f ==> x < i;
      if r[i] in p.precedence && Met(p, r, i, 0) {
        var f' := f + [i];
        forall a, b | 0 <= a < b < |f'| ensures f'[a] < f'[b] {
          if b == |f| {
            assert f'[a] == f[a] && f[a] in f;
          } else {
            assert f'[a] == f[a] && f'[b] == f[b] && f[a] < f[b];
          }
        }
        assert f' == SetsUpTo(p, r, k).0;
      }
    }
  }

  /** The unfeasible list holds the unmet delivery positions, in
      increasing order. */
  lemma {:induction false} UnfeasibleSetSpec(p: Pdp, r: seq<int>, k: int)
    requires k <= 1 || k <= |r|
    ensures forall x :: x in SetsUpTo(p, r, k).1 <==> 1 <= x < k && UnmetDelivery(p, r, x)
    ensures Increasing(SetsUpTo(p, r, k).1)
    decreases k
  {
    if k > 1 {
      UnfeasibleSetSpec(p, r, k - 1);
      var u := SetsUpTo(p, r, k - 1).1;
      var i := k - 1;
      assert forall x :: x in u ==> x < i;
      if r[i] in p.precedence && !Met(p, r, i, 0) {
        var u' := u + [i];
        forall a, b | 0 <= a < b < |u'| ensures u'[a] < u'[b] {
          if b == |u| {
            assert u'[a] == u[a] && u[a] in u;
          } else {
            assert u'[a] == u[a] && u'[b] == u[b] && u[a] < u[b];
          }
        }
        assert u' == SetsUpTo(p, r, k).1;
      }
    }
  }

  /** The source's unfeasible list is empty when no delivery is unmet, and
      otherwise the met positions below the LAST unmet one followed by it:
      every unmet position but the last is lost. */
  lemma {:induction false} AsWrittenUnfeasibleSpec(p: Pdp, r: seq<int>, k: int)
    requires k <= 1 || k <= |r|
    ensures var u := SetsUpToAsWritten(p, r, k).1;
      (u == [] <==> forall x :: 1 <= x < k ==> !UnmetDelivery(p, r, x))
      && (u != [] ==>
            var last := u[|u| - 1];
            1 <= last < k && UnmetDelivery(p, r, last)
            && (forall x :: last < x < k ==> !UnmetDelivery(p, r, x))
            && u[..|u| - 1] == SetsUpToAsWritten(p, r, last).0)
    decreases k
  {
    if k > 1 {
      AsWrittenUnfeasibleSpec(p, r, k - 1);
      var f := SetsUpToAsWritten(p, r, k - 1).0;
      var i := k - 1;
      if r[i] in p.precedence && !Met(p, r, i, 0) {
        var u' := f + [i];
        assert u'[..|u'| - 1] == f;
        assert UnmetDelivery(p, r, i);
      } else {
        assert !UnmetDelivery(p, r, i);
        assert SetsUpToAsWritten(p, r, k).1 == SetsUpToAsWritten(p, r, k - 1).1;
      }
    }
  }

  /** Deliveries 1 and 2 waiting for pickup 3 at the end of the route
      [0, 1, 2, 3]: both are unmet, the source's unfeasible list names
      only position 2, the intended one both. */
  lemma {:induction false} CalcSetsLosesUnmet()
    ensures var p := Pdp("", 4, [], map[], map[1 := 3, 2 := 3]);
      var r := [0, 1, 2, 3];
      UnmetDelivery(p, r, 1) && UnmetDelivery(p, r, 2)
      && CalcSetsAsWritten(p, r) == ([], [2]) && CalcSetsOf(p, r) == ([], [1, 2])
  {
    var p := Pdp("", 4, [], map[], map[1 := 3, 2 := 3]);
    var r := [0, 1, 2, 3];
    assert r[0..2] == [0, 1] && r[0..3] == [0, 1, 2];
    assert !Met(p, r, 1, 0) && !Met(p, r, 2, 0);
    assert r[1] in p.precedence && r[2] in p.precedence;
    var w1, c1 := SetsUpToAsWritten(p, r, 1), SetsUpTo(p, r, 1);
    assert w1 == c1 == ([], []);
    var w2, c2 := SetsUpToAsWritten(p, r, 2), SetsUpTo(p, r, 2);
    assert w2 == (w1.0, w1.0 + [1]) && c2 == (c1.0, c1.1 + [1]);
    assert SetsUpToAsWritten(p, r, 3) == (w2.0, w2.0 + [2]);
    assert SetsUpTo(p, r, 3) == (c2.0, c2.1 + [2]);
    assert w2.0 == c2.0 == [] && c2.1 == [1];
    assert Max(p.numNodes - 1, 0) == 3 && w2.0 + [2] == [2] && c2.1 + [2] == [1, 2];
    assert CalcSetsAsWritten(p, r) == ([], [2]) && CalcSetsOf(p, r) == ([], [1, 2]);
  }

  /** Both lists of calcSets hold positions 1..numNodes-2. */
  lemma {:induction false} SetsInside(p: Pdp, r: seq<int>, k: int)
    requires k <= 1 || k <= |r|
    ensures forall x :: x in SetsUpTo(p, r, k).0 ==> 1 <= x < k
    ensures forall x :: x in SetsUpTo(p, r, k).1 ==> 1 <= x < k
    decreases k
  {
    if k > 1 {
      SetsInside(p, r, k - 1);
    }
  }

  /** The total distance of the first numNodes positions. */
  function TotalDistanceOf(p: Pdp, r: seq<int>): int
    requires Square(p.matrix) && p.numNodes <= |r| && 0 <= p.numNodes && Within(r, |p.matrix|)
  {
    TotalDist(p.matrix, r[..p.numNodes])
  }

  /** The order key of PenaltySort: the NodePenalty of each position. */
  function PenaltyKey(p: Pdp, r: seq<int>, k: int): int
  {
    if 0 <= k < |r| && p.numNodes <= |r| then NodePenaltyOf(p, r, k) else 0
  }

  // ---------------------------------------------------------------------
  // The Solution struct

  class Solution {
    var route: array<int>
    var nodes: map<int, bool>
    const tsp: Pdp

    /** The route holds nodes of a well-formed instance. */
    ghost predicate Valid()
      reads this, route
    {
      WellFormed(tsp) && Within(route[..], tsp.numNodes)
    }

    /** NewSolution: the loop marks the slice INDICES 0..len-1, not the
        nodes stored there. */
    constructor (tsp: Pdp, route: array<int>)
      ensures this.tsp == tsp && this.route == route
      ensures forall k :: k in nodes <==> 0 <= k < route.Length
      ensures forall k :: k in nodes ==> nodes[k]
    {
      var marked: map<int, bool> := map[];
      var node := 0;
      while node < route.Length
        invariant 0 <= node <= route.Length
        invariant forall k :: k in marked <==> 0 <= k < node
        invariant forall k :: k in marked ==> marked[k]
      {
        marked := marked[node := true];
        node := node + 1;
      }
      this.tsp := tsp;
      this.route := route;
      this.nodes := marked;
    }

    /** The struct literal of Copy: a route, an instance and a nil map. */
    constructor Literal(tsp: Pdp, route: array<int>)
      ensures this.tsp == tsp && this.route == route && nodes == map[]
    {
      this.tsp := tsp;
      this.route := route;
      this.nodes := map[];
    }

    /** Copy: a fresh solution over a fresh slice of the first numNodes
        positions; its nodes map is nil. */
    method Copy() returns (x: Solution)
      requires 0 <= tsp.numNodes <= route.Length
      ensures fresh(x) && fresh(x.route) && x.tsp == tsp && x.nodes == map[]
      ensures x.route[..] == route[..tsp.numNodes]
      ensures Valid() ==> x.Valid()
    {
      var r := Prefix(route, tsp.numNodes);
      x := new Solution.Literal(tsp, r);
    }

    /** IsFeasible: scan positions 1..numNodes-2. */
    method IsFeasible() returns (ok: bool)
      requires tsp.numNodes <= route.Length
      ensures ok == Feasible(tsp, route[..])
    {
      ghost var r := route[..];
      var i := 1;
      while i < tsp.numNodes - 1
        invariant 1 <= i <= Max(tsp.numNodes - 1, 1)
        invariant forall k :: 1 <= k < i ==> Met(tsp, r, k, 1)
      {
        if route[i] in tsp.precedence {
          var hasNode := SearchBack(route, i, tsp.precedence[route[i]]);
          if !hasNode {
            assert !Met(tsp, r, i, 1);
            return false;
          }
        }
        i := i + 1;
      }
      return true;
    }

    /** The forward search of Penalty and NodePenalty: the first position
        from i below numNodes holding value, or 0. */
    method FirstForward(i: int, value: int) returns (pen: int)
      requires 0 <= i && tsp.numNodes <= route.Length
      ensures pen == FirstFrom(route[..], i, tsp.numNodes, value)
    {
      ghost var r := route[..];
      pen := 0;
      var j := i;
      while j < tsp.numNodes
        invariant i <= j
        invariant FirstFrom(r, i, tsp.numNodes, value) == FirstFrom(r, j, tsp.numNodes, value)
        decreases tsp.numNodes - j
      {
        if value == route[j] {
          pen := j;
          return;
        }
        j := j + 1;
      }
    }

    /** The penalty the loop of Penalty adds at position i: the forward
        search for the pickup of an unmet delivery, else nothing. */
    method PenaltyAt(i: int) returns (term: int)
      requires 1 <= i < tsp.numNodes <= route.Length
      ensures term == Term(tsp, route[..], i)
    {
      term := 0;
      if route[i] in tsp.precedence {
        var value := tsp.precedence[route[i]];
        var hasNode := SearchBack(route, i, value);
        if !hasNode {
          term := FirstForward(i, value);
        }
      }
    }

    /** Penalty: over positions 1..numNodes-2, the NodePenalty of each
        delivery whose pickup is not among positions 1..i. */
    method Penalty() returns (penalty: int)
      requires tsp.numNodes <= route.Length
      ensures penalty == PenaltyOf(tsp, route[..])
    {
      ghost var r := route[..];
      penalty := 0;
      var i := 1;
      while i < tsp.numNodes - 1
        invariant 1 <= i <= Max(tsp.numNodes - 1, 1)
        invariant penalty == PenaltyUpTo(tsp, r, i)
      {
        var term := PenaltyAt(i);
        PenaltyUpToStep(tsp, r, i);
        penalty := penalty + term;
        i := i + 1;
      }
    }

    /** The backward search of calcSets: is value among positions i down
        to 0? */
    method SearchDown(i: int, value: int) returns (hasNode: bool)
      requires 0 <= i < route.Length
      ensures hasNode <==> value in route[0..i + 1]
    {
      ghost var r := route[..];
      var j := i;
      while j >= 0
        invariant -1 <= j <= i
        invariant value !in r[j + 1..i + 1]
      {
        if value == route[j] {
          assert r[0..i + 1][j] == value;
          return true;
        }
        assert r[j..i + 1] == [r[j]] + r[j + 1..i + 1];
        j := j - 1;
      }
      return false;
    }

    /** calcSets, with the unmet positions appended to the unfeasible
        list: the met and the unmet delivery positions among 1..numNodes-2,
        each list in increasing order. */
    method CalcSets() returns (feasible: seq<int>, unfeasible: seq<int>)
      requires tsp.numNodes <= route.Length
      ensures (feasible, unfeasible) == CalcSetsOf(tsp, route[..])
      ensures forall x :: x in feasible <==> 1 <= x < tsp.numNodes - 1 && MetDelivery(tsp, route[..], x)
      ensures forall x :: x in unfeasible <==> 1 <= x < tsp.numNodes - 1 && UnmetDelivery(tsp, route[..], x)
      ensures Increasing(feasible) && Increasing(unfeasible)
    {
      ghost var r := route[..];
      feasible, unfeasible := [], [];
      var i := 1;
      while i < tsp.numNodes - 1
        invariant 1 <= i <= Max(tsp.numNodes - 1, 1)
        invariant (feasible, unfeasible) == SetsUpTo(tsp, r, i)
      {
        if route[i] in tsp.precedence {
          var hasNode := SearchDown(i, tsp.precedence[route[i]]);
          if hasNode {
            feasible := feasible + [i];
          } else {
            unfeasible := unfeasible + [i];
          }
        }
        i := i + 1;
      }
      FeasibleSetSpec(tsp, r, Max(tsp.numNodes - 1, 0));
      UnfeasibleSetSpec(tsp, r, Max(tsp.numNodes - 1, 0));
    }

    /** exchange(p, paux): relocate the node at p to paux. */
    method Exchange(pos: int, newPos: int)
      requires 0 <= pos < route.Length && 0 <= newPos < route.Length
      modifies route
      ensures route[..] == Relocated(old(route[..]), pos, newPos)
    {
      Routes.Exchange(route, pos, newPos);
    }

    /** HasNode: is the node marked in nodes? */
    function HasNode(node: int): bool
      reads this
    {
      node in nodes && nodes[node]
    }

    /** AddNode: append the node to the route and mark it. */
    method AddNode(node: int)
      modifies this
      ensures route[..] == old(route[..]) + [node] && fresh(route)
      ensures nodes == old(nodes)[node := true]
    {
      route := Appended(route, node);
      nodes := nodes[node := true];
    }

    /** RemoveNode: cut the route to its first numNodes-1 positions,
        whatever node is named, and unmark the node. */
    method RemoveNode(node: int)
      requires 0 <= tsp.numNodes - 1 <= route.Length
      modifies this
      ensures route[..] == old(route[..tsp.numNodes - 1]) && fresh(route)
      ensures nodes == old(nodes)[node := false]
    {
      route := Prefix(route, tsp.numNodes - 1);
      nodes := nodes[node := false];
    }

    function GetNode(index: int): int
      requires 0 <= index < route.Length
      reads this, route
    {
      route[index]
    }

    /** GetCurrent: position numNodes-1, whatever the route's length. */
    function GetCurrent(): int
      requires 0 <= tsp.numNodes - 1 < route.Length
      reads this, route
    {
      route[tsp.numNodes - 1]
    }

    /** TotalDistance: the edges between the first numNodes positions. */
    method TotalDistance() returns (total: int)
      requires Valid() && tsp.numNodes <= route.Length
      ensures total == TotalDistanceOf(tsp, route[..])
    {
      ghost var r := route[..];
      ghost var head := r[..tsp.numNodes];
      total := 0;
      var i := 1;
      while i < tsp.numNodes
        invariant 1 <= i <= Max(tsp.numNodes, 1)
        invariant 0 < |head| ==> total == Distance(tsp.matrix, head, i - 1)
        invariant |head| == 0 ==> total == 0
      {
        total := total + tsp.matrix[route[i - 1]][route[i]];
        i := i + 1;
      }
    }

    /** NodePenalty(i). */
    method NodePenalty(i: int) returns (penalty: int)
      requires 0 <= i < route.Length && tsp.numNodes <= route.Length
      ensures penalty == NodePenaltyOf(tsp, route[..], i)
    {
      penalty := 0;
      if route[i] in tsp.precedence {
        penalty := FirstForward(i, tsp.precedence[route[i]]);
      }
    }

    /** The NodePenalty of every position, computed before any write. */
    method Penalties() returns (pens: seq<int>)
      requires tsp.numNodes <= route.Length
      ensures |pens| == route.Length
      ensures forall k :: 0 <= k < |pens| ==> pens[k] == PenaltyKey(tsp, route[..], k)
    {
      pens := [];
      var node := 0;
      while node < route.Length
        invariant 0 <= node <= route.Length && |pens| == node
        invariant forall k :: 0 <= k < node ==> pens[k] == PenaltyKey(tsp, route[..], k)
      {
        var pen := NodePenalty(node);
        pens := pens + [pen];
        node := node + 1;
      }
    }

    /** PenaltySort: the positions 0..len-1, ordered by non-decreasing
        NodePenalty on the route as it was, written over the route. It
        writes POSITIONS, not the nodes stored at them: a route holding
        each of 0..len-1 once still does, and any other route becomes one.
        sort.Sort is not stable, so any order of equal penalties may come
        out. */
    method PenaltySort()
      requires tsp.numNodes <= route.Length
      modifies route
      ensures EachOnce(route[..], 0, route.Length)
      ensures forall a, b :: 0 <= a < b < route.Length ==>
        PenaltyKey(tsp, old(route[..]), route[a]) <= PenaltyKey(tsp, old(route[..]), route[b])
    {
      var pens := Penalties();
      var sorted := OrderBy(pens);
      Overwrite(route, sorted);
    }
  }

  /** A permutation of 0..n-1 holds each of them once. */
  lemma {:induction false} PermutationOfRange(sorted: seq<int>, n: int)
    requires multiset(sorted) == multiset(Range(n))
    ensures EachOnce(sorted, 0, n) && |sorted| == Max(n, 0) && Within(sorted, n)
  {
    RangeEachOnce(n);
    EachOnceWithin(sorted, n);
  }

  /** The positions sorted by a key that reads pens. */
  lemma {:induction false} SortedByPens(pens: seq<int>, key: int -> int, sorted: seq<int>)
    requires forall k :: 0 <= k < |pens| ==> key(k) == pens[k]
    requires Within(sorted, |pens|) && SortedBy(key, sorted)
    ensures forall a, b :: 0 <= a < b < |sorted| ==> pens[sorted[a]] <= pens[sorted[b]]
  {
    forall a, b | 0 <= a < b < |sorted| ensures pens[sorted[a]] <= pens[sorted[b]] {
      assert key(sorted[a]) <= key(sorted[b]);
    }
  }

  /** sort.Sort(ByPenalty(penalties)) read off as positions: some order
      of 0..|pens|-1 by non-decreasing pens. */
  method OrderBy(pens: seq<int>) returns (sorted: seq<int>)
    ensures EachOnce(sorted, 0, |pens|) && |sorted| == |pens| && Within(sorted, |pens|)
    ensures forall a, b :: 0 <= a < b < |sorted| ==> pens[sorted[a]] <= pens[sorted[b]]
  {
    var key := k => if 0 <= k < |pens| then pens[k] else 0;
    var indices := Range(|pens|);
    sorted := SortSlice(key, indices);
    PermutationOfRange(sorted, |pens|);
    SortedByPens(pens, key, sorted);
  }

  /** The sorted positions written over the route. */
  method Overwrite(a: array<int>, s: seq<int>)
    requires |s| == a.Length
    modifies a
    ensures a[..] == s
  {
    var i := 0;
    while i < a.Length
      invariant 0 <= i <= a.Length
      invariant forall k :: 0 <= k < i ==> a[k] == s[k]
    {
      a[i] := s[i];
      i := i + 1;
    }
  }
}
