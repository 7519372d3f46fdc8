// pdptw/generate.go and pdptw/greedy.go: the construction strategies of the
// pdptw package. The two files repeat the random permutation (random and
// GetRandom), the nearest-neighbour tour (greedy and Greedy) and
// GetRandomPD word for word; each is modelled once here.
module PdptwGenerate {
  import opened Utils
  import opened Instance
  import opened Schedule
  import opened Routes
  import opened PdptwSolution
  import opened Nearest

  /** The nodes 0..n-1 other than start, in increasing order: what the
      append loops of the strategies collect. */
  function Others(n: int, start: int): (s: seq<int>)
    ensures forall x :: x in s <==> 0 <= x < n && x != start
    ensures |s| == Max(n, 0) - (if 0 <= start < n then 1 else 0)
    decreases Max(n, 0)
  {
    if n <= 0 then [] else Others(n - 1, start) + (if n - 1 != start then [n - 1] else [])
  }

  /** None of the nodes of Others(n, start) repeats. */
  lemma {:induction false} OthersOnce(n: int, start: int)
    ensures forall x :: multiset(Others(n, start))[x] == if 0 <= x < n && x != start then 1 else 0
    decreases Max(n, 0)
  {
    if n > 0 {
      OthersOnce(n - 1, start);
      assert Others(n, start) == Others(n - 1, start) + (if n - 1 != start then [n - 1] else []);
      assert n - 1 !in Others(n - 1, start);
    }
  }

  /** r holds each node 0..n-1 exactly once and nothing else. */
  ghost predicate EachNodeOnce(r: seq<int>, n: int)
  {
    forall x :: multiset(r)[x] == if 0 <= x < n then 1 else 0
  }

  /** The start node followed by the others is each node once, of length n. */
  lemma {:induction false} StartThenOthers(r: seq<int>, n: int, start: int)
    requires 0 <= start < n && 0 < |r| && r[0] == start
    requires multiset(r[1..]) == multiset(Others(n, start))
    ensures EachNodeOnce(r, n) && |r| == n && Within(r, n)
  {
    OthersOnce(n, start);
    assert r == [r[0]] + r[1..];
    assert |r[1..]| == |Others(n, start)| by {
      assert |multiset(r[1..])| == |multiset(Others(n, start))|;
    }
    forall k | 0 <= k < |r| ensures 0 <= r[k] < n {
      assert r[k] in multiset(r);
    }
  }

  /** Every entry past position 0 of a shuffled copy keeps the multiset. */
  lemma {:induction false} TailMultiset(a: seq<int>, b: seq<int>)
    requires 0 < |a| && 0 < |b| && a[0] == b[0] && multiset(a) == multiset(b)
    ensures multiset(a[1..]) == multiset(b[1..])
  {
    assert a == [a[0]] + a[1..];
    assert b == [b[0]] + b[1..];
    assert multiset(a) == multiset{a[0]} + multiset(a[1..]);
    assert multiset(b) == multiset{b[0]} + multiset(b[1..]);
    forall x ensures multiset(a[1..])[x] == multiset(b[1..])[x] {
      assert multiset(a)[x] == multiset{a[0]}[x] + multiset(a[1..])[x];
      assert multiset(b)[x] == multiset{b[0]}[x] + multiset(b[1..])[x];
    }
  }

  /** The shuffle of the strategies: for i = 1, 2, … swap position i with
      a position drawn from [1, i] (rand.Intn(i) + 1), so position 0 never
      moves and the entries are only permuted. */
  method Shuffle(a: array<int>)
    modifies a
    ensures multiset(a[..]) == old(multiset(a[..]))
    ensures 0 < a.Length ==> a[0] == old(a[0]) && multiset(a[1..]) == old(multiset(a[1..]))
  {
    ghost var a0 := a[..];
    var i := 1;
    while i < a.Length
      invariant 1 <= i <= Max(a.Length, 1)
      invariant multiset(a[..]) == multiset(a0)
      invariant 0 < a.Length ==> a[0] == a0[0]
    {
      var draw := Random(0, i);
      var j := draw + 1;
      SwappedPerm(a[..], i, j);
      Change(a, i, j);
      i := i + 1;
    }
    if 0 < a.Length {
      TailMultiset(a[..], a0);
      assert a[..][1..] == a[1..] && a0[1..] == old(a[1..]);
    }
  }

  /** A fresh array holding r. */
  method FromSeq(r: seq<int>) returns (a: array<int>)
    ensures fresh(a) && a[..] == r
  {
    a := new int[|r|](k requires 0 <= k < |r| => r[k]);
  }

  /** The loop every getSolution of the random and sorting strategies
      runs: every node of 0..numNodes-1 but the start node, in increasing
      order. */
  method CollectOthers(tsp: Pdptw) returns (route: seq<int>)
    ensures route == Others(tsp.numNodes, tsp.startNode)
  {
    route := [];
    var i := 0;
    while i < tsp.numNodes
      invariant 0 <= i <= Max(tsp.numNodes, 0)
      invariant route == Others(i, tsp.startNode)
    {
      if i != tsp.startNode {
        route := route + [i];
      }
      i := i + 1;
    }
    if tsp.numNodes > 0 {
      assert i == tsp.numNodes;
    }
  }

  /** random.getSolution and GetRandom: the start node followed by every
      other node of 0..numNodes-1, shuffled at positions 1 and up. With a
      start node of the instance the route holds every node exactly once. */
  method GetRandom(tsp: Pdptw) returns (s: Solution)
    ensures fresh(s) && fresh(s.route) && s.tsp == tsp
    ensures 0 < s.route.Length && s.route[0] == tsp.startNode
    ensures multiset(s.route[1..]) == multiset(Others(tsp.numNodes, tsp.startNode))
    ensures 0 <= tsp.startNode < tsp.numNodes ==>
      EachNodeOnce(s.route[..], tsp.numNodes) && s.route.Length == tsp.numNodes
    ensures WellFormed(tsp) && 0 <= tsp.startNode < tsp.numNodes ==> s.Valid()
  {
    var others := CollectOthers(tsp);
    var route := [tsp.startNode] + others;
    var a := FromSeq(route);
    Shuffle(a);
    assert route[1..] == others;
    s := new Solution(tsp, a);
    if 0 <= tsp.startNode < tsp.numNodes {
      StartThenOthers(a[..], tsp.numNodes, tsp.startNode);
    }
  }

  /** The due date of node k (0 outside the instance). */
  function DueDate(p: Pdptw, k: int): int
  {
    if 0 <= k < |p.dueDate| then p.dueDate[k] else 0
  }

  /** A solution over the start node followed by an order of the other
      nodes. */
  method StartThen(tsp: Pdptw, sorted: seq<int>) returns (s: Solution)
    requires multiset(sorted) == multiset(Others(tsp.numNodes, tsp.startNode))
    ensures fresh(s) && fresh(s.route) && s.tsp == tsp
    ensures 0 < s.route.Length && s.route[0] == tsp.startNode && s.route[1..] == sorted
    ensures 0 <= tsp.startNode < tsp.numNodes ==>
      EachNodeOnce(s.route[..], tsp.numNodes) && s.route.Length == tsp.numNodes
    ensures WellFormed(tsp) && 0 <= tsp.startNode < tsp.numNodes ==> s.Valid()
  {
    var a := FromSeq([tsp.startNode] + sorted);
    assert a[1..] == sorted;
    s := new Solution(tsp, a);
    if 0 <= tsp.startNode < tsp.numNodes {
      StartThenOthers(a[..], tsp.numNodes, tsp.startNode);
    }
  }

  /** sortByDuedate.getSolution: the start node followed by the other
      nodes in non-decreasing due date. sort.Slice is not stable, so any
      order of equal due dates may come out. */
  method SortByDueDate(tsp: Pdptw) returns (s: Solution)
    requires WellFormed(tsp)
    ensures fresh(s) && fresh(s.route) && s.tsp == tsp
    ensures 0 < s.route.Length && s.route[0] == tsp.startNode
    ensures multiset(s.route[1..]) == multiset(Others(tsp.numNodes, tsp.startNode))
    ensures SortedBy(k => DueDate(tsp, k), s.route[1..])
    ensures 0 <= tsp.startNode < tsp.numNodes ==>
      EachNodeOnce(s.route[..], tsp.numNodes) && s.route.Length == tsp.numNodes && s.Valid()
  {
    var route := CollectOthers(tsp);
    var key := k => DueDate(tsp, k);
    var sorted := SortSlice(key, route);
    s := StartThen(tsp, sorted);
  }

  /** The sort key of sortByTW: the middle of node k's window, due date
      minus half the window, with Go's truncating division. */
  function MidWindow(p: Pdptw, k: int): int
    requires 0 <= k < |p.dueDate| && k < |p.readyTime|
  {
    p.dueDate[k] - GoDiv(p.dueDate[k] - p.readyTime[k], 2)
  }

  /** The middle of a window lies between its ends, whichever end is the
      larger (truncation rounds toward the due date). */
  lemma {:induction false} MidWindowInside(p: Pdptw, k: int)
    requires 0 <= k < |p.dueDate| && k < |p.readyTime|
    ensures p.readyTime[k] <= p.dueDate[k] ==> p.readyTime[k] <= MidWindow(p, k) <= p.dueDate[k]
    ensures p.dueDate[k] < p.readyTime[k] ==> p.dueDate[k] <= MidWindow(p, k) <= p.readyTime[k]
    ensures 2 * (p.dueDate[k] - MidWindow(p, k)) <= p.dueDate[k] - p.readyTime[k] + 1 || p.dueDate[k] < p.readyTime[k]
  {
    var w := p.dueDate[k] - p.readyTime[k];
    var h := GoDiv(w, 2);
    assert w >= 0 ==> h * 2 <= w < h * 2 + 2;
    assert w < 0 ==> h * 2 - 2 < w <= h * 2;
  }

  /** The window middle of every node the loop has visited, as the source's
      median map holds it. */
  ghost predicate MediansUpTo(tsp: Pdptw, median: map<int, int>, i: int)
    requires WellFormed(tsp) && i <= tsp.numNodes
  {
    forall k :: 0 <= k < i && k != tsp.startNode ==> k in median && median[k] == MidWindow(tsp, k)
  }

  /** The first loop of sortByTW: the other nodes and their window
      middles. */
  method CollectMedians(tsp: Pdptw) returns (route: seq<int>, median: map<int, int>)
    requires WellFormed(tsp)
    ensures route == Others(tsp.numNodes, tsp.startNode)
    ensures forall k :: k in route ==> k in median && median[k] == MidWindow(tsp, k)
  {
    route := [];
    median := map[];
    var i := 0;
    while i < tsp.numNodes
      invariant 0 <= i <= tsp.numNodes
      invariant route == Others(i, tsp.startNode)
      invariant MediansUpTo(tsp, median, i)
    {
      if i != tsp.startNode {
        route := route + [i];
        median := median[i := tsp.dueDate[i] - GoDiv(tsp.dueDate[i] - tsp.readyTime[i], 2)];
      }
      i := i + 1;
    }
  }

  /** Sorted by a key that is the window middle on the other nodes is
      sorted by the window middle. */
  lemma {:induction false} SortedByMiddle(tsp: Pdptw, key: int -> int, route: seq<int>, sorted: seq<int>)
    requires WellFormed(tsp) && route == Others(tsp.numNodes, tsp.startNode)
    requires forall k :: k in route ==> key(k) == MidWindow(tsp, k)
    requires multiset(sorted) == multiset(route) && SortedBy(key, sorted)
    ensures forall k :: 0 <= k < |sorted| ==> 0 <= sorted[k] < tsp.numNodes
    ensures forall a, b :: 0 <= a < b < |sorted| ==> MidWindow(tsp, sorted[a]) <= MidWindow(tsp, sorted[b])
  {
    forall k | 0 <= k < |sorted| ensures 0 <= sorted[k] < tsp.numNodes && key(sorted[k]) == MidWindow(tsp, sorted[k]) {
      assert sorted[k] in multiset(route);
    }
  }

  /** The two steps of sortByTW before the solution is built: collect the
      other nodes with their window middles, then sort.Slice them by the
      median map. */
  method OrderByMiddle(tsp: Pdptw) returns (sorted: seq<int>)
    requires WellFormed(tsp)
    ensures multiset(sorted) == multiset(Others(tsp.numNodes, tsp.startNode))
    ensures forall k :: 0 <= k < |sorted| ==> 0 <= sorted[k] < tsp.numNodes
    ensures forall a, b :: 0 <= a < b < |sorted| ==> MidWindow(tsp, sorted[a]) <= MidWindow(tsp, sorted[b])
  {
    var route, median := CollectMedians(tsp);
    var key := k => Get(median, k);
    sorted := SortSlice(key, route);
    assert forall k :: k in route ==> key(k) == MidWindow(tsp, k);
    SortedByMiddle(tsp, key, route, sorted);
  }

  /** sortByTW.getSolution: the start node followed by the other nodes in
      non-decreasing window middle (the median map); equal middles may come
      out in any order. */
  method SortByTW(tsp: Pdptw) returns (s: Solution)
    requires WellFormed(tsp)
    ensures fresh(s) && fresh(s.route) && s.tsp == tsp
    ensures 0 < s.route.Length && s.route[0] == tsp.startNode
    ensures multiset(s.route[1..]) == multiset(Others(tsp.numNodes, tsp.startNode))
    ensures forall k :: 1 <= k < s.route.Length ==> 0 <= s.route[k] < tsp.numNodes
    ensures forall a, b :: 1 <= a < b < s.route.Length ==>
      MidWindow(tsp, s.route[a]) <= MidWindow(tsp, s.route[b])
    ensures 0 <= tsp.startNode < tsp.numNodes ==>
      EachNodeOnce(s.route[..], tsp.numNodes) && s.route.Length == tsp.numNodes && s.Valid()
  {
    var sorted := OrderByMiddle(tsp);
    s := StartThen(tsp, sorted);
    forall x | 1 <= x < s.route.Length ensures s.route[x] == sorted[x - 1] {
      assert s.route[1..][x - 1] == s.route[x];
    }
  }

  /** The state of Greedy after `steps` greedy steps. */
  ghost predicate Building(tsp: Pdptw, best: Solution, steps: int)
    reads best, best.route
  {
    WellFormed(tsp) && best.tsp == tsp && (0 < tsp.numNodes ==> best.Valid()) && steps >= 0
    && best.route.Length == steps + 1 && best.route[0] == 0
    && Marked(best.nodes) == ValueSet(best.route[..])
    && NearestSteps(tsp.matrix, best.route[..], steps)
  }

  /** One pass of the loop of Greedy: append the unvisited node nearest to
      the node at position i. */
  method Step(tsp: Pdptw, best: Solution, i: int)
    requires 0 <= i < tsp.numNodes - 1 && Building(tsp, best, i)
    modifies best
    ensures Building(tsp, best, i + 1) && fresh(best.route)
  {
    var current := best.GetNode(i);
    var minIndex := NearestNode(tsp.matrix[current], best.nodes);
    ghost var r := best.route[..];
    NearestStepsAppend(tsp.matrix, r, minIndex);
    MarkedAdd(best.nodes, minIndex);
    best.AddNode(minIndex);
    ValueSetSnoc(r, minIndex);
  }

  /** The end of Greedy: return to node 0. */
  method Finish(tsp: Pdptw, best: Solution)
    requires Building(tsp, best, Max(tsp.numNodes - 1, 0))
    modifies best
    ensures best.tsp == tsp && fresh(best.route) && (0 < tsp.numNodes ==> best.Valid())
    ensures NearestTour(tsp.matrix, tsp.numNodes - 1, best.route[..])
    ensures Bounded(tsp.matrix) && 0 < tsp.numNodes ==>
      best.route.Length == tsp.numNodes + 1 && Distinct(best.route[..tsp.numNodes])
  {
    ghost var r := best.route[..];
    NearestStepsExtend(tsp.matrix, r, tsp.numNodes - 1, 0);
    best.AddNode(0);
    ghost var r' := best.route[..];
    assert r' == r + [0];
    assert r'[0] == 0 && r'[|r'| - 1] == 0;
    if 0 < tsp.numNodes {
      assert Within(r', tsp.numNodes);
    }
    if Bounded(tsp.matrix) && 0 < tsp.numNodes {
      NearestTourVisitsAll(tsp.matrix, r', tsp.numNodes - 1);
    }
  }

  /** greedy.getSolution and Greedy: from the route [0] (node 0, not the
      start node), numNodes-1 times append the unvisited node nearest to the
      node at the current step, then return to 0. The tour is the
      nearest-neighbour tour of the matrix of numNodes+1 positions, and when
      every distance is below MaxInt64 it visits every node once before the
      final 0. */
  method Greedy(tsp: Pdptw) returns (best: Solution)
    requires WellFormed(tsp)
    ensures fresh(best) && fresh(best.route) && best.tsp == tsp && (0 < tsp.numNodes ==> best.Valid())
    ensures NearestTour(tsp.matrix, tsp.numNodes - 1, best.route[..])
    ensures Bounded(tsp.matrix) && 0 < tsp.numNodes ==>
      best.route.Length == tsp.numNodes + 1 && Distinct(best.route[..tsp.numNodes])
  {
    var start := new int[1];
    start[0] := 0;
    best := new Solution(tsp, start);
    assert best.route[..] == [0];
    assert forall k :: k in Marked(best.nodes) <==> k == 0;
    ValueSetSnoc([], 0);
    assert best.route[..] == [] + [0];
    var i := 0;
    while i < tsp.numNodes - 1
      invariant 0 <= i <= Max(tsp.numNodes - 1, 0)
      invariant fresh(best) && Building(tsp, best, i)
    {
      Step(tsp, best, i);
      i := i + 1;
    }
    Finish(tsp, best);
  }

  /** The deliveries GetRandomPD collects: every node 0..n-1 with a
      precedence entry, in increasing order. */
  function Deliveries(p: Pdptw, n: int): (d: seq<int>)
    ensures forall x :: x in d <==> 0 <= x < n && x in p.precedence
    decreases Max(n, 0)
  {
    if n <= 0 then [] else Deliveries(p, n - 1) + (if n - 1 in p.precedence then [n - 1] else [])
  }

  /** The pickups GetRandomPD collects: the precedence entry of each
      delivery, position by position. */
  function Pickups(p: Pdptw, n: int): (q: seq<int>)
    ensures |q| == |Deliveries(p, n)|
    ensures forall k :: 0 <= k < |q| ==> Deliveries(p, n)[k] in p.precedence && q[k] == p.precedence[Deliveries(p, n)[k]]
    decreases Max(n, 0)
  {
    if n <= 0 then [] else Pickups(p, n - 1) + (if n - 1 in p.precedence then [p.precedence[n - 1]] else [])
  }

  /** Node i adds its delivery and its pickup when it has a precedence
      entry, and nothing otherwise. */
  lemma {:induction false} TasksStep(p: Pdptw, i: nat)
    ensures Deliveries(p, i + 1) == Deliveries(p, i) + (if i in p.precedence then [i] else [])
    ensures Pickups(p, i + 1) == Pickups(p, i) + (if i in p.precedence then [p.precedence[i]] else [])
  {
  }

  /** The loop of GetRandomPD: node 0 and the pickups, and the
      deliveries. */
  method CollectTasks(tsp: Pdptw) returns (r1: seq<int>, r2: seq<int>)
    ensures r1 == [0] + Pickups(tsp, tsp.numNodes) && r2 == Deliveries(tsp, tsp.numNodes)
  {
    r1 := [0];
    r2 := [];
    var tmp: map<int, bool> := map[];
    var i := 0;
    while i < tsp.numNodes
      invariant 0 <= i <= Max(tsp.numNodes, 0)
      invariant r1 == [0] + Pickups(tsp, i) && r2 == Deliveries(tsp, i)
    {
      TasksStep(tsp, i);
      if i in tsp.precedence {
        var value := tsp.precedence[i];
        r1 := r1 + [value];
        r2 := r2 + [i];
        tmp := tmp[i := true][tsp.precedence[i] := true];
      }
      i := i + 1;
    }
    if tsp.numNodes <= 0 {
      TasksNone(tsp, tsp.numNodes);
      TasksNone(tsp, i);
    } else {
      assert i == tsp.numNodes;
    }
  }

  /** Below node 1 there is nothing to collect. */
  lemma {:induction false} TasksNone(p: Pdptw, n: int)
    requires n <= 0
    ensures Deliveries(p, n) == [] && Pickups(p, n) == []
  {
  }

  /** GetRandomPD: node 0, the pickups shuffled at their positions 1 and up,
      then the deliveries shuffled the same way (so the first delivery stays
      first among them). Nodes without a precedence entry are left out. */
  method GetRandomPD(tsp: Pdptw) returns (s: Solution)
    ensures fresh(s) && fresh(s.route) && s.tsp == tsp
    ensures var d := Deliveries(tsp, tsp.numNodes);
      s.route.Length == 1 + 2 * |d| && s.route[0] == 0
      && multiset(s.route[1..1 + |d|]) == multiset(Pickups(tsp, tsp.numNodes))
      && multiset(s.route[1 + |d|..]) == multiset(d)
      && (0 < |d| ==> s.route[1 + |d|] == d[0])
  {
    var r1, r2 := CollectTasks(tsp);
    var a1 := FromSeq(r1);
    Shuffle(a1);
    var a2 := FromSeq(r2);
    Shuffle(a2);
    var joined := a1[..] + a2[..];
    var route := FromSeq(joined);
    assert route[1..1 + |r2|] == a1[1..];
    assert route[1 + |r2|..] == a2[..];
    assert r1[1..] == Pickups(tsp, tsp.numNodes);
    s := new Solution(tsp, route);
  }

  /** An entry of s[lo..hi] is an entry of s at a position of [lo, hi). */
  lemma {:induction false} InSlice(s: seq<int>, lo: int, hi: int, x: int) returns (l: int)
    requires 0 <= lo <= hi <= |s| && x in multiset(s[lo..hi])
    ensures lo <= l < hi && s[l] == x
  {
    assert x in s[lo..hi];
    var m :| 0 <= m < hi - lo && s[lo..hi][m] == x;
    l := lo + m;
  }

  /** Pickups before deliveries, on plain sequences: the entry at a
      delivery position q has its partner among positions 1..|d|. */
  lemma {:induction false} PartnerBefore(r: seq<int>, d: seq<int>, pk: seq<int>, prec: map<int, int>, q: int)
    requires |pk| == |d| && |r| == 1 + 2 * |d|
    requires forall k :: 0 <= k < |d| ==> d[k] in prec && pk[k] == prec[d[k]]
    requires multiset(r[1..1 + |d|]) == multiset(pk) && multiset(r[1 + |d|..]) == multiset(d)
    requires 1 + |d| <= q < |r|
    ensures r[q] in prec && prec[r[q]] in r[1..q + 1]
  {
    var m := 1 + |d|;
    var x := r[q];
    var t := InSlice(r, m, |r|, x) by {
      assert r[m..] == r[m..|r|];
      assert r[m..][q - m] == x;
    }
    assert x in multiset(d);
    var k :| 0 <= k < |d| && d[k] == x;
    assert pk[k] in multiset(pk);
    var l := InSlice(r, 1, m, pk[k]);
    assert r[1..q + 1][l - 1] == pk[k];
  }

  /** On a GetRandomPD route every delivery finds its pickup at a position
      after 0 and before it: IsFeasible's precedence test holds at every
      delivery position. */
  lemma {:induction false} DeliveriesSeePickups(tsp: Pdptw, r: seq<int>, d: seq<int>, pk: seq<int>, q: int)
    requires d == Deliveries(tsp, tsp.numNodes) && pk == Pickups(tsp, tsp.numNodes)
    requires |r| == 1 + 2 * |d| && multiset(r[1..1 + |d|]) == multiset(pk) && multiset(r[1 + |d|..]) == multiset(d)
    requires 1 + |d| <= q < |r|
    ensures r[q] in tsp.precedence && PredSeen(tsp, r, q)
  {
    PartnerBefore(r, d, pk, tsp.precedence, q);
  }
}
