// pdp/random.go: the random start route of the pdp package: depot 0 first,
// a random order of the nodes 2..numNodes-1, then node 1 last.
module PdpRandom {
  import opened Utils
  import opened Schedule
  import opened PdpSolution

  /** s with d added to every entry. */
  function Shifted(s: seq<int>, d: int): (r: seq<int>)
    ensures |r| == |s| && forall k :: 0 <= k < |s| ==> r[k] == s[k] + d
  {
    seq(|s|, k requires 0 <= k < |s| => s[k] + d)
  }

  /** Adding d to every entry moves every count by d. */
  lemma {:induction false} ShiftedCounts(s: seq<int>, d: int)
    ensures forall x :: multiset(Shifted(s, d))[x] == multiset(s)[x - d]
    decreases |s|
  {
    if |s| > 0 {
      var t := s[..|s| - 1];
      ShiftedCounts(t, d);
      assert s == t + [s[|s| - 1]];
      assert Shifted(s, d) == Shifted(t, d) + [s[|s| - 1] + d];
    } else {
      assert Shifted(s, d) == [];
    }
  }

  /** The route GetRandom builds from a permutation of 0..numNodes-3. */
  function RouteOf(perm: seq<int>): seq<int>
  {
    [0] + Shifted(perm, 2) + [1]
  }

  /** Each of 0..n-3 once, shifted by 2 and framed by 0 and 1: each of
      0..n-1 once. */
  lemma {:induction false} RouteOfEachOnce(perm: seq<int>, n: int)
    requires 2 <= n && EachOnce(perm, 0, n - 2)
    ensures EachOnce(RouteOf(perm), 0, n)
  {
    ShiftedCounts(perm, 2);
    var r := RouteOf(perm);
    assert multiset(r) == multiset{0} + multiset(Shifted(perm, 2)) + multiset{1};
  }

  /** rand.Perm(n): some order of 0..n-1. */
  method Perm(n: int) returns (list: array<int>)
    requires 0 <= n
    ensures fresh(list) && list.Length == n && EachOnce(list[..], 0, n)
  {
    var indices := Range(n);
    var perm :| multiset(perm) == multiset(indices);
    PermutationOfRange(perm, n);
    list := new int[n](k requires 0 <= k < n => perm[k]);
    assert list[..] == perm;
  }

  /** GetRandom: [0] + (a random order of 2..numNodes-1) + [1]. numNodes
      must be at least 2, or rand.Perm panics. */
  method GetRandom(tsp: Pdp) returns (s: Solution)
    requires 2 <= tsp.numNodes
    ensures fresh(s) && fresh(s.route) && s.tsp == tsp
    ensures s.route.Length == tsp.numNodes && s.route[0] == 0 && s.route[tsp.numNodes - 1] == 1
    ensures EachOnce(s.route[..], 0, tsp.numNodes)
    ensures EachOnce(s.route[1..tsp.numNodes - 1], 2, tsp.numNodes)
    ensures WellFormed(tsp) ==> s.Valid()
  {
    var list := Perm(tsp.numNodes - 2);
    ghost var perm := list[..];
    var i := 0;
    while i < list.Length
      invariant 0 <= i <= list.Length
      invariant forall k :: 0 <= k < i ==> list[k] == perm[k] + 2
      invariant forall k :: i <= k < list.Length ==> list[k] == perm[k]
    {
      list[i] := list[i] + 2;
      i := i + 1;
    }
    assert list[..] == Shifted(perm, 2);
    var route := [0] + list[..] + [1];
    RouteOfEachOnce(perm, tsp.numNodes);
    EachOnceWithin(route, tsp.numNodes);
    ShiftedCounts(perm, 2);
    assert route[1..tsp.numNodes - 1] == Shifted(perm, 2);
    var a := new int[|route|](k requires 0 <= k < |route| => route[k]);
    assert a[..] == route;
    s := new Solution(tsp, a);
  }

  /** GetWellRandom: exactly GetRandom. */
  method GetWellRandom(tsp: Pdp) returns (s: Solution)
    requires 2 <= tsp.numNodes
    ensures fresh(s) && fresh(s.route) && s.tsp == tsp
    ensures s.route.Length == tsp.numNodes && s.route[0] == 0 && s.route[tsp.numNodes - 1] == 1
    ensures EachOnce(s.route[..], 0, tsp.numNodes)
    ensures EachOnce(s.route[1..tsp.numNodes - 1], 2, tsp.numNodes)
    ensures WellFormed(tsp) ==> s.Valid()
  {
    s := GetRandom(tsp);
  }
}
