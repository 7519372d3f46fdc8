// The route mutation operators. Every package of the solver repeats the same
// three loops on its route slice: relocation of one node ("exchange"), the
// swap of two positions ("change") and the reversal of a segment by the
// "median" swap loop (2-opt, kExchange, clearExchange). They are stated once
// here as functions on sequences and as in-place methods on arrays.
module Routes {
  import opened Utils
  import opened Instance
  import opened Schedule

  /** The node at pos moved to newPos; the nodes in between close the gap. */
  function Relocated(s: seq<int>, pos: int, newPos: int): (r: seq<int>)
    requires 0 <= pos < |s| && 0 <= newPos < |s|
    ensures |r| == |s| && multiset(r) == multiset(s)
  {
    if newPos > pos then
      var a, b, c := s[..pos], s[pos + 1..newPos + 1], s[newPos + 1..];
      assert s == a + [s[pos]] + b + c;
      SwapPieces(a, [s[pos]], b, c);
      a + b + [s[pos]] + c
    else
      var a, b, c := s[..newPos], s[newPos..pos], s[pos + 1..];
      assert s == a + b + [s[pos]] + c;
      SwapPieces(a, b, [s[pos]], c);
      a + [s[pos]] + b + c
  }

  /** Exchanging two adjacent pieces keeps the elements. */
  lemma {:induction false} SwapPieces(a: seq<int>, x: seq<int>, y: seq<int>, c: seq<int>)
    ensures multiset(a + x + y + c) == multiset(a + y + x + c)
  {
    calc {
      multiset(a + x + y + c);
      multiset(a + x + y) + multiset(c);
      multiset(a + x) + multiset(y) + multiset(c);
      multiset(a) + multiset(x) + multiset(y) + multiset(c);
      multiset(a + y) + multiset(x) + multiset(c);
      multiset(a + y + x) + multiset(c);
      multiset(a + y + x + c);
    }
  }

  /** Position by position: outside [min, max] nothing moves, the node lands
      on newPos and the nodes in between shift by one toward pos. */
  lemma {:induction false} RelocatedAt(s: seq<int>, pos: int, newPos: int, k: int)
    requires 0 <= pos < |s| && 0 <= newPos < |s| && 0 <= k < |s|
    ensures var r := Relocated(s, pos, newPos);
      r[k] == if k == newPos then s[pos]
              else if pos < k < newPos || (pos == k && pos < newPos) then s[k + 1]
              else if newPos < k <= pos then s[k - 1]
              else s[k]
  {
    if newPos > pos {
      RelocatedForwardAt(s, pos, newPos, k);
    } else {
      RelocatedBackwardAt(s, pos, newPos, k);
    }
  }

  lemma {:induction false} RelocatedForwardAt(s: seq<int>, pos: int, newPos: int, k: int)
    requires 0 <= pos < newPos < |s| && 0 <= k < |s|
    ensures var r := Relocated(s, pos, newPos);
      r[k] == if k == newPos then s[pos] else if pos <= k < newPos then s[k + 1] else s[k]
  {
    var a, b, c := s[..pos], s[pos + 1..newPos + 1], s[newPos + 1..];
    var r := a + b + [s[pos]] + c;
    assert Relocated(s, pos, newPos) == r;
    if k < pos {
      assert r[k] == a[k];
    } else if k < newPos {
      assert r[k] == b[k - pos];
    } else if k > newPos {
      assert r[k] == c[k - newPos - 1];
    }
  }

  lemma {:induction false} RelocatedBackwardAt(s: seq<int>, pos: int, newPos: int, k: int)
    requires 0 <= newPos <= pos < |s| && 0 <= k < |s|
    ensures var r := Relocated(s, pos, newPos);
      r[k] == if k == newPos then s[pos] else if newPos < k <= pos then s[k - 1] else s[k]
  {
    var a, b, c := s[..newPos], s[newPos..pos], s[pos + 1..];
    var r := a + [s[pos]] + b + c;
    assert Relocated(s, pos, newPos) == r;
    if k < newPos {
      assert r[k] == a[k];
    } else if newPos < k <= pos {
      assert r[k] == b[k - newPos - 1];
    } else if k > pos {
      assert r[k] == c[k - pos - 1];
    }
  }

  /** The undo step: moving the node back restores the route. */
  lemma {:induction false} RelocatedUndo(s: seq<int>, pos: int, newPos: int)
    requires 0 <= pos < |s| && 0 <= newPos < |s|
    ensures Relocated(Relocated(s, pos, newPos), newPos, pos) == s
  {
    var r := Relocated(s, pos, newPos);
    RelocatedFrom(s, pos, newPos);
    RelocatedFrom(r, newPos, pos);
    UndoPointwise(s, r, Relocated(r, newPos, pos), pos, newPos);
  }

  /** Every position of the relocated route holds the node of its source
      position. */
  lemma {:induction false} RelocatedFrom(s: seq<int>, pos: int, newPos: int)
    requires 0 <= pos < |s| && 0 <= newPos < |s|
    ensures forall k :: 0 <= k < |s| ==> Relocated(s, pos, newPos)[k] == s[RelocatedSource(pos, newPos, k)]
  {
    forall k | 0 <= k < |s| ensures Relocated(s, pos, newPos)[k] == s[RelocatedSource(pos, newPos, k)] {
      RelocatedAt(s, pos, newPos, k);
    }
  }

  /** The position of the original route that ends up at k. */
  function RelocatedSource(pos: int, newPos: int, k: int): int
  {
    if k == newPos then pos
    else if pos <= k < newPos then k + 1
    else if newPos < k <= pos then k - 1
    else k
  }

  lemma {:induction false} UndoPointwise(s: seq<int>, r: seq<int>, u: seq<int>, pos: int, newPos: int)
    requires 0 <= pos < |s| && 0 <= newPos < |s| && |r| == |s| && |u| == |s|
    requires forall k :: 0 <= k < |s| ==> r[k] == s[RelocatedSource(pos, newPos, k)]
    requires forall k :: 0 <= k < |s| ==> u[k] == r[RelocatedSource(newPos, pos, k)]
    ensures u == s
  {
    forall k | 0 <= k < |s| ensures u[k] == s[k] {
      assert u[k] == r[RelocatedSource(newPos, pos, k)];
    }
  }

  /** Moves among positions 1.. never touch the start node. */
  lemma {:induction false} RelocatedKeepsStart(s: seq<int>, pos: int, newPos: int)
    requires 1 <= pos < |s| && 1 <= newPos < |s|
    ensures Relocated(s, pos, newPos)[0] == s[0]
  {
    RelocatedAt(s, pos, newPos, 0);
  }

  /** Positions i and j exchanged. */
  function Swapped(s: seq<int>, i: int, j: int): (r: seq<int>)
    requires 0 <= i < |s| && 0 <= j < |s|
    ensures |r| == |s| && r[i] == s[j] && r[j] == s[i]
    ensures forall k :: 0 <= k < |s| && k != i && k != j ==> r[k] == s[k]
  {
    s[i := s[j]][j := s[i]]
  }

  /** Swapping two entries keeps every entry within lo..hi. */
  lemma {:induction false} SwappedBetween(s: seq<int>, i: int, j: int, lo: int, hi: int)
    requires 0 <= i < |s| && 0 <= j < |s|
    requires forall k :: 0 <= k < |s| ==> lo <= s[k] <= hi
    ensures forall k :: 0 <= k < |s| ==> lo <= Swapped(s, i, j)[k] <= hi
  {
    var r := Swapped(s, i, j);
    forall k | 0 <= k < |s| ensures lo <= r[k] <= hi {
      if k == i {
        assert r[k] == s[j];
      } else if k == j {
        assert r[k] == s[i];
      } else {
        assert r[k] == s[k];
      }
    }
  }

  lemma {:induction false} SwappedPerm(s: seq<int>, i: int, j: int)
    requires 0 <= i < |s| && 0 <= j < |s|
    ensures multiset(Swapped(s, i, j)) == multiset(s)
    ensures Swapped(Swapped(s, i, j), i, j) == s
  {
    var t := s[i := s[j]];
    assert multiset(t) == multiset(s) - multiset{s[i]} + multiset{s[j]};
    assert multiset(t[j := s[i]]) == multiset(t) - multiset{t[j]} + multiset{s[i]};
  }

  /** Segment s[start..end] (inclusive) reversed; start > end leaves s as it is. */
  function ReversedSpan(s: seq<int>, start: int, end: int): (r: seq<int>)
    requires start <= end ==> 0 <= start && end < |s|
    ensures |r| == |s|
  {
    seq(|s|, k requires 0 <= k < |s| => if start <= k <= end then s[start + end - k] else s[k])
  }

  /** The reversal is a chain of swaps of the outermost pair, so the route
      stays a permutation. */
  lemma {:induction false} ReversedSpanPerm(s: seq<int>, start: int, end: int)
    requires start <= end ==> 0 <= start && end < |s|
    ensures multiset(ReversedSpan(s, start, end)) == multiset(s)
    decreases end - start
  {
    if start < end {
      var t := Swapped(s, start, end);
      SwappedPerm(s, start, end);
      ReversedSpanPerm(t, start + 1, end - 1);
      ReversedSpanPeel(s, start, end);
    } else {
      ReversedSpanShort(s, start, end);
    }
  }

  /** Reversing s[start..end] is swapping its ends, then reversing the inside. */
  lemma {:induction false} ReversedSpanPeel(s: seq<int>, start: int, end: int)
    requires 0 <= start < end < |s|
    ensures ReversedSpan(Swapped(s, start, end), start + 1, end - 1) == ReversedSpan(s, start, end)
  {
    var t := Swapped(s, start, end);
    var u := ReversedSpan(t, start + 1, end - 1);
    var v := ReversedSpan(s, start, end);
    forall k | 0 <= k < |s| ensures u[k] == v[k] {
      if start + 1 <= k <= end - 1 {
        assert u[k] == t[start + end - k];
      } else {
        assert u[k] == t[k];
      }
    }
  }

  /** A segment of at most one position stays as it is. */
  lemma {:induction false} ReversedSpanShort(s: seq<int>, start: int, end: int)
    requires start <= end ==> 0 <= start && end < |s|
    requires end <= start
    ensures ReversedSpan(s, start, end) == s
  {
    var v := ReversedSpan(s, start, end);
    forall k | 0 <= k < |s| ensures v[k] == s[k] {
    }
  }

  /** Reversing the same segment twice restores the route. */
  lemma {:induction false} ReversedSpanTwice(s: seq<int>, start: int, end: int)
    requires start <= end ==> 0 <= start && end < |s|
    ensures ReversedSpan(ReversedSpan(s, start, end), start, end) == s
  {
  }

  /** exchange(pos, newPos) in place. */
  method Exchange(a: array<int>, pos: int, newPos: int)
    requires 0 <= pos < a.Length && 0 <= newPos < a.Length
    modifies a
    ensures a[..] == Relocated(old(a[..]), pos, newPos)
  {
    ghost var s := a[..];
    var node := a[pos];
    if newPos > pos {
      var i := pos;
      while i < newPos
        invariant pos <= i <= newPos
        invariant forall k :: 0 <= k < a.Length && (k < pos || k >= i) ==> a[k] == s[k]
        invariant forall k :: pos <= k < i ==> a[k] == s[k + 1]
      {
        a[i] := a[i + 1];
        i := i + 1;
      }
    } else {
      var i := pos;
      while i > newPos
        invariant newPos <= i <= pos
        invariant forall k :: 0 <= k < a.Length && (k > pos || k <= i) ==> a[k] == s[k]
        invariant forall k :: i < k <= pos ==> a[k] == s[k - 1]
      {
        a[i] := a[i - 1];
        i := i - 1;
      }
    }
    a[newPos] := node;
    forall k | 0 <= k < a.Length ensures a[k] == Relocated(s, pos, newPos)[k] {
      RelocatedAt(s, pos, newPos, k);
    }
  }

  /** change(i, j): the swap of two positions. */
  method Change(a: array<int>, i: int, j: int)
    requires 0 <= i < a.Length && 0 <= j < a.Length
    modifies a
    ensures a[..] == Swapped(old(a[..]), i, j)
  {
    a[i], a[j] := a[j], a[i];
  }

  /** The last position the median swap loop writes from the front: Go's
      truncating division, so a segment with end < start is never touched. */
  function Median(start: int, end: int): int
  {
    GoDiv(end - start + 1, 2) + start - 1
  }

  /** The median swap loop on r after the steps start..i-1: the first and
      the last i - start positions of the segment hold their mirrors. */
  ghost predicate MirroredUpTo(u: seq<int>, r: seq<int>, start: int, end: int, i: int)
    requires start <= end ==> 0 <= start && end < |r|
  {
    |u| == |r|
    && forall k {:trigger u[k]} :: 0 <= k < |u| ==>
         u[k] == if start <= k <= end && (k < i || end - (i - start) < k) then r[start + end - k] else r[k]
  }

  lemma {:induction false} MirroredStep(u: seq<int>, r: seq<int>, start: int, end: int, i: int)
    requires 0 <= start <= i <= Median(start, end) && end < |r|
    requires MirroredUpTo(u, r, start, end, i)
    ensures var j := end - (i - start);
      i < j && MirroredUpTo(u[i := u[j]][j := u[i]], r, start, end, i + 1)
  {
    var j := end - (i - start);
    var u' := u[i := u[j]][j := u[i]];
    forall k | 0 <= k < |u'|
      ensures u'[k] == if start <= k <= end && (k < i + 1 || end - (i + 1 - start) < k) then r[start + end - k] else r[k]
    {
      if k != i && k != j {
        assert u'[k] == u[k];
      }
    }
  }

  lemma {:induction false} MirroredFull(u: seq<int>, r: seq<int>, start: int, end: int)
    requires start <= end ==> 0 <= start && end < |r|
    requires MirroredUpTo(u, r, start, end, if start <= end then Median(start, end) + 1 else start)
    ensures u == ReversedSpan(r, start, end)
  {
    var v := ReversedSpan(r, start, end);
    forall k | 0 <= k < |u| ensures u[k] == v[k] {
    }
  }

  /** The median swap loop: for i from start up to the median, swap with the
      mirror position end - (i - start). */
  method ReverseSpan(a: array<int>, start: int, end: int)
    requires start <= end ==> 0 <= start && end < a.Length
    modifies a
    ensures a[..] == ReversedSpan(old(a[..]), start, end)
  {
    ghost var r := a[..];
    var median := GoDiv(end - start + 1, 2) + start - 1;
    var i := start;
    while i <= median
      invariant start <= end ==> start <= i <= median + 1 && median == Median(start, end)
      invariant start > end ==> i == start
      invariant MirroredUpTo(a[..], r, start, end, i)
    {
      var j := end - (i - start);
      ghost var u := a[..];
      MirroredStep(u, r, start, end, i);
      a[i], a[j] := a[j], a[i];
      assert a[..] == u[i := u[j]][j := u[i]];
      i := i + 1;
    }
    MirroredFull(a[..], r, start, end);
  }

  /** append(route, x): a fresh array holding the route and then x. */
  method Appended(a: array<int>, x: int) returns (b: array<int>)
    ensures fresh(b) && b[..] == a[..] + [x]
  {
    b := new int[a.Length + 1];
    var i := 0;
    while i < a.Length
      invariant 0 <= i <= a.Length
      invariant forall k :: 0 <= k < i ==> b[k] == a[k]
    {
      b[i] := a[i];
      i := i + 1;
    }
    b[a.Length] := x;
    assert b[..] == a[..] + [x];
  }

  /** route[:n] copied into a fresh array. */
  method Prefix(a: array<int>, n: int) returns (b: array<int>)
    requires 0 <= n <= a.Length
    ensures fresh(b) && b[..] == a[..n]
  {
    b := new int[n];
    var i := 0;
    while i < n
      invariant 0 <= i <= n
      invariant forall k :: 0 <= k < i ==> b[k] == a[k]
    {
      b[i] := a[i];
      i := i + 1;
    }
    assert b[..] == a[..n];
  }

  /** The backward search of the precedence tests (core Penalty, pdptw
      IsFeasible): is value among positions i down to 1? */
  method SearchBack(a: array<int>, i: int, value: int) returns (hasNode: bool)
    requires 1 <= i < a.Length
    ensures hasNode <==> value in a[1..i + 1]
  {
    ghost var r := a[..];
    var j := i;
    while j > 0
      invariant 0 <= j <= i
      invariant value !in r[j + 1..i + 1]
    {
      if value == a[j] {
        assert r[1..i + 1][j - 1] == value;
        return true;
      }
      assert r[j..i + 1] == [r[j]] + r[j + 1..i + 1];
      j := j - 1;
    }
    return false;
  }

  /** The forward search of pdptw getSet: is value among positions i.. of
      the route? */
  method SearchFrom(a: array<int>, i: int, value: int) returns (hasNode: bool)
    requires 0 <= i <= a.Length
    ensures hasNode <==> value in a[i..]
  {
    ghost var r := a[..];
    var j := i;
    while j < a.Length
      invariant i <= j <= a.Length
      invariant value !in r[i..j]
    {
      if value == a[j] {
        assert r[i..][j - i] == value;
        return true;
      }
      assert r[i..j + 1] == r[i..j] + [r[j]];
      j := j + 1;
    }
    assert r[i..j] == r[i..];
    return false;
  }

  /** No node occurs twice. */
  ghost predicate Distinct(r: seq<int>)
  {
    forall i, j :: 0 <= i < j < |r| ==> r[i] != r[j]
  }

  /** The set of nodes a route visits (Check builds it as a map of keys). */
  function ValueSet(r: seq<int>): set<int>
  {
    set x | x in r
  }

  /** Appending x adds x to the values. */
  lemma {:induction false} ValueSetSnoc(r: seq<int>, x: int)
    ensures ValueSet(r + [x]) == ValueSet(r) + {x}
  {
    assert forall y :: y in r + [x] <==> y in r || y == x;
  }

  /** Check's duplicate test: the visited set is as large as the route
      exactly when no node repeats. */
  lemma {:induction false} DistinctIffFullSet(r: seq<int>)
    ensures |ValueSet(r)| <= |r|
    ensures |ValueSet(r)| == |r| <==> Distinct(r)
  {
    if r != [] {
      var r' := r[..|r| - 1];
      var x := r[|r| - 1];
      DistinctIffFullSet(r');
      assert r == r' + [x];
      if x in r' {
        SnocRepeated(r', x);
      } else {
        SnocFresh(r', x);
      }
    }
  }

  /** Appending a node already on the route adds nothing to the visited set
      and makes the route repeat a node. */
  lemma {:induction false} SnocRepeated(r: seq<int>, x: int)
    requires x in r
    ensures ValueSet(r + [x]) == ValueSet(r) && !Distinct(r + [x])
  {
    var j :| 0 <= j < |r| && r[j] == x;
    assert (r + [x])[j] == (r + [x])[|r|];
  }

  /** Appending a new node adds it to the visited set and keeps the route
      free of repeats exactly when it was. */
  lemma {:induction false} SnocFresh(r: seq<int>, x: int)
    requires x !in r
    ensures ValueSet(r + [x]) == ValueSet(r) + {x} && x !in ValueSet(r)
    ensures Distinct(r + [x]) <==> Distinct(r)
  {
    var s := r + [x];
    if Distinct(r) {
      forall i, j | 0 <= i < j < |s| ensures s[i] != s[j] {
        if j == |r| {
          assert s[i] == r[i] && r[i] in r;
        } else {
          assert s[i] == r[i] && s[j] == r[j];
        }
      }
    }
    if Distinct(s) {
      forall i, j | 0 <= i < j < |r| ensures r[i] != r[j] {
        assert s[i] == r[i] && s[j] == r[j];
      }
    }
  }

  /** A permutation of a route over n nodes stays over n nodes. */
  lemma {:induction false} MultisetWithin(s: seq<int>, t: seq<int>, n: int)
    requires Within(s, n) && multiset(s) == multiset(t)
    ensures Within(t, n)
  {
    forall k | 0 <= k < |t| ensures 0 <= t[k] < n {
      assert t[k] in multiset(s);
      var j :| 0 <= j < |s| && s[j] == t[k];
    }
  }

  /** Reversing a segment of a route over n nodes keeps it over n nodes. */
  lemma {:induction false} ReversedWithin(r: seq<int>, start: int, end: int, n: int)
    requires Within(r, n) && 0 <= start <= end < |r|
    ensures Within(ReversedSpan(r, start, end), n)
  {
    var r' := ReversedSpan(r, start, end);
    forall k | 0 <= k < |r'| ensures 0 <= r'[k] < n {
      if start <= k <= end {
        assert r'[k] == r[start + end - k];
      }
    }
  }

  /** The same nodes, the same number of times, with the same start node:
      what every move among positions 1.. keeps. */
  ghost predicate SameNodes(r: seq<int>, r0: seq<int>)
  {
    |r| == |r0| && multiset(r) == multiset(r0) && (0 < |r| ==> r[0] == r0[0])
  }

  lemma {:induction false} RelocatedSameNodes(r: seq<int>, r0: seq<int>, pos: int, newPos: int, n: int)
    requires SameNodes(r, r0) && Within(r, n) && 1 <= pos < |r| && 1 <= newPos < |r|
    ensures SameNodes(Relocated(r, pos, newPos), r0) && Within(Relocated(r, pos, newPos), n)
  {
    RelocatedKeepsStart(r, pos, newPos);
    MultisetWithin(r, Relocated(r, pos, newPos), n);
  }

  /** Reversing a segment that starts at position 1 or later keeps the nodes
      and the start node. */
  lemma {:induction false} ReversedSameNodes(r: seq<int>, r0: seq<int>, start: int, end: int, n: int)
    requires SameNodes(r, r0) && Within(r, n) && 1 <= start <= end < |r|
    ensures SameNodes(ReversedSpan(r, start, end), r0) && Within(ReversedSpan(r, start, end), n)
  {
    ReversedSpanPerm(r, start, end);
    MultisetWithin(r, ReversedSpan(r, start, end), n);
  }

  /** s is in non-decreasing key order. */
  predicate SortedBy(key: int -> int, s: seq<int>)
  {
    forall a, b :: 0 <= a < b < |s| ==> key(s[a]) <= key(s[b])
  }

  /** x placed in front of the first element of a larger key. */
  ghost function Insert(key: int -> int, x: int, s: seq<int>): (r: seq<int>)
    requires SortedBy(key, s)
    ensures multiset(r) == multiset(s) + multiset{x} && SortedBy(key, r)
  {
    if |s| == 0 then [x]
    else if key(x) <= key(s[0]) then
      ConsSorted(key, x, s);
      [x] + s
    else
      var rest := Insert(key, x, s[1..]);
      assert s == [s[0]] + s[1..];
      HeadBelowRest(key, s, x, rest);
      ConsSorted(key, s[0], rest);
      [s[0]] + rest
  }

  /** A head no larger than every element of a sorted tail gives a sorted
      sequence. */
  lemma {:induction false} ConsSorted(key: int -> int, h: int, s: seq<int>)
    requires SortedBy(key, s)
    requires |s| == 0 || key(h) <= key(s[0])
    ensures SortedBy(key, [h] + s)
  {
    var r := [h] + s;
    forall a, b | 0 <= a < b < |r| ensures key(r[a]) <= key(r[b]) {
      if a == 0 {
        assert r[b] == s[b - 1];
        if b > 1 {
          assert key(s[0]) <= key(s[b - 1]);
        }
      } else {
        assert r[a] == s[a - 1] && r[b] == s[b - 1];
      }
    }
  }

  /** The head of a sorted s is no larger than x or than anything in s[1..],
      hence than anything in a reordering of s[1..] with x. */
  lemma {:induction false} HeadBelowRest(key: int -> int, s: seq<int>, x: int, rest: seq<int>)
    requires SortedBy(key, s) && 0 < |s| && key(s[0]) < key(x)
    requires multiset(rest) == multiset(s[1..]) + multiset{x}
    ensures |rest| == 0 || key(s[0]) <= key(rest[0])
  {
    if 0 < |rest| && rest[0] != x {
      assert rest[0] in multiset(rest);
      assert rest[0] in multiset(s[1..]);
      var m :| 0 <= m < |s[1..]| && s[1..][m] == rest[0];
      assert s[m + 1] == rest[0];
    }
  }

  /** Some key order of every sequence exists (what sort.Slice and sort.Sort pick one of). */
  ghost function SortBy(key: int -> int, s: seq<int>): (r: seq<int>)
    ensures multiset(r) == multiset(s) && SortedBy(key, r)
  {
    if |s| == 0 then []
    else
      assert s == [s[0]] + s[1..];
      Insert(key, s[0], SortBy(key, s[1..]))
  }

  /** sort.Slice / sort.Sort: some sorted permutation of s. Neither is
      stable, so which order of equal keys comes out is left open. */
  method SortSlice(key: int -> int, s: seq<int>) returns (sorted: seq<int>)
    ensures multiset(sorted) == multiset(s) && SortedBy(key, sorted)
  {
    ghost var order := SortBy(key, s);
    sorted :| multiset(sorted) == multiset(s) && SortedBy(key, sorted);
  }

  /** Two keys that agree on the entries of s order s alike. */
  lemma {:induction false} SortedByAgree(k1: int -> int, k2: int -> int, s: seq<int>)
    requires forall i :: 0 <= i < |s| ==> k1(s[i]) == k2(s[i])
    requires SortedBy(k1, s)
    ensures SortedBy(k2, s)
  {
  }
}
