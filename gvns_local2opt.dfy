// gvns/local2opt.go: 2-opt over a route of the TSP with time windows. A
// cache inc holds the clock on reaching every position; a move reverses
// route[i+1..j], is tested against the cache for due dates by isFeasible and,
// when applied, the cache is redone from position i on, stopping early once
// the new clock meets the cached one.
module GvnsLocal2Opt {
  import opened Utils
  import opened Schedule
  import opened Routes
  import opened GvnsTsp
  import opened GvnsSolution
  import Instance

  /** The clock from time 0 on reaching position k: wait at the previous
      node for its ready time, then travel (what inc caches). */
  function Clock(t: Tsp, r: seq<int>, k: nat): int
    requires RouteOk(t, r) && k < |r|
  {
    TimeAt(t.matrix, t.readyTime, r, 0, k)
  }

  /** inc[k] is the clock on reaching position k+1, for every edge k of the
      first numNodes positions. */
  ghost predicate IncFollows(t: Tsp, r: seq<int>, inc: seq<int>)
    requires RouteOk(t, r) && t.numNodes <= |r|
  {
    |inc| >= t.numNodes - 1
    && forall k :: 0 <= k < t.numNodes - 1 ==> inc[k] == Clock(t, r, k + 1)
  }

  /** Position k is reached, before any wait, by the due date of its node:
      the test every branch of isFeasible makes. */
  ghost predicate Reached(t: Tsp, r: seq<int>, k: nat)
    requires RouteOk(t, r) && k < |r|
  {
    Clock(t, r, k) <= t.dueDate[r[k]]
  }

  /** Every position lo..hi-1 is Reached. */
  ghost predicate ReachedBetween(t: Tsp, r: seq<int>, lo: nat, hi: int)
    requires RouteOk(t, r) && hi <= |r|
  {
    forall k :: lo <= k < hi ==> Reached(t, r, k)
  }

  /** Ranges of Reached positions join and split at any midpoint. */
  lemma {:induction false} ReachedSplit(t: Tsp, r: seq<int>, lo: nat, mid: int, hi: int)
    requires RouteOk(t, r) && lo <= mid <= hi <= |r|
    ensures ReachedBetween(t, r, lo, hi) <==> ReachedBetween(t, r, lo, mid) && ReachedBetween(t, r, mid, hi)
  {
  }

  /** A range of one position is that position. */
  lemma {:induction false} ReachedOne(t: Tsp, r: seq<int>, k: nat)
    requires RouteOk(t, r) && k < |r|
    ensures ReachedBetween(t, r, k, k + 1) <==> Reached(t, r, k)
  {
    if Reached(t, r, k) {
      forall x | k <= x < k + 1 ensures Reached(t, r, x) {
        assert x == k;
      }
    }
  }

  /** The reversed route position by position: the prefix up to i and the
      suffix after j stay, position q of the segment holds r[i+1+j-q]. */
  lemma {:induction false} ReversedView(t: Tsp, r: seq<int>, i: int, j: int) returns (rr: seq<int>)
    requires RouteOk(t, r) && 0 <= i && i + 1 <= j < |r|
    ensures rr == ReversedSpan(r, i + 1, j) && RouteOk(t, rr) && |rr| == |r|
    ensures forall l :: 0 <= l <= i ==> rr[l] == r[l]
    ensures forall q :: i + 1 <= q <= j ==> rr[q] == r[i + 1 + j - q]
    ensures forall x :: j < x < |r| ==> rr[x] == r[x]
  {
    ReversedWithin(r, i + 1, j, t.numNodes);
    rr := ReversedSpan(r, i + 1, j);
  }

  /** Routes that agree up to position k share the clock there. */
  lemma {:induction false} ClockPrefix(t: Tsp, r: seq<int>, rr: seq<int>, k: nat)
    requires RouteOk(t, r) && RouteOk(t, rr) && k < |r| && k < |rr|
    requires forall l :: 0 <= l <= k ==> r[l] == rr[l]
    ensures Clock(t, r, k) == Clock(t, rr, k)
  {
    TimeAtPrefix(t.matrix, t.readyTime, r, rr, 0, k);
  }

  /** Routes that agree from k0 on and share the clock at k0 share it at
      every later position: the ground of exchange's early exit. */
  lemma {:induction false} ClockAgrees(t: Tsp, r: seq<int>, rr: seq<int>, k0: nat, k: nat)
    requires RouteOk(t, r) && RouteOk(t, rr) && |r| == |rr| && k0 <= k < |r|
    requires forall x :: k0 <= x < |r| ==> rr[x] == r[x]
    requires Clock(t, rr, k0) == Clock(t, r, k0)
    ensures Clock(t, rr, k) == Clock(t, r, k)
  {
    ClockCatchesUp(t.matrix, t.readyTime, r, rr, 0, k0, k);
    ClockCatchesUp(t.matrix, t.readyTime, rr, r, 0, k0, k);
  }

  /** A reversal that isFeasible accepts keeps every window of the first
      numNodes positions: the positions up to i keep their clock, the later
      ones passed the test. */
  lemma {:induction false} MoveKeepsWindows(t: Tsp, r: seq<int>, i: int, j: int)
    requires RouteOk(t, r) && 1 <= i && i + 1 <= j < t.numNodes <= |r|
    requires ReachedBetween(t, r, 1, t.numNodes)
    requires ReachedBetween(t, ReversedSpan(r, i + 1, j), i + 1, t.numNodes)
    ensures ReachedBetween(t, ReversedSpan(r, i + 1, j), 1, t.numNodes)
  {
    var rr := ReversedView(t, r, i, j);
    forall q | 1 <= q <= i ensures Reached(t, rr, q) {
      assert Reached(t, r, q);
      ClockPrefix(t, r, rr, q);
    }
  }

  /** 2-opt's view of a route is the one IsFeasible checks: when the depot
      is ready at time 0 and no node's window closes before it opens,
      reaching every position by its due date before waiting is the same as
      being feasible. */
  lemma {:induction false} ReachedIffFeasible(t: Tsp, r: seq<int>)
    requires RouteOk(t, r) && 0 < |r| && t.readyTime[r[0]] <= 0
    requires forall x :: 0 <= x < t.numNodes ==> t.readyTime[x] <= t.dueDate[x]
    ensures ReachedBetween(t, r, 1, |r|) <==> Feasible(t, r)
  {
    forall k | 1 <= k < |r| ensures Reached(t, r, k) <==> OnTime(t, r, k) {
      ArriveIsWaitedTime(t.matrix, t.readyTime, r, 0, k);
    }
  }

  /** Routes that agree from k0 on, the new one no later at k0: every
      position after k0 the old route reached in time, the new one reaches
      too. */
  lemma {:induction false} TailCatchesUp(t: Tsp, r: seq<int>, rr: seq<int>, k0: nat)
    requires RouteOk(t, r) && RouteOk(t, rr) && |r| == |rr| && k0 < |r|
    requires forall x :: k0 <= x < |r| ==> rr[x] == r[x]
    requires Clock(t, rr, k0) <= Clock(t, r, k0)
    ensures forall k :: k0 < k < |r| && Reached(t, r, k) ==> Reached(t, rr, k)
  {
    forall k | k0 < k < |r| && Reached(t, r, k) ensures Reached(t, rr, k) {
      ClockCatchesUp(t.matrix, t.readyTime, r, rr, 0, k0, k);
    }
  }

  class Local2Opt {
    var inc: array<int>

    constructor (inc: array<int>)
      ensures this.inc == inc
    {
      this.inc := inc;
    }

    /** What process works with: a cache apart from the route, as long as
        the first numNodes positions need. */
    ghost predicate Ready(s: Solution)
      reads this, s, s.route
    {
      s.Valid() && s.tsp.numNodes <= s.route.Length && inc != s.route && inc.Length >= s.tsp.numNodes - 1
    }

    /** The cache holds the clock of the route. */
    ghost predicate Follows(s: Solution)
      reads this, inc, s, s.route
    {
      Ready(s) && IncFollows(s.tsp, s.route[..], inc[..])
    }

    /** calcInc: the clock from time 0 along the first numNodes positions. */
    method CalcInc(s: Solution)
      requires Ready(s)
      modifies inc
      ensures Follows(s)
    {
      ghost var r := s.route[..];
      var sum := 0;
      var i := 0;
      while i < s.tsp.numNodes - 1
        invariant 0 <= i <= Max(s.tsp.numNodes - 1, 0) && s.route[..] == r
        invariant i < |r| ==> sum == Clock(s.tsp, r, i)
        invariant forall k :: 0 <= k < i ==> inc[k] == Clock(s.tsp, r, k + 1)
      {
        var ni := s.route[i];
        var next := s.route[i + 1];
        if s.tsp.readyTime[ni] > sum {
          sum := s.tsp.readyTime[ni];
        }
        sum := sum + s.tsp.matrix[ni][next];
        inc[i] := sum;
        i := i + 1;
      }
    }

    /** exchange(s, iaux, jaux): reverse route[iaux+1..jaux] by the median
        loop, redo inc for the edges iaux-1..jaux-1 from the cached clock at
        iaux-1, then carry on along the tail until the new clock equals the
        cached one. A cache that followed the route follows the new route. */
    method Exchange(s: Solution, iaux: int, jaux: int)
      requires Follows(s) && 1 <= iaux < jaux < s.tsp.numNodes
      modifies s.route, inc
      ensures s.route[..] == ReversedSpan(old(s.route[..]), iaux + 1, jaux)
      ensures Follows(s)
    {
      ghost var r := s.route[..];
      ReverseSpan(s.route, iaux + 1, jaux);
      ghost var rr := ReversedView(s.tsp, r, iaux, jaux);
      var sum := 0;
      if iaux > 1 {
        sum := inc[iaux - 2];
      }
      ClockPrefix(s.tsp, r, rr, iaux - 1);
      forall k | 0 <= k < iaux - 1 ensures inc[k] == Clock(s.tsp, rr, k + 1) {
        ClockPrefix(s.tsp, r, rr, k + 1);
      }
      sum := RedoSegment(s, rr, iaux - 1, jaux, sum);
      RedoTail(s, r, rr, jaux, sum);
    }

    /** The first loop of exchange: inc[lo..hi-1] from the clock at lo. */
    method RedoSegment(s: Solution, ghost rr: seq<int>, lo: int, hi: int, sum0: int) returns (sum: int)
      requires Ready(s) && s.route[..] == rr && 0 <= lo <= hi < s.tsp.numNodes
      requires sum0 == Clock(s.tsp, rr, lo)
      modifies inc
      ensures sum == Clock(s.tsp, rr, hi)
      ensures forall k :: 0 <= k < inc.Length && (k < lo || hi <= k) ==> inc[k] == old(inc[k])
      ensures forall k :: lo <= k < hi ==> inc[k] == Clock(s.tsp, rr, k + 1)
    {
      sum := sum0;
      var i := lo;
      while i < hi
        invariant lo <= i <= hi
        invariant sum == Clock(s.tsp, rr, i)
        invariant forall k :: 0 <= k < inc.Length && (k < lo || i <= k) ==> inc[k] == old(inc[k])
        invariant forall k :: lo <= k < i ==> inc[k] == Clock(s.tsp, rr, k + 1)
      {
        var ni := s.route[i];
        var next := s.route[i + 1];
        if s.tsp.readyTime[ni] > sum {
          sum := s.tsp.readyTime[ni];
        }
        sum := sum + s.tsp.matrix[ni][next];
        inc[i] := sum;
        i := i + 1;
      }
    }

    /** The tail loop of exchange: redo inc[from..numNodes-2] on the new
        route rr, which agrees with r after from-1, until the new clock equals
        the cached clock of r; from there on the two clocks agree. */
    method RedoTail(s: Solution, ghost r: seq<int>, ghost rr: seq<int>, from: int, sum0: int)
      requires Ready(s) && s.route[..] == rr && RouteOk(s.tsp, r) && |r| == |rr|
      requires 1 <= from < s.tsp.numNodes
      requires forall x :: from < x < |r| ==> rr[x] == r[x]
      requires forall k :: from <= k < s.tsp.numNodes - 1 ==> inc[k] == Clock(s.tsp, r, k + 1)
      requires forall k :: 0 <= k < from ==> inc[k] == Clock(s.tsp, rr, k + 1)
      requires sum0 == Clock(s.tsp, rr, from)
      modifies inc
      ensures Follows(s)
    {
      var numNodes := s.tsp.numNodes;
      var sum := sum0;
      var i := from;
      while i < numNodes - 1
        invariant from <= i <= numNodes - 1
        invariant sum == Clock(s.tsp, rr, i)
        invariant forall k :: 0 <= k < i ==> inc[k] == Clock(s.tsp, rr, k + 1)
        invariant forall k :: i <= k < numNodes - 1 ==> inc[k] == Clock(s.tsp, r, k + 1)
      {
        var ni := s.route[i];
        var next := s.route[i + 1];
        if s.tsp.readyTime[ni] > sum {
          sum := s.tsp.readyTime[ni];
        }
        sum := sum + s.tsp.matrix[ni][next];
        if inc[i] == sum {
          forall k | i <= k < numNodes - 1 ensures inc[k] == Clock(s.tsp, rr, k + 1) {
            ClockAgrees(s.tsp, r, rr, i + 1, k + 1);
          }
          return;
        }
        inc[i] := sum;
        i := i + 1;
      }
    }

    /** isFeasible(s, iaux, jaux): the due-date test of the reversal of
        route[iaux+1..jaux], walked on the current route from the cached
        clock at iaux. On the reversed route: -1 when position iaux+1 is
        late, -2 when a later position of the segment is, -3 when the
        position after the segment is, -4 when a tail position is; the tail
        check stops once the new clock is not later than the cached one. So
        0 comes back whenever every position after iaux is reached in time,
        and 0 means so much when the old route was in time after the
        segment. The route and the cache are only read. */
    method IsFeasible(s: Solution, iaux: int, jaux: int) returns (code: int)
      requires Follows(s) && 1 <= iaux < jaux < s.tsp.numNodes
      ensures code in {0, -1, -2, -3, -4}
      ensures RouteOk(s.tsp, ReversedSpan(s.route[..], iaux + 1, jaux))
      ensures var rr, n := ReversedSpan(s.route[..], iaux + 1, jaux), s.tsp.numNodes;
        (code == -1 <==> !Reached(s.tsp, rr, iaux + 1))
        && (code == -2 <==> Reached(s.tsp, rr, iaux + 1) && !ReachedBetween(s.tsp, rr, iaux + 1, jaux + 1))
        && (code == -3 <==> ReachedBetween(s.tsp, rr, iaux + 1, jaux + 1) && jaux + 1 < n && !Reached(s.tsp, rr, jaux + 1))
        && (code == -4 ==> jaux + 1 < n && ReachedBetween(s.tsp, rr, iaux + 1, jaux + 2) && !ReachedBetween(s.tsp, rr, iaux + 1, n))
        && (ReachedBetween(s.tsp, rr, iaux + 1, n) ==> code == 0)
        && (code == 0 && ReachedBetween(s.tsp, s.route[..], jaux + 2, n) ==> ReachedBetween(s.tsp, rr, iaux + 1, n))
    {
      ghost var r := s.route[..];
      ghost var rr := ReversedView(s.tsp, r, iaux, jaux);
      var numNodes := s.tsp.numNodes;
      var sum := inc[iaux - 1];
      ClockPrefix(s.tsp, r, rr, iaux);
      var ni := s.route[iaux];
      var next := s.route[jaux];
      if s.tsp.readyTime[ni] > sum {
        sum := s.tsp.readyTime[ni];
      }
      sum := sum + s.tsp.matrix[ni][next];
      assert sum == Clock(s.tsp, rr, iaux + 1);
      if sum > s.tsp.dueDate[next] {
        return -1;
      }
      code := AfterFirst(s, rr, iaux, jaux, sum);
    }

    /** isFeasible once position iaux+1 of the reversed route rr passed:
        the segment loop (-2), then the step to position jaux+1 and the
        tail loop (TailCode). */
    method AfterFirst(s: Solution, ghost rr: seq<int>, iaux: int, jaux: int, sum0: int) returns (code: int)
      requires Ready(s) && 1 <= iaux < jaux < s.tsp.numNodes
      requires forall k :: jaux < k < s.tsp.numNodes - 1 ==> inc[k] == Clock(s.tsp, s.route[..], k + 1)
      requires rr == ReversedSpan(s.route[..], iaux + 1, jaux) && RouteOk(s.tsp, rr)
      requires sum0 == Clock(s.tsp, rr, iaux + 1) && Reached(s.tsp, rr, iaux + 1)
      ensures code in {0, -2, -3, -4}
      ensures var n := s.tsp.numNodes;
        (code == -2 <==> !ReachedBetween(s.tsp, rr, iaux + 1, jaux + 1))
        && (code == -3 <==> ReachedBetween(s.tsp, rr, iaux + 1, jaux + 1) && jaux + 1 < n && !Reached(s.tsp, rr, jaux + 1))
        && (code == -4 ==> jaux + 1 < n && ReachedBetween(s.tsp, rr, iaux + 1, jaux + 2) && !ReachedBetween(s.tsp, rr, iaux + 1, n))
        && (ReachedBetween(s.tsp, rr, iaux + 1, n) ==> code == 0)
        && (code == 0 && ReachedBetween(s.tsp, s.route[..], jaux + 2, n) ==> ReachedBetween(s.tsp, rr, iaux + 1, n))
    {
      var numNodes := s.tsp.numNodes;
      var ok, sum := ScanSegment(s, rr, iaux, jaux, sum0);
      if !ok {
        ReachedSplit(s.tsp, rr, iaux + 1, jaux + 1, numNodes);
        return -2;
      }
      if jaux + 1 < numNodes {
        code := TailCode(s, rr, iaux, jaux, sum);
      } else {
        code := 0;
      }
    }

    /** The rest of isFeasible after the segment: the step to position
        jaux+1 of rr (-3 when late) and the tail loop (-4). */
    method TailCode(s: Solution, ghost rr: seq<int>, iaux: int, jaux: int, sum0: int) returns (code: int)
      requires Ready(s) && 1 <= iaux < jaux && jaux + 1 < s.tsp.numNodes
      requires forall k :: jaux < k < s.tsp.numNodes - 1 ==> inc[k] == Clock(s.tsp, s.route[..], k + 1)
      requires rr == ReversedSpan(s.route[..], iaux + 1, jaux) && RouteOk(s.tsp, rr)
      requires sum0 == Clock(s.tsp, rr, jaux) && ReachedBetween(s.tsp, rr, iaux + 1, jaux + 1)
      ensures code in {0, -3, -4}
      ensures var n := s.tsp.numNodes;
        (code == -3 <==> !Reached(s.tsp, rr, jaux + 1))
        && (code == -4 ==> ReachedBetween(s.tsp, rr, iaux + 1, jaux + 2) && !ReachedBetween(s.tsp, rr, iaux + 1, n))
        && (ReachedBetween(s.tsp, rr, iaux + 1, n) ==> code == 0)
        && (code == 0 && ReachedBetween(s.tsp, s.route[..], jaux + 2, n) ==> ReachedBetween(s.tsp, rr, iaux + 1, n))
    {
      var numNodes := s.tsp.numNodes;
      var ni := s.route[iaux + 1];
      var next := s.route[jaux + 1];
      assert rr[jaux] == ni && rr[jaux + 1] == next;
      var sum := sum0;
      if s.tsp.readyTime[ni] > sum {
        sum := s.tsp.readyTime[ni];
      }
      sum := sum + s.tsp.matrix[ni][next];
      assert sum == Clock(s.tsp, rr, jaux + 1);
      ReachedSplit(s.tsp, rr, iaux + 1, jaux + 1, numNodes);
      ReachedSplit(s.tsp, rr, jaux + 1, jaux + 2, numNodes);
      ReachedSplit(s.tsp, rr, iaux + 1, jaux + 1, jaux + 2);
      ReachedOne(s.tsp, rr, jaux + 1);
      if sum > s.tsp.dueDate[next] {
        return -3;
      }
      var ok := ScanTail(s, rr, iaux, jaux, sum);
      if !ok {
        return -4;
      }
      return 0;
    }

    /** The loop of isFeasible over the segment, edge route[i] -> route[i-1]
        for i = jaux down to iaux+2: on the reversed route, the positions
        iaux+2..jaux in turn. ok says whether all of them are Reached; sum is
        then the clock at jaux. */
    method ScanSegment(s: Solution, ghost rr: seq<int>, iaux: int, jaux: int, sum0: int) returns (ok: bool, sum: int)
      requires Ready(s) && 1 <= iaux < jaux < s.tsp.numNodes
      requires rr == ReversedSpan(s.route[..], iaux + 1, jaux) && RouteOk(s.tsp, rr)
      requires sum0 == Clock(s.tsp, rr, iaux + 1) && Reached(s.tsp, rr, iaux + 1)
      ensures ok <==> ReachedBetween(s.tsp, rr, iaux + 1, jaux + 1)
      ensures ok ==> sum == Clock(s.tsp, rr, jaux)
    {
      sum := sum0;
      var i := jaux;
      while i > iaux + 1
        invariant iaux + 1 <= i <= jaux
        invariant sum == Clock(s.tsp, rr, iaux + 1 + jaux - i)
        invariant ReachedBetween(s.tsp, rr, iaux + 1, iaux + 2 + jaux - i)
      {
        var ni := s.route[i];
        var next := s.route[i - 1];
        ghost var q := iaux + 1 + jaux - i;
        assert rr[q] == ni && rr[q + 1] == next;
        if s.tsp.readyTime[ni] > sum {
          sum := s.tsp.readyTime[ni];
        }
        sum := sum + s.tsp.matrix[ni][next];
        assert sum == Clock(s.tsp, rr, q + 1);
        if sum > s.tsp.dueDate[next] {
          assert !Reached(s.tsp, rr, q + 1);
          return false, sum;
        }
        i := i - 1;
      }
      return true, sum;
    }

    /** The tail loop of isFeasible, edge route[i] -> route[i+1] for
        i = jaux+1..numNodes-2, stopping once the new clock is not later
        than the cached one. ok is false exactly when a Reached test fails
        before the stop; a stop vouches for the rest of the tail whenever
        the old route reached it in time. */
    method ScanTail(s: Solution, ghost rr: seq<int>, iaux: int, jaux: int, sum0: int) returns (ok: bool)
      requires Ready(s) && 1 <= iaux < jaux && jaux + 1 < s.tsp.numNodes
      requires forall k :: jaux < k < s.tsp.numNodes - 1 ==> inc[k] == Clock(s.tsp, s.route[..], k + 1)
      requires RouteOk(s.tsp, rr) && |rr| == s.route.Length && forall x :: jaux < x < |rr| ==> rr[x] == s.route[x]
      requires sum0 == Clock(s.tsp, rr, jaux + 1)
      ensures !ok ==> !ReachedBetween(s.tsp, rr, jaux + 2, s.tsp.numNodes)
      ensures ReachedBetween(s.tsp, rr, jaux + 2, s.tsp.numNodes) ==> ok
      ensures ok && ReachedBetween(s.tsp, s.route[..], jaux + 2, s.tsp.numNodes)
        ==> ReachedBetween(s.tsp, rr, jaux + 2, s.tsp.numNodes)
    {
      ghost var r := s.route[..];
      var numNodes := s.tsp.numNodes;
      var sum := sum0;
      var i := jaux + 1;
      while i < numNodes - 1
        invariant jaux + 1 <= i <= numNodes - 1
        invariant sum == Clock(s.tsp, rr, i)
        invariant ReachedBetween(s.tsp, rr, jaux + 2, i + 1)
      {
        var ni := s.route[i];
        var next := s.route[i + 1];
        if s.tsp.readyTime[ni] > sum {
          sum := s.tsp.readyTime[ni];
        }
        sum := sum + s.tsp.matrix[ni][next];
        assert sum == Clock(s.tsp, rr, i + 1);
        if sum > s.tsp.dueDate[next] {
          assert !Reached(s.tsp, rr, i + 1);
          return false;
        }
        if sum <= inc[i] {
          TailCatchesUp(s.tsp, r, rr, i + 1);
          return true;
        }
        i := i + 1;
      }
      return true;
    }

    /** process(s): recompute the cache, then pick inner positions npos at
        random from a candidate set; for each, try the reversals of
        route[npos+1..i] for i = npos+2 onwards, stopping at the first i
        whose node cannot reach route[npos+1] in time. An improvement puts
        every position back in the set; a pick without one is moved behind
        the end of the set. The nodes stay the same, the cache follows the
        route, and a route that reached every position of the first
        numNodes by its due date still does. At most fuel improving rounds
        are run; a further one ends the search. */
    method Process(s: Solution, fuel: nat)
      requires Ready(s) && 2 <= s.tsp.numNodes
      modifies s.route, inc
      ensures Follows(s) && SameNodes(s.route[..], old(s.route[..]))
      ensures ReachedBetween(s.tsp, old(s.route[..]), 1, s.tsp.numNodes)
        ==> ReachedBetween(s.tsp, s.route[..], 1, s.tsp.numNodes)
    {
      var numNodes := s.tsp.numNodes;
      CalcInc(s);
      var setSize := numNodes - 2;
      var cands: seq<int> := [];
      while |cands| < setSize
        invariant |cands| <= setSize
        invariant forall y :: 0 <= y < |cands| ==> cands[y] == y + 1
      {
        cands := cands + [|cands| + 1];
      }
      var budget := fuel;
      while setSize > 0
        invariant 0 <= setSize <= |cands| == numNodes - 2
        invariant forall y :: 0 <= y < |cands| ==> 1 <= cands[y] <= numNodes - 2
        invariant Follows(s) && SameNodes(s.route[..], old(s.route[..]))
        invariant ReachedBetween(s.tsp, old(s.route[..]), 1, numNodes)
          ==> ReachedBetween(s.tsp, s.route[..], 1, numNodes)
        decreases budget, setSize
      {
        var pos := Random(0, setSize);
        var npos := cands[pos];
        var improvement := TryFrom(s, npos);
        if improvement {
          if budget == 0 {
            return;
          }
          budget := budget - 1;
          setSize := numNodes - 2;
        } else {
          var aux := cands[setSize - 1];
          cands := cands[setSize - 1 := npos][pos := aux];
          setSize := setSize - 1;
        }
      }
    }

    /** A reversal isFeasible accepted, applied by exchange: the route keeps
        the nodes of r0, and every window of r0 it met. */
    method TakeMove(s: Solution, ghost r0: seq<int>, npos: int, i: int)
      requires Follows(s) && RouteOk(s.tsp, r0) && 1 <= npos && npos + 2 <= i < s.tsp.numNodes <= |r0|
      requires SameNodes(s.route[..], r0)
      requires ReachedBetween(s.tsp, r0, 1, s.tsp.numNodes) ==> ReachedBetween(s.tsp, s.route[..], 1, s.tsp.numNodes)
      requires RouteOk(s.tsp, ReversedSpan(s.route[..], npos + 1, i))
      requires ReachedBetween(s.tsp, s.route[..], i + 2, s.tsp.numNodes)
        ==> ReachedBetween(s.tsp, ReversedSpan(s.route[..], npos + 1, i), npos + 1, s.tsp.numNodes)
      modifies s.route, inc
      ensures Follows(s) && SameNodes(s.route[..], r0)
      ensures ReachedBetween(s.tsp, r0, 1, s.tsp.numNodes) ==> ReachedBetween(s.tsp, s.route[..], 1, s.tsp.numNodes)
    {
      ghost var r := s.route[..];
      ReversedSameNodes(r, r0, npos + 1, i, s.tsp.numNodes);
      if ReachedBetween(s.tsp, r0, 1, s.tsp.numNodes) {
        assert ReachedBetween(s.tsp, r, i + 2, s.tsp.numNodes);
        MoveKeepsWindows(s.tsp, r, npos, i);
      }
      Exchange(s, npos, i);
    }

    /** The inner loop of process for one pick npos: edges
        n1 -> n2 ... n3 -> n4 become n1 -> n3 ... n2 -> n4 when that is
        shorter and isFeasible returns 0. n1, n2 and e1 are read once, before
        the first reversal. */
    method TryFrom(s: Solution, npos: int) returns (improvement: bool)
      requires Follows(s) && 1 <= npos <= s.tsp.numNodes - 2
      modifies s.route, inc
      ensures Follows(s) && SameNodes(s.route[..], old(s.route[..]))
      ensures ReachedBetween(s.tsp, old(s.route[..]), 1, s.tsp.numNodes)
        ==> ReachedBetween(s.tsp, s.route[..], 1, s.tsp.numNodes)
      ensures !improvement ==> s.route[..] == old(s.route[..])
    {
      var numNodes := s.tsp.numNodes;
      var n1 := s.route[npos];
      var n2 := s.route[npos + 1];
      var e1 := s.tsp.matrix[n1][n2];
      improvement := false;
      var i := npos + 2;
      while i < numNodes
        invariant npos + 2 <= i <= numNodes
        invariant Follows(s) && SameNodes(s.route[..], old(s.route[..]))
        invariant ReachedBetween(s.tsp, old(s.route[..]), 1, numNodes)
          ==> ReachedBetween(s.tsp, s.route[..], 1, numNodes)
        invariant !improvement ==> s.route[..] == old(s.route[..])
        invariant 0 <= n1 < numNodes && 0 <= n2 < numNodes
      {
        var n3 := s.route[i];
        if !Instance.Arc(s.tsp.arcs, n3, n2) {
          break;
        }
        var n4 := 0;
        if i < numNodes - 1 {
          n4 := s.route[i + 1];
        }
        var e2 := s.tsp.matrix[n3][n4];
        var e3 := s.tsp.matrix[n1][n3];
        var e4 := s.tsp.matrix[n2][n4];
        if e1 + e2 > e3 + e4 {
          var code := IsFeasible(s, npos, i);
          if code == 0 {
            TakeMove(s, old(s.route[..]), npos, i);
            improvement := true;
          }
        }
        i := i + 1;
      }
    }
  }
}
