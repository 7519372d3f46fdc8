// The recurrences every evaluator of the solver walks along a route: the
// clock (wait at a node until its ready time, then travel on), the clock of
// the feasibility scans (travel, then wait), the load on board and the plain
// travelled distance.
module Schedule {
  import opened Utils

  ghost predicate Square(matrix: seq<seq<int>>)
  {
    forall i :: 0 <= i < |matrix| ==> |matrix[i]| == |matrix|
  }

  /** Every entry of r names a node of the matrix. */
  ghost predicate Within(r: seq<int>, n: int)
  {
    forall k :: 0 <= k < |r| ==> 0 <= r[k] < n
  }

  /** Matrix and windows can be indexed by every node of r. */
  ghost predicate Fits(matrix: seq<seq<int>>, ready: seq<int>, r: seq<int>)
  {
    Square(matrix) && |ready| >= |matrix| && Within(r, |matrix|)
  }

  /** Leave a after waiting for its ready time, arrive at b. */
  function Step(matrix: seq<seq<int>>, ready: seq<int>, t: int, a: int, b: int): int
    requires 0 <= a < |matrix| && a < |ready| && 0 <= b < |matrix[a]|
  {
    Max(t, ready[a]) + matrix[a][b]
  }

  /** Clock on reaching position k when the route starts at time t0 (the
      MakeSpan / calcGlobals recurrence). */
  function TimeAt(matrix: seq<seq<int>>, ready: seq<int>, r: seq<int>, t0: int, k: nat): (t: int)
    requires Fits(matrix, ready, r) && k < |r|
  {
    if k == 0 then t0 else Step(matrix, ready, TimeAt(matrix, ready, r, t0, k - 1), r[k - 1], r[k])
  }

  /** Clock of the feasibility scans: travel to position k, then wait there. */
  function ArriveAt(matrix: seq<seq<int>>, ready: seq<int>, r: seq<int>, t0: int, k: nat): (t: int)
    requires Fits(matrix, ready, r) && k < |r|
    ensures k > 0 ==> t >= ready[r[k]]
  {
    if k == 0 then t0
    else Max(ArriveAt(matrix, ready, r, t0, k - 1) + matrix[r[k - 1]][r[k]], ready[r[k]])
  }

  /** Load on board before position k is served: c0 plus the demands of r[..k]. */
  function Load(demands: map<int, int>, r: seq<int>, c0: int, k: nat): int
    requires k <= |r|
  {
    if k == 0 then c0 else Load(demands, r, c0, k - 1) + Get(demands, r[k - 1])
  }

  /** Length of the first k edges of r. */
  function Distance(matrix: seq<seq<int>>, r: seq<int>, k: nat): int
    requires Square(matrix) && Within(r, |matrix|) && k < |r|
  {
    if k == 0 then 0 else Distance(matrix, r, k - 1) + matrix[r[k - 1]][r[k]]
  }

  /** MakeSpan: the clock on reaching the last node (t0 for an empty route). */
  function Span(matrix: seq<seq<int>>, ready: seq<int>, r: seq<int>, t0: int): int
    requires Fits(matrix, ready, r)
  {
    if |r| == 0 then t0 else TimeAt(matrix, ready, r, t0, |r| - 1)
  }

  /** TotalDistance: the sum of all edge lengths (0 for an empty route). */
  function TotalDist(matrix: seq<seq<int>>, r: seq<int>): int
    requires Square(matrix) && Within(r, |matrix|)
  {
    if |r| == 0 then 0 else Distance(matrix, r, |r| - 1)
  }

  /** The clock at k only depends on the route up to k. */
  lemma {:induction false} TimeAtPrefix(matrix: seq<seq<int>>, ready: seq<int>, r: seq<int>, r': seq<int>, t0: int, k: nat)
    requires Fits(matrix, ready, r) && Fits(matrix, ready, r') && k < |r| && k < |r'|
    requires forall l {:trigger r'[l]} :: 0 <= l <= k ==> r[l] == r'[l]
    ensures TimeAt(matrix, ready, r, t0, k) == TimeAt(matrix, ready, r', t0, k)
  {
    if k > 0 {
      TimeAtPrefix(matrix, ready, r, r', t0, k - 1);
    }
  }

  /** The load before k only depends on the route before k. */
  lemma {:induction false} LoadPrefix(demands: map<int, int>, r: seq<int>, r': seq<int>, c0: int, k: nat)
    requires k <= |r| && k <= |r'|
    requires forall l {:trigger r'[l]} :: 0 <= l < k ==> r[l] == r'[l]
    ensures Load(demands, r, c0, k) == Load(demands, r', c0, k)
  {
    if k > 0 {
      LoadPrefix(demands, r, r', c0, k - 1);
    }
  }

  /** The feasibility clock is the MakeSpan clock after waiting, once the
      start time already covers the first ready time. */
  lemma {:induction false} ArriveIsWaitedTime(matrix: seq<seq<int>>, ready: seq<int>, r: seq<int>, t0: int, k: nat)
    requires Fits(matrix, ready, r) && 0 < |r| && k < |r| && t0 >= ready[r[0]]
    ensures ArriveAt(matrix, ready, r, t0, k) == Max(TimeAt(matrix, ready, r, t0, k), ready[r[k]])
  {
    if k > 0 {
      ArriveIsWaitedTime(matrix, ready, r, t0, k - 1);
    }
  }

  /** The MakeSpan clock only grows with a later start, longer edges and later
      ready times: it is built from max and + alone. */
  lemma {:induction false} TimeAtMonotone(m1: seq<seq<int>>, m2: seq<seq<int>>, rd1: seq<int>, rd2: seq<int>,
                                          r: seq<int>, t1: int, t2: int, k: nat)
    requires Fits(m1, rd1, r) && Fits(m2, rd2, r) && |m1| == |m2| && k < |r| && t1 <= t2
    requires forall a, b :: 0 <= a < |m1| && 0 <= b < |m1| ==> m1[a][b] <= m2[a][b]
    requires forall a :: 0 <= a < |m1| ==> rd1[a] <= rd2[a]
    ensures TimeAt(m1, rd1, r, t1, k) <= TimeAt(m2, rd2, r, t2, k)
  {
    if k > 0 {
      TimeAtMonotone(m1, m2, rd1, rd2, r, t1, t2, k - 1);
    }
  }

  /** Clock on reaching position k after arriving at position lo at time t
      (the recurrence the cache updates restart from a cached clock). */
  function ClockFrom(matrix: seq<seq<int>>, ready: seq<int>, r: seq<int>, lo: int, t: int, k: int): int
    requires Fits(matrix, ready, r) && 0 <= lo && k < |r|
    decreases k
  {
    if k <= lo then t else Step(matrix, ready, ClockFrom(matrix, ready, r, lo, t, k - 1), r[k - 1], r[k])
  }

  /** c plus the demands of r[lo..k]. */
  function LoadFrom(demands: map<int, int>, r: seq<int>, lo: int, c: int, k: int): int
    requires 0 <= lo && k <= |r|
    decreases k
  {
    if k <= lo then c else LoadFrom(demands, r, lo, c, k - 1) + Get(demands, r[k - 1])
  }

  /** Restarting the clock from its own value at lo changes nothing. */
  lemma {:induction false} ClockFromTimeAt(matrix: seq<seq<int>>, ready: seq<int>, r: seq<int>, t0: int, lo: nat, k: nat)
    requires Fits(matrix, ready, r) && lo <= k < |r|
    ensures ClockFrom(matrix, ready, r, lo, TimeAt(matrix, ready, r, t0, lo), k) == TimeAt(matrix, ready, r, t0, k)
  {
    if k > lo {
      ClockFromTimeAt(matrix, ready, r, t0, lo, k - 1);
    }
  }

  /** Restarting the load from its own value at lo changes nothing. */
  lemma {:induction false} LoadFromLoad(demands: map<int, int>, r: seq<int>, c0: int, lo: nat, k: nat)
    requires lo <= k <= |r|
    ensures LoadFrom(demands, r, lo, Load(demands, r, c0, lo), k) == Load(demands, r, c0, k)
  {
    if k > lo {
      LoadFromLoad(demands, r, c0, lo, k - 1);
    }
  }

  /** A route that agrees with r from k0 on and is not later at k0 is not
      later at any position after k0: the clock only grows with its start. */
  lemma {:induction false} ClockCatchesUp(matrix: seq<seq<int>>, ready: seq<int>, r: seq<int>, rr: seq<int>, t0: int, k0: nat, k: nat)
    requires Fits(matrix, ready, r) && Fits(matrix, ready, rr) && |r| == |rr| && k0 <= k < |r|
    requires forall x :: k0 <= x < |r| ==> rr[x] == r[x]
    requires TimeAt(matrix, ready, rr, t0, k0) <= TimeAt(matrix, ready, r, t0, k0)
    ensures TimeAt(matrix, ready, rr, t0, k) <= TimeAt(matrix, ready, r, t0, k)
    decreases k
  {
    if k > k0 {
      ClockCatchesUp(matrix, ready, r, rr, t0, k0, k - 1);
      assert rr[k - 1] == r[k - 1] && rr[k] == r[k];
    }
  }
}
