// core/objective.go: the three objectives the local searches minimise and
// the 2-opt profitability test that comes with each. All of them only read
// the route, so they are functions over the route's contents.
module CoreObjective {
  import opened Utils
  import opened Instance
  import opened Schedule
  import opened Routes
  import opened CoreSolution

  datatype Objective = SpanTime | TotalTime | TotalTimeA

  /** NewObjective: "time" selects one of the total-time objectives, the
      asymmetric one when asked for; "span" and every other name give the
      span objective. */
  function NewObjective(name: string, asymetric: bool): (o: Objective)
    ensures o == TotalTimeA <==> name == "time" && asymetric
    ensures o == TotalTime <==> name == "time" && !asymetric
    ensures o == SpanTime <==> name != "time"
  {
    if name == "time" && asymetric then TotalTimeA
    else if name == "time" then TotalTime
    else if name == "span" then SpanTime
    else SpanTime
  }

  /** get: the span objective is the wait-then-travel clock started at 0
      (not at the instance's start time); the other two sum the edges. */
  function Cost(o: Objective, p: Pdptw, r: seq<int>): int
    requires Fits(p.matrix, p.readyTime, r)
  {
    match o
    case SpanTime => Span(p.matrix, p.readyTime, r, 0)
    case _ => TotalDist(p.matrix, r)
  }

  /** The loop of spanTime.isProfitable walking the segment backwards: from
      position k down to lo + 1, each step waits at r[k] and travels to r[k-1]. */
  function BackWalk(p: Pdptw, r: seq<int>, lo: int, k: int, sum: int): int
    requires Fits(p.matrix, p.readyTime, r) && 0 <= lo && k < |r|
    decreases k - lo
  {
    if k <= lo then sum
    else BackWalk(p, r, lo, k - 1, Step(p.matrix, p.readyTime, sum, r[k], r[k - 1]))
  }

  /** The clock at j + 1 that spanTime.isProfitable simulates for the move
      (i, j): i -> j, then the segment backwards, then i + 1 -> j + 1. */
  function SpanProfit(p: Pdptw, r: seq<int>, i: int, j: int, start: int): int
    requires Fits(p.matrix, p.readyTime, r) && 0 <= i && i + 1 <= j + 1 < |r|
  {
    var s1 := Step(p.matrix, p.readyTime, start, r[i], r[j]);
    var s2 := BackWalk(p, r, i + 1, j, s1);
    Step(p.matrix, p.readyTime, s2, r[i + 1], r[j + 1])
  }

  /** Precondition of isProfitable: the positions it reads exist. */
  ghost predicate ProfitableArgs(o: Objective, p: Pdptw, r: seq<int>, i: int, j: int, spans: seq<int>)
  {
    Fits(p.matrix, p.readyTime, r) && 0 < |p.matrix| && 0 <= i && i + 1 < |r|
    && (if o == SpanTime then i < j + 1 < |r| && |spans| >= 2
        else 0 <= j < |r| && (j < p.numNodes - 1 ==> j + 1 < |r|))
  }

  /** isProfitable(s, i, j, spans...): the span test compares the simulated
      clock with spans[0], started from spans[1]; both total-time tests
      compare the two removed edges with the two added ones, using node 0 in
      place of route[j+1] when j is the last index. */
  function Profitable(o: Objective, p: Pdptw, r: seq<int>, i: int, j: int, spans: seq<int>): bool
    requires ProfitableArgs(o, p, r, i, j, spans)
  {
    match o
    case SpanTime => spans[0] > SpanProfit(p, r, i, j, spans[1])
    case _ =>
      var n1 := r[i];
      var n2 := r[i + 1];
      var n3 := r[j];
      var n4 := if j < p.numNodes - 1 then r[j + 1] else 0;
      p.matrix[n1][n2] + p.matrix[n3][n4] > p.matrix[n1][n3] + p.matrix[n2][n4]
  }

  /** get(s): the loop over the route's edges. */
  method Get(o: Objective, s: Solution) returns (v: int)
    requires s.Valid()
    ensures v == Cost(o, s.tsp, s.route[..])
  {
    ghost var r := s.route[..];
    var p := s.tsp;
    var traveled := 0;
    var i := 0;
    while i < s.route.Length - 1
      invariant 0 <= i <= Max(s.route.Length - 1, 0)
      invariant |r| == 0 ==> traveled == 0
      invariant 0 < |r| ==> traveled == (if o == SpanTime then TimeAt(p.matrix, p.readyTime, r, 0, i) else Distance(p.matrix, r, i))
    {
      if o == SpanTime && traveled < p.readyTime[s.route[i]] {
        traveled := p.readyTime[s.route[i]];
      }
      traveled := traveled + p.matrix[s.route[i]][s.route[i + 1]];
      i := i + 1;
    }
    v := traveled;
  }

  /** isProfitable(s, i, j, spans...): the span test walks the segment
      backwards in a loop; the total-time tests read four edges. */
  method IsProfitable(o: Objective, s: Solution, i: int, j: int, spans: seq<int>) returns (b: bool)
    requires s.Valid() && ProfitableArgs(o, s.tsp, s.route[..], i, j, spans)
    ensures b == Profitable(o, s.tsp, s.route[..], i, j, spans)
  {
    ghost var r := s.route[..];
    var p := s.tsp;
    if o == SpanTime {
      var sum := spans[1];
      var n1 := s.route[i];
      var n2 := s.route[j];
      if p.readyTime[n1] > sum {
        sum := p.readyTime[n1];
      }
      sum := sum + p.matrix[n1][n2];
      var k := j;
      while k > i + 1
        invariant i <= k <= j
        invariant BackWalk(p, r, i + 1, j, Step(p.matrix, p.readyTime, spans[1], r[i], r[j])) == BackWalk(p, r, i + 1, k, sum)
      {
        n1 := s.route[k];
        n2 := s.route[k - 1];
        if p.readyTime[n1] > sum {
          sum := p.readyTime[n1];
        }
        sum := sum + p.matrix[n1][n2];
        k := k - 1;
      }
      n1 := s.route[i + 1];
      n2 := s.route[j + 1];
      if p.readyTime[n1] > sum {
        sum := p.readyTime[n1];
      }
      sum := sum + p.matrix[n1][n2];
      b := spans[0] > sum;
    } else {
      var n1 := s.route[i];
      var n2 := s.route[i + 1];
      var n3 := s.route[j];
      var n4 := 0;
      if j < p.numNodes - 1 {
        n4 := s.route[j + 1];
      }
      var e1 := p.matrix[n1][n2];
      var e2 := p.matrix[n3][n4];
      var e3 := p.matrix[n1][n3];
      var e4 := p.matrix[n2][n4];
      b := e1 + e2 > e3 + e4;
    }
  }

  /** The asymmetric variant is still the symmetric test. */
  lemma {:induction false} AsymmetricIsSymmetric(p: Pdptw, r: seq<int>, i: int, j: int, spans: seq<int>)
    requires ProfitableArgs(TotalTime, p, r, i, j, spans)
    ensures ProfitableArgs(TotalTimeA, p, r, i, j, spans)
    ensures Profitable(TotalTimeA, p, r, i, j, spans) == Profitable(TotalTime, p, r, i, j, spans)
    ensures Cost(TotalTimeA, p, r) == Cost(TotalTime, p, r)
  {
  }

  /** The span objective only grows with longer edges and later ready
      times. */
  lemma {:induction false} SpanGetMonotone(p1: Pdptw, p2: Pdptw, r: seq<int>)
    requires Fits(p1.matrix, p1.readyTime, r) && Fits(p2.matrix, p2.readyTime, r)
    requires |p1.matrix| == |p2.matrix|
    requires forall a, b :: 0 <= a < |p1.matrix| && 0 <= b < |p1.matrix| ==> p1.matrix[a][b] <= p2.matrix[a][b]
    requires forall a :: 0 <= a < |p1.matrix| ==> p1.readyTime[a] <= p2.readyTime[a]
    ensures Cost(SpanTime, p1, r) <= Cost(SpanTime, p2, r)
  {
    if |r| > 0 {
      TimeAtMonotone(p1.matrix, p2.matrix, p1.readyTime, p2.readyTime, r, 0, 0, |r| - 1);
    }
  }

  /** The span objective starts the clock at 0, so it never exceeds MakeSpan
      when the instance's start time is not negative. */
  lemma {:induction false} SpanGetBelowMakeSpan(p: Pdptw, r: seq<int>)
    requires Fits(p.matrix, p.readyTime, r) && p.traveled >= 0
    ensures Cost(SpanTime, p, r) <= Span(p.matrix, p.readyTime, r, p.traveled)
  {
    if |r| > 0 {
      TimeAtMonotone(p.matrix, p.matrix, p.readyTime, p.readyTime, r, 0, p.traveled, |r| - 1);
    }
  }

  /** Sum of the edges lo -> lo+1, ..., hi-1 -> hi. */
  function EdgeSum(m: seq<seq<int>>, r: seq<int>, lo: int, hi: int): int
    requires Square(m) && Within(r, |m|) && 0 <= lo && hi < |r|
    decreases hi - lo
  {
    if hi <= lo then 0 else EdgeSum(m, r, lo, hi - 1) + m[r[hi - 1]][r[hi]]
  }

  lemma {:induction false} DistanceIsEdgeSum(m: seq<seq<int>>, r: seq<int>, k: nat)
    requires Square(m) && Within(r, |m|) && k < |r|
    ensures Distance(m, r, k) == EdgeSum(m, r, 0, k)
  {
    if k > 0 {
      DistanceIsEdgeSum(m, r, k - 1);
    }
  }

  lemma {:induction false} EdgeSumSplit(m: seq<seq<int>>, r: seq<int>, lo: int, mid: int, hi: int)
    requires Square(m) && Within(r, |m|) && 0 <= lo <= mid <= hi < |r|
    ensures EdgeSum(m, r, lo, hi) == EdgeSum(m, r, lo, mid) + EdgeSum(m, r, mid, hi)
    decreases hi - mid
  {
    if hi > mid {
      EdgeSumSplit(m, r, lo, mid, hi - 1);
    }
  }

  lemma {:induction false} EdgeSumSame(m: seq<seq<int>>, r: seq<int>, r': seq<int>, lo: int, hi: int)
    requires Square(m) && Within(r, |m|) && Within(r', |m|) && 0 <= lo && hi < |r| && hi < |r'|
    requires forall l :: lo <= l <= hi ==> r[l] == r'[l]
    ensures EdgeSum(m, r, lo, hi) == EdgeSum(m, r', lo, hi)
    decreases hi - lo
  {
    if hi > lo {
      EdgeSumSame(m, r, r', lo, hi - 1);
    }
  }

  /** A stretch that lies outside the reversed segment keeps its length. */
  lemma {:induction false} EdgeSumOutsideReversal(m: seq<seq<int>>, r: seq<int>, lo: int, hi: int, a: int, b: int)
    requires Square(m) && Within(r, |m|) && 0 <= lo <= hi < |r| && 0 <= a && b < |r| && (b < lo || hi < a)
    ensures Within(ReversedSpan(r, lo, hi), |m|)
    ensures EdgeSum(m, ReversedSpan(r, lo, hi), a, b) == EdgeSum(m, r, a, b)
  {
    var r' := ReversedSpan(r, lo, hi);
    ReversedWithin(r, lo, hi, |m|);
    EdgeSumSame(m, r, r', a, b);
  }

  ghost predicate Symmetric(m: seq<seq<int>>)
    requires Square(m)
  {
    forall a, b :: 0 <= a < |m| && 0 <= b < |m| ==> m[a][b] == m[b][a]
  }

  /** On a symmetric matrix a reversed stretch is as long as the original:
      the edges a..b of the reversal of [lo, hi] are the edges of the mirror
      stretch walked backwards. */
  lemma {:induction false} EdgeSumReversed(m: seq<seq<int>>, r: seq<int>, lo: int, hi: int, a: int, b: int)
    requires Square(m) && Symmetric(m) && Within(r, |m|) && 0 <= lo <= a <= b <= hi < |r|
    ensures Within(ReversedSpan(r, lo, hi), |m|)
    ensures EdgeSum(m, ReversedSpan(r, lo, hi), a, b) == EdgeSum(m, r, lo + hi - b, lo + hi - a)
    decreases b - a
  {
    var r' := ReversedSpan(r, lo, hi);
    ReversedWithin(r, lo, hi, |m|);
    if b > a {
      EdgeSumReversed(m, r, lo, hi, a, b - 1);
      var c := lo + hi - b;
      EdgeSumSplit(m, r, c, c + 1, lo + hi - a);
      assert r'[b - 1] == r[c + 1] && r'[b] == r[c];
    }
  }

  /** The route cut at the two edges a 2-opt move replaces. */
  lemma {:induction false} TotalDistAround(m: seq<seq<int>>, r: seq<int>, i: int, j: int)
    requires Square(m) && Within(r, |m|) && 0 <= i && i + 1 <= j && j + 1 < |r|
    ensures TotalDist(m, r) == EdgeSum(m, r, 0, i) + m[r[i]][r[i + 1]] + EdgeSum(m, r, i + 1, j)
                               + m[r[j]][r[j + 1]] + EdgeSum(m, r, j + 1, |r| - 1)
  {
    var n := |r|;
    DistanceIsEdgeSum(m, r, n - 1);
    EdgeSumSplit(m, r, 0, i, n - 1);
    EdgeSumSplit(m, r, i, i + 1, n - 1);
    EdgeSumSplit(m, r, i + 1, j, n - 1);
    EdgeSumSplit(m, r, j, j + 1, n - 1);
  }

  /** The 2-opt test of the total-time objectives is exact on a symmetric
      matrix: the move (i, j) is profitable exactly when reversing
      route[i+1..j] shortens the route. */
  lemma {:induction false} TotalProfitableIffShorter(p: Pdptw, r: seq<int>, i: int, j: int, spans: seq<int>)
    requires Fits(p.matrix, p.readyTime, r) && Symmetric(p.matrix)
    requires 0 <= i && i + 1 <= j && j + 1 < |r| && j < p.numNodes - 1
    ensures ProfitableArgs(TotalTime, p, r, i, j, spans)
    ensures Within(ReversedSpan(r, i + 1, j), |p.matrix|)
    ensures Profitable(TotalTime, p, r, i, j, spans)
            <==> TotalDist(p.matrix, ReversedSpan(r, i + 1, j)) < TotalDist(p.matrix, r)
  {
    var m := p.matrix;
    var r' := ReversedSpan(r, i + 1, j);
    var n := |r|;
    ReversedWithin(r, i + 1, j, |m|);
    TotalDistAround(m, r, i, j);
    TotalDistAround(m, r', i, j);
    EdgeSumOutsideReversal(m, r, i + 1, j, 0, i);
    EdgeSumOutsideReversal(m, r, i + 1, j, j + 1, n - 1);
    EdgeSumReversed(m, r, i + 1, j, i + 1, j);
    assert r'[i] == r[i] && r'[i + 1] == r[j] && r'[j] == r[i + 1] && r'[j + 1] == r[j + 1];
  }

  /** Reversing a segment keeps the route inside the matrix. */
  lemma {:induction false} ReversedFits(m: seq<seq<int>>, ready: seq<int>, r: seq<int>, start: int, end: int)
    requires Fits(m, ready, r) && 0 <= start <= end < |r|
    ensures Fits(m, ready, ReversedSpan(r, start, end))
  {
    ReversedWithin(r, start, end, |m|);
  }

  /** The backward walk over r[lo..k] follows the clock of a route r' that
      holds r[lo..j] mirrored in the same positions. */
  lemma {:induction false} BackWalkMirrors(p: Pdptw, r: seq<int>, r': seq<int>, t0: int, lo: int, j: int, k: int)
    requires Fits(p.matrix, p.readyTime, r) && Fits(p.matrix, p.readyTime, r')
    requires 0 <= lo <= k <= j < |r| == |r'|
    requires forall x {:trigger r'[x]} :: lo <= x <= j ==> r'[x] == r[lo + j - x]
    ensures BackWalk(p, r, lo, k, TimeAt(p.matrix, p.readyTime, r', t0, lo + j - k)) == TimeAt(p.matrix, p.readyTime, r', t0, j)
    decreases k - lo
  {
    if k > lo {
      var mm := lo + j - k;
      assert r'[mm] == r[k] && r'[mm + 1] == r[k - 1];
      BackWalkMirrors(p, r, r', t0, lo, j, k - 1);
    }
  }

  /** The backward walk over the segment follows the clock of the reversed
      route. */
  lemma {:induction false} BackWalkFollowsReversal(p: Pdptw, r: seq<int>, t0: int, i: int, j: int, k: int)
    requires Fits(p.matrix, p.readyTime, r) && 0 <= i && i + 1 <= k <= j && j < |r|
    ensures Fits(p.matrix, p.readyTime, ReversedSpan(r, i + 1, j))
    ensures BackWalk(p, r, i + 1, k, TimeAt(p.matrix, p.readyTime, ReversedSpan(r, i + 1, j), t0, i + 1 + j - k))
            == TimeAt(p.matrix, p.readyTime, ReversedSpan(r, i + 1, j), t0, j)
  {
    ReversedFits(p.matrix, p.readyTime, r, i + 1, j);
    BackWalkMirrors(p, r, ReversedSpan(r, i + 1, j), t0, i + 1, j, k);
  }

  /** The span test is exact: started from the cached clock at i, the
      simulated clock is the clock at j + 1 of the route with route[i+1..j]
      reversed, so the move is profitable exactly when the reversed route
      reaches j + 1 earlier than the cached clock says. */
  lemma {:induction false} SpanProfitIsReversedClock(p: Pdptw, r: seq<int>, t0: int, i: int, j: int)
    requires Fits(p.matrix, p.readyTime, r) && 0 <= i && i + 1 <= j && j + 1 < |r|
    ensures Fits(p.matrix, p.readyTime, ReversedSpan(r, i + 1, j))
    ensures SpanProfit(p, r, i, j, TimeAt(p.matrix, p.readyTime, r, t0, i))
            == TimeAt(p.matrix, p.readyTime, ReversedSpan(r, i + 1, j), t0, j + 1)
  {
    var r' := ReversedSpan(r, i + 1, j);
    ReversedFits(p.matrix, p.readyTime, r, i + 1, j);
    TimeAtPrefix(p.matrix, p.readyTime, r, r', t0, i);
    assert r'[i] == r[i] && r'[i + 1] == r[j] && r'[j] == r[i + 1] && r'[j + 1] == r[j + 1];
    BackWalkFollowsReversal(p, r, t0, i, j, j);
  }

  lemma {:induction false} SpanProfitableIffEarlier(p: Pdptw, r: seq<int>, t0: int, i: int, j: int)
    requires Fits(p.matrix, p.readyTime, r) && 0 < |p.matrix| && 0 <= i && i + 1 <= j && j + 1 < |r|
    ensures Fits(p.matrix, p.readyTime, ReversedSpan(r, i + 1, j))
    ensures var spans := [TimeAt(p.matrix, p.readyTime, r, t0, j + 1), TimeAt(p.matrix, p.readyTime, r, t0, i)];
      ProfitableArgs(SpanTime, p, r, i, j, spans)
      && (Profitable(SpanTime, p, r, i, j, spans)
          <==> TimeAt(p.matrix, p.readyTime, ReversedSpan(r, i + 1, j), t0, j + 1)
               < TimeAt(p.matrix, p.readyTime, r, t0, j + 1))
  {
    SpanProfitIsReversedClock(p, r, t0, i, j);
  }
}
