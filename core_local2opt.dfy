// core/local2Opt.go: the constrained 2-opt search. It keeps per-position
// caches of the clock, the load and the precedence pairing, tests a
// reversal of route[i+1..j] against them and, when the reversal is taken,
// updates the caches from position i on instead of recomputing them.
module CoreLocal2Opt {
  import opened Utils
  import opened Instance
  import opened Schedule
  import opened Routes
  import opened CoreSolution
  import CoreObjective

  /** The reversal of r[i+1..j] stays over the same nodes. */
  lemma {:induction false} MovedWithin(p: Pdptw, r: seq<int>, i: int, j: int)
    requires RouteOk(p, r) && 0 <= i && i + 1 <= j < |r|
    ensures RouteOk(p, ReversedSpan(r, i + 1, j))
  {
    ReversedWithin(r, i + 1, j, p.numNodes);
  }

  /** The time and load checks of isFeasible on route rr for positions
      i+1..q, started with clock t at position i and load c after serving i:
      each position is reached by its due date, and the load after serving
      the position before it is within capacity. */
  ghost predicate ChecksPass(p: Pdptw, rr: seq<int>, i: int, t: int, c: int, q: int)
    requires RouteOk(p, rr) && 0 <= i && q < |rr|
    decreases q
  {
    if q <= i then true
    else
      ChecksPass(p, rr, i, t, c, q - 1)
      && ClockFrom(p.matrix, p.readyTime, rr, i, t, q) <= p.dueDate[rr[q]]
      && LoadFrom(p.demands, rr, i + 1, c, q) <= p.capacity
  }

  /** A failed check stays failed for every longer range. */
  lemma {:induction false} ChecksPassShrink(p: Pdptw, rr: seq<int>, i: int, t: int, c: int, q: int, q': int)
    requires RouteOk(p, rr) && 0 <= i && q <= q' < |rr|
    ensures ChecksPass(p, rr, i, t, c, q') ==> ChecksPass(p, rr, i, t, c, q)
    decreases q' - q
  {
    if q < q' {
      ChecksPassShrink(p, rr, i, t, c, q, q' - 1);
    }
  }

  /** No position k in lo..j has its cached partner strictly between i and j. */
  ghost predicate NoPairFrom(prec: map<int, int>, i: int, j: int, lo: int)
  {
    forall k :: lo <= k <= j ==> !(i < Get(prec, k) < j)
  }

  /** isFeasible(s, i, j) as a statement about the route rr with
      route[i+1..j] reversed: started with clock t at position i and load c
      after serving i, every position after i is reached by its due date,
      every later load is within capacity, and no position in i+2..j has its
      cached partner strictly between i and j. */
  ghost predicate TwoOptFeasible(p: Pdptw, r: seq<int>, t: int, c: int, prec: map<int, int>, i: int, j: int)
    requires RouteOk(p, r) && 0 <= i && i + 1 <= j < |r|
  {
    MovedWithin(p, r, i, j);
    ChecksPass(p, ReversedSpan(r, i + 1, j), i, t, c, |r| - 1) && NoPairFrom(prec, i, j, i + 2)
  }

  /** One step of the median loop's precedence update, with Go's order: the
      keys and values are read first, then the four writes happen left to
      right; a missing key reads as 0. */
  function PrecSwap(prec: map<int, int>, i: int, j: int): map<int, int>
  {
    var pi := Get(prec, i);
    var pj := Get(prec, j);
    prec[pi := j][pj := i][j := pi][i := pj]
  }

  /** The precedence updates of the median loop for i = start..k-1. */
  function PrecSwaps(prec: map<int, int>, start: int, end: int, k: int): map<int, int>
    decreases k - start
  {
    if k <= start then prec
    else PrecSwap(PrecSwaps(prec, start, end, k - 1), k - 1, end - (k - 1 - start))
  }

  /** When i and j are paired with distinct partners outside {i, j}, the step
      moves both pairings across: j takes i's partner and i takes j's. */
  lemma {:induction false} PrecSwapRelabels(prec: map<int, int>, i: int, j: int)
    requires i in prec && j in prec && i != j
    requires prec[i] != prec[j] && prec[i] !in {i, j} && prec[j] !in {i, j}
    ensures var q := PrecSwap(prec, i, j);
      q[j] == prec[i] && q[prec[i]] == j && q[i] == prec[j] && q[prec[j]] == i
    ensures forall k :: k in prec && k !in {i, j, prec[i], prec[j]} ==> PrecSwap(prec, i, j)[k] == prec[k]
  {
  }

  /** The clock cache after exchangeGlobalUpdate(iaux, jaux) on the
      reversed route rr: restarted from the cached clock at iaux. */
  function UpdatedTimes(p: Pdptw, rr: seq<int>, iaux: int, times: seq<int>): (u: seq<int>)
    requires RouteOk(p, rr) && 0 <= iaux < |times|
    ensures |u| == |times|
  {
    seq(|times|, k requires 0 <= k < |times| =>
      if iaux < k < |rr| then ClockFrom(p.matrix, p.readyTime, rr, iaux, times[iaux], k) else times[k])
  }

  /** The load cache after exchangeGlobalUpdate(iaux, jaux): the entries
      iaux..|rr|-2 restarted from the cached load at iaux-1 (missing reads
      as 0), the others kept. */
  ghost predicate UpdatedLoads(p: Pdptw, rr: seq<int>, iaux: int, loads: map<int, int>, loads': map<int, int>)
    requires 0 <= iaux
  {
    LoadsRedone(p, rr, iaux, loads, loads', |rr| - 1)
  }

  /** The clock cache of exchangeGlobalUpdate once the positions up to hi
      have been redone. */
  ghost predicate TimesRedone(p: Pdptw, rr: seq<int>, iaux: int, times: seq<int>, u: seq<int>, hi: int)
    requires RouteOk(p, rr) && 0 <= iaux < |times| && hi < |rr|
  {
    |u| == |times|
    && forall k {:trigger u[k]} :: 0 <= k < |u| ==>
         u[k] == if iaux < k <= hi then ClockFrom(p.matrix, p.readyTime, rr, iaux, times[iaux], k) else times[k]
  }

  lemma {:induction false} TimesRedoneStep(p: Pdptw, rr: seq<int>, iaux: int, times: seq<int>, u: seq<int>, i: int, sum: int)
    requires RouteOk(p, rr) && 0 <= iaux <= i && i + 1 < |rr| <= |times|
    requires TimesRedone(p, rr, iaux, times, u, i)
    requires sum == ClockFrom(p.matrix, p.readyTime, rr, iaux, times[iaux], i + 1)
    ensures TimesRedone(p, rr, iaux, times, u[i + 1 := sum], i + 1)
  {
    var u' := u[i + 1 := sum];
    forall k | 0 <= k < |u'|
      ensures u'[k] == if iaux < k <= i + 1 then ClockFrom(p.matrix, p.readyTime, rr, iaux, times[iaux], k) else times[k]
    {
      if k != i + 1 {
        assert u'[k] == u[k];
      }
    }
  }

  lemma {:induction false} TimesRedoneFull(p: Pdptw, rr: seq<int>, iaux: int, times: seq<int>, u: seq<int>)
    requires RouteOk(p, rr) && 0 <= iaux < |rr| <= |times|
    requires TimesRedone(p, rr, iaux, times, u, |rr| - 1)
    ensures u == UpdatedTimes(p, rr, iaux, times)
  {
    var v := UpdatedTimes(p, rr, iaux, times);
    forall k | 0 <= k < |u| ensures u[k] == v[k] {
    }
  }

  /** The load cache of exchangeGlobalUpdate once the positions before hi
      have been redone. */
  ghost predicate LoadsRedone(p: Pdptw, rr: seq<int>, iaux: int, loads: map<int, int>, loads': map<int, int>, hi: int)
    requires 0 <= iaux && hi < |rr|
  {
    (forall k :: k in loads' <==> k in loads || iaux <= k < hi)
    && (forall k :: k in loads' ==>
          loads'[k] == if iaux <= k < hi then LoadFrom(p.demands, rr, iaux, Get(loads, iaux - 1), k + 1) else loads[k])
  }

  lemma {:induction false} LoadsRedoneStep(p: Pdptw, rr: seq<int>, iaux: int, loads: map<int, int>, loads': map<int, int>, i: int, load: int)
    requires 0 <= iaux <= i < |rr| - 1
    requires LoadsRedone(p, rr, iaux, loads, loads', i)
    requires load == LoadFrom(p.demands, rr, iaux, Get(loads, iaux - 1), i + 1)
    ensures LoadsRedone(p, rr, iaux, loads, loads'[i := load], i + 1)
  {
  }

  /** The clock update is exact when it restarts from a true clock: from
      position 1 on, or from position 0 when the route starts at time 0. */
  lemma {:induction false} UpdatedTimesFollow(p: Pdptw, r: seq<int>, times: seq<int>, iaux: int, jaux: int)
    requires RouteOk(p, r) && TimesFollow(p, r, times) && 0 <= iaux < jaux < |r|
    requires iaux >= 1 || p.traveled == 0
    ensures RouteOk(p, ReversedSpan(r, iaux + 1, jaux))
    ensures TimesFollow(p, ReversedSpan(r, iaux + 1, jaux), UpdatedTimes(p, ReversedSpan(r, iaux + 1, jaux), iaux, times))
  {
    var rr := ReversedSpan(r, iaux + 1, jaux);
    MovedWithin(p, r, iaux, jaux);
    var u := UpdatedTimes(p, rr, iaux, times);
    TimeAtPrefix(p.matrix, p.readyTime, r, rr, p.traveled, iaux);
    assert times[iaux] == TimeAt(p.matrix, p.readyTime, rr, p.traveled, iaux);
    forall k | 1 <= k < |rr|
      ensures u[k] == TimeAt(p.matrix, p.readyTime, rr, p.traveled, k)
    {
      if k > iaux {
        ClockFromTimeAt(p.matrix, p.readyTime, rr, p.traveled, iaux, k);
      } else {
        TimeAtPrefix(p.matrix, p.readyTime, r, rr, p.traveled, k);
      }
    }
  }

  /** The load update is exact from position 1 on, or from position 0 when
      the route starts empty. */
  lemma {:induction false} UpdatedLoadsFollow(p: Pdptw, r: seq<int>, loads: map<int, int>, loads': map<int, int>, iaux: int, jaux: int)
    requires LoadsFollow(p, r, loads) && 0 <= iaux < jaux < |r|
    requires UpdatedLoads(p, ReversedSpan(r, iaux + 1, jaux), iaux, loads, loads')
    requires iaux >= 1 || p.carrying == 0
    ensures LoadsFollow(p, ReversedSpan(r, iaux + 1, jaux), loads')
  {
    var rr := ReversedSpan(r, iaux + 1, jaux);
    LoadPrefix(p.demands, r, rr, p.carrying, iaux);
    assert Get(loads, iaux - 1) == Load(p.demands, rr, p.carrying, iaux);
    forall k | 0 <= k < |rr| - 1
      ensures loads'[k] == Load(p.demands, rr, p.carrying, k + 1)
    {
      if k >= iaux {
        LoadFromLoad(p.demands, rr, p.carrying, iaux, k + 1);
      } else {
        LoadPrefix(p.demands, r, rr, p.carrying, k + 1);
      }
    }
  }

  /** With the start load under key -1, where calcGlobals has no entry
      and a lookup reads 0, every entry from -1 on holds the load after
      serving that position (the start load for -1). */
  ghost predicate SeededLoads(p: Pdptw, r: seq<int>, loads: map<int, int>)
  {
    forall k {:trigger Get(loads, k)} :: -1 <= k < |r| - 1 ==> Get(loads, k) == Load(p.demands, r, p.carrying, k + 1)
  }

  /** The calcGlobals load cache with the start load under key -1. */
  lemma {:induction false} SeededLoadsExact(p: Pdptw, r: seq<int>, loads: map<int, int>)
    requires LoadsFollow(p, r, loads)
    ensures SeededLoads(p, r, loads[-1 := p.carrying])
  {
    var m := loads[-1 := p.carrying];
    forall k | -1 <= k < |r| - 1 ensures Get(m, k) == Load(p.demands, r, p.carrying, k + 1) {
      if k >= 0 {
        assert Get(m, k) == loads[k];
      }
    }
  }

  /** The clock update keeps a clock cache that holds the true clock at
      every position, position 0 included, exact for every start position
      iaux and every start time. */
  lemma {:induction false} UpdatedTimesExact(p: Pdptw, r: seq<int>, times: seq<int>, iaux: int, jaux: int)
    requires RouteOk(p, r) && ClockExact(p, r, times) && 0 <= iaux < jaux < |r|
    ensures RouteOk(p, ReversedSpan(r, iaux + 1, jaux))
    ensures ClockExact(p, ReversedSpan(r, iaux + 1, jaux), UpdatedTimes(p, ReversedSpan(r, iaux + 1, jaux), iaux, times))
  {
    var rr := ReversedSpan(r, iaux + 1, jaux);
    MovedWithin(p, r, iaux, jaux);
    var u := UpdatedTimes(p, rr, iaux, times);
    TimeAtPrefix(p.matrix, p.readyTime, r, rr, p.traveled, iaux);
    assert times[iaux] == TimeAt(p.matrix, p.readyTime, rr, p.traveled, iaux);
    forall k | 0 <= k < |rr|
      ensures u[k] == TimeAt(p.matrix, p.readyTime, rr, p.traveled, k)
    {
      if k > iaux {
        ClockFromTimeAt(p.matrix, p.readyTime, rr, p.traveled, iaux, k);
      } else {
        TimeAtPrefix(p.matrix, p.readyTime, r, rr, p.traveled, k);
      }
    }
  }

  /** The load update keeps a seeded load cache exact for every start
      position iaux: the restart entry iaux - 1 is -1 at worst, which holds
      the start load. */
  lemma {:induction false} UpdatedLoadsSeeded(p: Pdptw, r: seq<int>, loads: map<int, int>, loads': map<int, int>, iaux: int, jaux: int)
    requires SeededLoads(p, r, loads) && 0 <= iaux < jaux < |r|
    requires UpdatedLoads(p, ReversedSpan(r, iaux + 1, jaux), iaux, loads, loads')
    ensures SeededLoads(p, ReversedSpan(r, iaux + 1, jaux), loads')
  {
    var rr := ReversedSpan(r, iaux + 1, jaux);
    LoadPrefix(p.demands, r, rr, p.carrying, iaux);
    assert Get(loads, iaux - 1) == Load(p.demands, rr, p.carrying, iaux);
    forall k | -1 <= k < |rr| - 1
      ensures Get(loads', k) == Load(p.demands, rr, p.carrying, k + 1)
    {
      if k >= iaux {
        LoadFromLoad(p.demands, rr, p.carrying, iaux, k + 1);
      } else {
        assert Get(loads', k) == Get(loads, k);
        LoadPrefix(p.demands, r, rr, p.carrying, k + 1);
      }
    }
  }

  /** The as-written load update from position 0 loses a non-zero start
      load: it restarts from the missing entry -1, which reads 0, so the
      entry it writes for position 0 misses the start load. */
  lemma {:induction false} ZeroStartLoadDrifts(p: Pdptw, r: seq<int>, loads: map<int, int>, loads': map<int, int>, jaux: int)
    requires LoadsFollow(p, r, loads) && 0 < jaux < |r|
    requires UpdatedLoads(p, ReversedSpan(r, 1, jaux), 0, loads, loads')
    requires p.carrying != 0
    ensures !LoadsFollow(p, ReversedSpan(r, 1, jaux), loads')
  {
    var rr := ReversedSpan(r, 1, jaux);
    assert Get(loads, -1) == 0;
    assert loads'[0] == LoadFrom(p.demands, rr, 0, 0, 1) == Get(p.demands, rr[0]);
    assert Load(p.demands, rr, p.carrying, 1) == p.carrying + Get(p.demands, rr[0]);
  }

  /** The as-written caches let the span objective take a move that
      misses a due date when the route does not start at time 0: on
      LateStart with route 0 1 2 3, the move (0, 2) is profitable against
      the cached clocks 13 at 3 and 0 at 0, isFeasible accepts it from the
      cached 0, and the reversed route 0 2 1 3 reaches node 1 at 12, after
      its due date 11, although the route met every due date. */
  lemma {:induction false} ZeroStartTakesLate()
    ensures RouteOk(LateStart(), LateRoute) && AllWindowsOk(LateStart(), LateRoute)
    ensures TimesFollow(LateStart(), LateRoute, LateTimes) && LoadsFollow(LateStart(), LateRoute, LateLoads)
    ensures CoreObjective.ProfitableArgs(CoreObjective.SpanTime, LateStart(), LateRoute, 0, 2, [LateTimes[3], LateTimes[0]])
    ensures CoreObjective.Profitable(CoreObjective.SpanTime, LateStart(), LateRoute, 0, 2, [LateTimes[3], LateTimes[0]])
    ensures TwoOptFeasible(LateStart(), LateRoute, LateTimes[0], Get(LateLoads, 0), PrecOf(LateStart(), LateRoute), 0, 2)
    ensures RouteOk(LateStart(), ReversedSpan(LateRoute, 1, 2)) && !AllWindowsOk(LateStart(), ReversedSpan(LateRoute, 1, 2))
  {
    LateStartCaches();
    LateWindows();
    LateProfitable();
    LateFeasible();
  }

  lemma {:induction false} LateWindows()
    ensures RouteOk(LateStart(), LateRoute) && AllWindowsOk(LateStart(), LateRoute)
    ensures RouteOk(LateStart(), ReversedSpan(LateRoute, 1, 2)) && !AllWindowsOk(LateStart(), ReversedSpan(LateRoute, 1, 2))
  {
    var p := LateStart();
    var r := LateRoute;
    assert TimeAt(p.matrix, p.readyTime, r, 10, 1) == 11;
    assert TimeAt(p.matrix, p.readyTime, r, 10, 2) == 12;
    assert TimeAt(p.matrix, p.readyTime, r, 10, 3) == 13;
    assert Load(p.demands, r, 0, 3) == 0;
    assert WindowOk(p, r, 1) && WindowOk(p, r, 2) && WindowOk(p, r, 3);
    var rr := ReversedSpan(r, 1, 2);
    assert rr == [0, 2, 1, 3];
    assert TimeAt(p.matrix, p.readyTime, rr, 10, 1) == 11;
    assert TimeAt(p.matrix, p.readyTime, rr, 10, 2) == 12;
    assert !WindowOk(p, rr, 2);
  }

  lemma {:induction false} LateProfitable()
    ensures CoreObjective.ProfitableArgs(CoreObjective.SpanTime, LateStart(), LateRoute, 0, 2, [LateTimes[3], LateTimes[0]])
    ensures CoreObjective.Profitable(CoreObjective.SpanTime, LateStart(), LateRoute, 0, 2, [LateTimes[3], LateTimes[0]])
  {
    var p := LateStart();
    var r := LateRoute;
    assert CoreObjective.BackWalk(p, r, 1, 2, 1) == 2;
    assert CoreObjective.SpanProfit(p, r, 0, 2, 0) == 3;
  }

  lemma {:induction false} LateFeasible()
    ensures RouteOk(LateStart(), LateRoute)
    ensures TwoOptFeasible(LateStart(), LateRoute, LateTimes[0], Get(LateLoads, 0), PrecOf(LateStart(), LateRoute), 0, 2)
  {
    LateStartCaches();
    var p := LateStart();
    var r := LateRoute;
    var rr := ReversedSpan(r, 1, 2);
    assert rr == [0, 2, 1, 3];
    MovedWithin(p, r, 0, 2);
    assert ClockFrom(p.matrix, p.readyTime, rr, 0, 0, 1) == 1;
    assert ClockFrom(p.matrix, p.readyTime, rr, 0, 0, 2) == 2;
    assert ClockFrom(p.matrix, p.readyTime, rr, 0, 0, 3) == 3;
    assert LoadFrom(p.demands, rr, 1, 0, 3) == 0;
    assert ChecksPass(p, rr, 0, 0, 0, 3);
  }

  /** Position x of route rr is reached by its due date, and the load after
      serving the position before it is within capacity. */
  ghost predicate WindowOk(p: Pdptw, rr: seq<int>, x: int)
    requires RouteOk(p, rr) && 0 <= x < |rr|
  {
    TimeAt(p.matrix, p.readyTime, rr, p.traveled, x) <= p.dueDate[rr[x]] && Load(p.demands, rr, p.carrying, x) <= p.capacity
  }

  /** Every position after i passes WindowOk. */
  ghost predicate WindowsAfter(p: Pdptw, rr: seq<int>, i: int)
    requires RouteOk(p, rr) && 0 <= i
  {
    WindowsBetween(p, rr, i, |rr| - 1)
  }

  /** Every position i+1..q passes WindowOk. */
  ghost predicate WindowsBetween(p: Pdptw, rr: seq<int>, i: int, q: int)
    requires RouteOk(p, rr) && 0 <= i && q < |rr|
  {
    forall x :: i < x <= q ==> WindowOk(p, rr, x)
  }

  /** Restarted from the true clock and load at i, the checks follow the
      route's own clock and load. */
  lemma {:induction false} ChecksPassFollowClock(p: Pdptw, rr: seq<int>, i: int, q: int)
    requires RouteOk(p, rr) && 0 <= i <= q < |rr|
    ensures ChecksPass(p, rr, i, TimeAt(p.matrix, p.readyTime, rr, p.traveled, i), Load(p.demands, rr, p.carrying, i + 1), q)
      <==> WindowsBetween(p, rr, i, q)
    decreases q
  {
    if q > i {
      ChecksPassFollowClock(p, rr, i, q - 1);
      ClockFromTimeAt(p.matrix, p.readyTime, rr, p.traveled, i, q);
      LoadFromLoad(p.demands, rr, p.carrying, i + 1, q);
      assert WindowsBetween(p, rr, i, q) <==> WindowsBetween(p, rr, i, q - 1) && WindowOk(p, rr, q);
    }
  }

  /** Routes r and rr agree on their first i+1 positions. */
  ghost predicate SamePrefix(r: seq<int>, rr: seq<int>, i: int)
  {
    0 <= i < |r| && i < |rr| && forall l {:trigger rr[l]} :: 0 <= l <= i ==> r[l] == rr[l]
  }

  /** The first i+1 positions of the reversed route are those of the route. */
  lemma {:induction false} ReversedKeepsPrefix(r: seq<int>, i: int, j: int)
    requires 0 <= i && i + 1 <= j < |r|
    ensures SamePrefix(r, ReversedSpan(r, i + 1, j), i)
  {
  }

  /** Checks started from the clock and load of a route rr shares its first
      i+1 positions with are the checks of rr's own clock and load. */
  lemma {:induction false} ChecksPassFromPrefix(p: Pdptw, r: seq<int>, rr: seq<int>, i: int)
    requires RouteOk(p, r) && RouteOk(p, rr) && 0 <= i < |r| == |rr| && SamePrefix(r, rr, i)
    ensures ChecksPass(p, rr, i, TimeAt(p.matrix, p.readyTime, r, p.traveled, i), Load(p.demands, r, p.carrying, i + 1), |rr| - 1)
      <==> WindowsAfter(p, rr, i)
  {
    var t := TimeAt(p.matrix, p.readyTime, r, p.traveled, i);
    var c := Load(p.demands, r, p.carrying, i + 1);
    TimeAtPrefix(p.matrix, p.readyTime, r, rr, p.traveled, i);
    LoadPrefix(p.demands, r, rr, p.carrying, i + 1);
    assert t == TimeAt(p.matrix, p.readyTime, rr, p.traveled, i);
    assert c == Load(p.demands, rr, p.carrying, i + 1);
    ChecksPassFollowClock(p, rr, i, |rr| - 1);
  }

  /** ChecksPassFromPrefix for the route with r[i+1..j] reversed, which
      shares r's first i+1 positions. */
  lemma {:induction false} ReversedChecksFromPrefix(p: Pdptw, r: seq<int>, i: int, j: int)
    requires RouteOk(p, r) && 0 <= i && i + 1 <= j < |r|
    ensures RouteOk(p, ReversedSpan(r, i + 1, j))
    ensures var rr := ReversedSpan(r, i + 1, j);
      ChecksPass(p, rr, i, TimeAt(p.matrix, p.readyTime, r, p.traveled, i), Load(p.demands, r, p.carrying, i + 1), |rr| - 1)
      <==> WindowsAfter(p, rr, i)
  {
    MovedWithin(p, r, i, j);
    ReversedKeepsPrefix(r, i, j);
    ChecksPassFromPrefix(p, r, ReversedSpan(r, i + 1, j), i);
  }

  /** With the true clock and load at i (what caches that follow the route
      hold from position 1 on), the 2-opt feasibility test is exact for
      everything after i: it holds exactly when the reversed route reaches
      every later position by its due date, never exceeds the capacity after
      i, and no cached pair lies inside the segment. */
  lemma {:induction false} TwoOptFeasibleIffWindows(p: Pdptw, r: seq<int>, prec: map<int, int>, i: int, j: int)
    requires RouteOk(p, r) && 0 <= i && i + 1 <= j < |r|
    ensures RouteOk(p, ReversedSpan(r, i + 1, j))
    ensures TwoOptFeasible(p, r, TimeAt(p.matrix, p.readyTime, r, p.traveled, i), Load(p.demands, r, p.carrying, i + 1), prec, i, j)
      <==> WindowsAfter(p, ReversedSpan(r, i + 1, j), i) && NoPairFrom(prec, i, j, i + 2)
  {
    ReversedChecksFromPrefix(p, r, i, j);
  }

  /** One more position of the checks: the clock steps on, the load adds the
      demand of the position left, and the checks pass when they passed
      before and the new position passes. */
  lemma {:induction false} CheckStep(p: Pdptw, rr: seq<int>, i: int, t: int, c: int, q: int)
    requires RouteOk(p, rr) && 0 <= i <= q && q + 1 < |rr|
    ensures ClockFrom(p.matrix, p.readyTime, rr, i, t, q + 1)
      == Step(p.matrix, p.readyTime, ClockFrom(p.matrix, p.readyTime, rr, i, t, q), rr[q], rr[q + 1])
    ensures LoadFrom(p.demands, rr, i + 1, c, q + 1)
      == if q == i then c else LoadFrom(p.demands, rr, i + 1, c, q) + Get(p.demands, rr[q])
    ensures ChecksPass(p, rr, i, t, c, q + 1)
      <==> ChecksPass(p, rr, i, t, c, q)
           && ClockFrom(p.matrix, p.readyTime, rr, i, t, q + 1) <= p.dueDate[rr[q + 1]]
           && LoadFrom(p.demands, rr, i + 1, c, q + 1) <= p.capacity
  {
  }

  /** One step of the scans from position q to q+1, stated on the values
      the loop holds: the new clock and load, when the step passes the
      checks up to q+1 pass, and when it fails no longer range passes. */
  lemma {:induction false} ScanStep(p: Pdptw, rr: seq<int>, i: int, t: int, c: int, q: int, last: int, sum: int, load: int)
    requires RouteOk(p, rr) && 0 <= i < q && q + 1 <= last < |rr|
    requires sum == ClockFrom(p.matrix, p.readyTime, rr, i, t, q)
    requires load == LoadFrom(p.demands, rr, i + 1, c, q)
    requires ChecksPass(p, rr, i, t, c, q)
    ensures Step(p.matrix, p.readyTime, sum, rr[q], rr[q + 1]) == ClockFrom(p.matrix, p.readyTime, rr, i, t, q + 1)
    ensures load + Get(p.demands, rr[q]) == LoadFrom(p.demands, rr, i + 1, c, q + 1)
    ensures Step(p.matrix, p.readyTime, sum, rr[q], rr[q + 1]) <= p.dueDate[rr[q + 1]]
      && load + Get(p.demands, rr[q]) <= p.capacity
      ==> ChecksPass(p, rr, i, t, c, q + 1)
    ensures ChecksPass(p, rr, i, t, c, last)
      ==> Step(p.matrix, p.readyTime, sum, rr[q], rr[q + 1]) <= p.dueDate[rr[q + 1]]
          && load + Get(p.demands, rr[q]) <= p.capacity
  {
    CheckStep(p, rr, i, t, c, q);
    ChecksPassShrink(p, rr, i, t, c, q + 1, last);
  }

  /** The reversed route position by position: the prefix up to i and the
      suffix after j stay, position q of the segment holds r[i+1+j-q]. */
  lemma {:induction false} ReversedView(p: Pdptw, r: seq<int>, i: int, j: int) returns (rr: seq<int>)
    requires RouteOk(p, r) && 0 <= i && i + 1 <= j < |r|
    ensures rr == ReversedSpan(r, i + 1, j) && RouteOk(p, rr) && |rr| == |r|
    ensures forall l :: 0 <= l <= i ==> rr[l] == r[l]
    ensures forall q :: i + 1 <= q <= j ==> rr[q] == r[i + 1 + j - q]
    ensures forall x :: j < x < |r| ==> rr[x] == r[x]
    ensures forall t, c, prec :: TwoOptFeasible(p, r, t, c, prec, i, j) <==> ChecksPass(p, rr, i, t, c, |r| - 1) && NoPairFrom(prec, i, j, i + 2)
  {
    MovedWithin(p, r, i, j);
    rr := ReversedSpan(r, i + 1, j);
  }

  /** Every position after the start is reached by its due date with the
      load before it within capacity: what the time and load checks of
      isFeasible ask of a whole route. */
  ghost predicate AllWindowsOk(p: Pdptw, r: seq<int>)
    requires RouteOk(p, r)
  {
    forall q :: 0 < q < |r| ==> WindowOk(p, r, q)
  }

  /** A move the objective finds profitable never makes the route costlier:
      for the span objective when the caches hold the true clock from time
      0, for the total-time objectives when the matrix is symmetric. */
  lemma {:induction false} MoveNotCostlier(o: CoreObjective.Objective, p: Pdptw, r: seq<int>, times: seq<int>, i: int, j: int)
    requires RouteOk(p, r) && |r| == p.numNodes && |times| == |r|
    requires 0 <= i && i + 2 <= j && j + 1 < |r|
    requires CoreObjective.ProfitableArgs(o, p, r, i, j, [times[j + 1], times[i]])
    requires CoreObjective.Profitable(o, p, r, i, j, [times[j + 1], times[i]])
    requires Improving(o, p) && (o == CoreObjective.SpanTime ==> ClockExact(p, r, times))
    ensures RouteOk(p, ReversedSpan(r, i + 1, j))
    ensures CoreObjective.Cost(o, p, ReversedSpan(r, i + 1, j)) <= CoreObjective.Cost(o, p, r)
  {
    var rr := ReversedSpan(r, i + 1, j);
    MovedWithin(p, r, i, j);
    if o == CoreObjective.SpanTime {
      assert times[i] == TimeAt(p.matrix, p.readyTime, r, 0, i);
      CoreObjective.SpanProfitableIffEarlier(p, r, 0, i, j);
      ClockCatchesUp(p.matrix, p.readyTime, r, rr, 0, j + 1, |r| - 1);
    } else {
      CoreObjective.TotalProfitableIffShorter(p, r, i, j, [times[j + 1], times[i]]);
    }
  }

  /** A move isFeasible accepts, tested against caches that hold the true
      clock and load, keeps every time window and the capacity: the
      positions up to i keep their clock and load, the later ones pass the
      test. */
  lemma {:induction false} MoveKeepsWindows(p: Pdptw, r: seq<int>, prec: map<int, int>, i: int, j: int)
    requires RouteOk(p, r) && AllWindowsOk(p, r) && 0 <= i && i + 1 <= j < |r|
    requires TwoOptFeasible(p, r, TimeAt(p.matrix, p.readyTime, r, p.traveled, i), Load(p.demands, r, p.carrying, i + 1), prec, i, j)
    ensures RouteOk(p, ReversedSpan(r, i + 1, j)) && AllWindowsOk(p, ReversedSpan(r, i + 1, j))
  {
    var rr := ReversedSpan(r, i + 1, j);
    TwoOptFeasibleIffWindows(p, r, prec, i, j);
    forall q | 0 < q <= i ensures WindowOk(p, rr, q) {
      assert WindowOk(p, r, q);
      TimeAtPrefix(p.matrix, p.readyTime, r, rr, p.traveled, q);
      LoadPrefix(p.demands, r, rr, p.carrying, q);
    }
  }

  /** The objectives whose 2-opt test is exact: the span objective when the
      instance starts at time 0, the total-time objectives on a symmetric
      matrix. */
  ghost predicate Improving(o: CoreObjective.Objective, p: Pdptw)
    requires WellFormed(p)
  {
    if o == CoreObjective.SpanTime then p.traveled == 0 else CoreObjective.Symmetric(p.matrix)
  }

  /** What process keeps on route r with caches times and loads, started
      from route r0: the same nodes with the same start, caches that hold
      the true clock at every position and the true load from key -1 on, a
      cost no higher than at the start when the objective's test is exact,
      and every time window and the capacity kept. */
  ghost predicate Kept(o: CoreObjective.Objective, p: Pdptw, r0: seq<int>, r: seq<int>, times: seq<int>, loads: map<int, int>)
  {
    RouteOk(p, r0) && RouteOk(p, r) && SameNodes(r, r0) && |times| == |r| == p.numNodes
    && ClockExact(p, r, times) && SeededLoads(p, r, loads)
    && (Improving(o, p) ==> CoreObjective.Cost(o, p, r) <= CoreObjective.Cost(o, p, r0))
    && (AllWindowsOk(p, r0) ==> AllWindowsOk(p, r))
  }

  /** A move that the objective finds profitable and isFeasible accepts,
      applied by exchangeGlobalUpdate, keeps what process tracks. */
  lemma {:induction false} MoveKeeps(o: CoreObjective.Objective, p: Pdptw, r0: seq<int>, r: seq<int>, times: seq<int>,
                  loads: map<int, int>, prec: map<int, int>, loads': map<int, int>, i: int, j: int)
    requires Kept(o, p, r0, r, times, loads) && 0 <= i && i + 2 <= j < |r| - 1
    requires CoreObjective.ProfitableArgs(o, p, r, i, j, [times[j + 1], times[i]])
    requires CoreObjective.Profitable(o, p, r, i, j, [times[j + 1], times[i]])
    requires TwoOptFeasible(p, r, times[i], Get(loads, i), prec, i, j)
    requires UpdatedLoads(p, ReversedSpan(r, i + 1, j), i, loads, loads')
    ensures RouteOk(p, ReversedSpan(r, i + 1, j))
    ensures Kept(o, p, r0, ReversedSpan(r, i + 1, j), UpdatedTimes(p, ReversedSpan(r, i + 1, j), i, times), loads')
  {
    var rr := ReversedSpan(r, i + 1, j);
    MovedWithin(p, r, i, j);
    var u := UpdatedTimes(p, rr, i, times);
    if Improving(o, p) {
      MoveNotCostlier(o, p, r, times, i, j);
    }
    assert Improving(o, p) ==> CoreObjective.Cost(o, p, rr) <= CoreObjective.Cost(o, p, r0);
    if AllWindowsOk(p, r0) {
      ExactMoveKeepsWindows(p, r, times, loads, prec, i, j);
    }
    assert AllWindowsOk(p, r0) ==> AllWindowsOk(p, rr);
    UpdatedCachesExact(p, r, times, loads, loads', i, j);
    KeptAfterMove(o, p, r0, r, u, loads', i, j);
  }

  /** Kept after the move (i, j) from its parts; the reversal keeps the
      nodes and the start. */
  lemma {:induction false} KeptAfterMove(o: CoreObjective.Objective, p: Pdptw, r0: seq<int>, r: seq<int>, u: seq<int>,
                                        loads': map<int, int>, i: int, j: int)
    requires RouteOk(p, r0) && RouteOk(p, r) && SameNodes(r, r0) && 0 <= i && i + 1 <= j < |r| && |u| == |r| == p.numNodes
    requires RouteOk(p, ReversedSpan(r, i + 1, j))
    requires ClockExact(p, ReversedSpan(r, i + 1, j), u) && SeededLoads(p, ReversedSpan(r, i + 1, j), loads')
    requires Improving(o, p) ==> CoreObjective.Cost(o, p, ReversedSpan(r, i + 1, j)) <= CoreObjective.Cost(o, p, r0)
    requires AllWindowsOk(p, r0) ==> AllWindowsOk(p, ReversedSpan(r, i + 1, j))
    ensures Kept(o, p, r0, ReversedSpan(r, i + 1, j), u, loads')
  {
    ReversedSameNodes(r, r0, i + 1, j, p.numNodes);
  }

  /** Both cache updates of exchangeGlobalUpdate keep exact caches exact. */
  lemma {:induction false} UpdatedCachesExact(p: Pdptw, r: seq<int>, times: seq<int>, loads: map<int, int>, loads': map<int, int>, i: int, j: int)
    requires RouteOk(p, r) && ClockExact(p, r, times) && SeededLoads(p, r, loads) && 0 <= i < j < |r|
    requires UpdatedLoads(p, ReversedSpan(r, i + 1, j), i, loads, loads')
    ensures RouteOk(p, ReversedSpan(r, i + 1, j))
    ensures ClockExact(p, ReversedSpan(r, i + 1, j), UpdatedTimes(p, ReversedSpan(r, i + 1, j), i, times))
    ensures SeededLoads(p, ReversedSpan(r, i + 1, j), loads')
  {
    UpdatedTimesExact(p, r, times, i, j);
    UpdatedLoadsSeeded(p, r, loads, loads', i, j);
  }

  /** MoveKeepsWindows for the test fed from caches that hold the true
      clock and load at i. */
  lemma {:induction false} ExactMoveKeepsWindows(p: Pdptw, r: seq<int>, times: seq<int>, loads: map<int, int>, prec: map<int, int>, i: int, j: int)
    requires RouteOk(p, r) && AllWindowsOk(p, r) && ClockExact(p, r, times) && SeededLoads(p, r, loads)
    requires 0 <= i && i + 1 <= j < |r| - 1
    requires TwoOptFeasible(p, r, times[i], Get(loads, i), prec, i, j)
    ensures RouteOk(p, ReversedSpan(r, i + 1, j)) && AllWindowsOk(p, ReversedSpan(r, i + 1, j))
  {
    assert times[i] == TimeAt(p.matrix, p.readyTime, r, p.traveled, i);
    assert Get(loads, i) == Load(p.demands, r, p.carrying, i + 1);
    MoveKeepsWindows(p, r, prec, i, j);
  }

  /** The local2Opt struct: its three caches and the objective. */
  class Local2Opt {
    var traveled: array<int>
    var precedence: map<int, int>
    var carrying: map<int, int>
    const objective: CoreObjective.Objective

    /** local2Opt{objective: o}: the caches start empty. */
    constructor (objective: CoreObjective.Objective)
      ensures this.objective == objective && traveled.Length == 0
      ensures precedence == map[] && carrying == map[]
    {
      this.objective := objective;
      traveled := new int[0];
      precedence := map[];
      carrying := map[];
    }

    /** The caches are those calcGlobals computes for s. */
    ghost predicate Follows(s: Solution)
      reads this, traveled, s, s.route
    {
      s.Valid() && traveled.Length == s.tsp.numNodes && traveled != s.route
      && TimesFollow(s.tsp, s.route[..], traveled[..])
      && LoadsFollow(s.tsp, s.route[..], carrying)
    }

    /** What process keeps while it works on s, started from route r0. */
    ghost predicate Tracks(s: Solution, r0: seq<int>)
      reads this, traveled, s, s.route
    {
      s.Valid() && traveled.Length == s.tsp.numNodes == s.route.Length && traveled != s.route
      && Kept(objective, s.tsp, r0, s.route[..], traveled[..], carrying)
    }

    /** process(s): draw a start position i from the candidate set; for
        j = i+2, i+3, .. take the first move the objective finds profitable;
        if isFeasible accepts it, apply it with exchangeGlobalUpdate and
        refill the candidate set, otherwise drop i from the set. The
        receiver is a value in the source, so the caches live in a copy:
        here a fresh Local2Opt. At most fuel moves are applied; a further
        accepted move ends the search instead. The caches are seeded with
        the start time and load after calcGlobals (SeedStart), which the
        source does not do. */
    method Process(s: Solution, fuel: nat)
      requires s.Valid() && s.route.Length == s.tsp.numNodes && s.tsp.numNodes >= 2
      modifies s.route
      ensures s.Valid() && SameNodes(s.route[..], old(s.route[..]))
      ensures Improving(objective, s.tsp)
        ==> CoreObjective.Cost(objective, s.tsp, s.route[..]) <= CoreObjective.Cost(objective, s.tsp, old(s.route[..]))
      ensures AllWindowsOk(s.tsp, old(s.route[..])) ==> AllWindowsOk(s.tsp, s.route[..])
    {
      ghost var r0 := s.route[..];
      var numNodes := s.tsp.numNodes;
      var pointer := numNodes - 2;
      var cands: seq<int> := [];
      while |cands| < pointer
        invariant |cands| <= pointer && forall y :: 0 <= y < |cands| ==> cands[y] == y
      {
        cands := cands + [|cands|];
      }
      var c := Prepared(objective, s);
      var budget := fuel;
      while pointer > 0
        invariant 0 <= pointer <= numNodes - 2 == |cands| && fresh(c) && fresh(c.traveled)
        invariant forall y :: 0 <= y < |cands| ==> 0 <= cands[y] < numNodes - 2
        invariant c.objective == objective && c.Tracks(s, r0)
        decreases budget, pointer
      {
        var pos := Random(0, pointer);
        var i := cands[pos];
        var accepted, j := c.TryStart(s, r0, i, budget);
        if accepted {
          if budget == 0 {
            return;
          }
          pointer := numNodes - 2;
          budget := budget - 1;
        } else {
          pointer := pointer - 1;
          cands := cands[pointer := i][pos := cands[pointer]];
        }
      }
    }

    /** The copy process works with: calcGlobals' caches for s, seeded
        with the start time and load. */
    static method Prepared(objective: CoreObjective.Objective, s: Solution) returns (c: Local2Opt)
      requires s.Valid() && s.route.Length == s.tsp.numNodes >= 2
      ensures fresh(c) && fresh(c.traveled) && c.objective == objective && c.Tracks(s, s.route[..])
    {
      c := new Local2Opt(objective);
      c.CalcGlobals(s);
      c.SeedStart(s);
    }

    /** One round of process's loop for start position i: the first move
        (i, j) the objective finds profitable, applied when isFeasible
        accepts it and the move budget is not spent. */
    method TryStart(s: Solution, ghost r0: seq<int>, i: int, budget: nat) returns (accepted: bool, j: int)
      requires Tracks(s, r0) && 0 <= i < s.tsp.numNodes - 2
      modifies s.route, this, traveled
      ensures traveled == old(traveled) && Tracks(s, r0)
      ensures accepted && budget > 0 ==>
        i + 2 <= j < s.tsp.numNodes - 1 && s.route[..] == ReversedSpan(old(s.route[..]), i + 1, j)
      ensures !(accepted && budget > 0) ==> s.route[..] == old(s.route[..])
    {
      var found, ok;
      found, j, ok := FirstProfitable(s, i);
      accepted := found && ok;
      if accepted && budget > 0 {
        Apply(s, r0, i, j);
      }
    }

    /** The objective's test of the move (i, j), fed with the cached clocks
        at j+1 and i as process does. */
    ghost predicate ProfitableMove(s: Solution, i: int, j: int)
      reads this, traveled, s, s.route
      requires s.Valid() && 0 <= i < traveled.Length && 0 <= j + 1 < traveled.Length
    {
      CoreObjective.ProfitableArgs(objective, s.tsp, s.route[..], i, j, [traveled[j + 1], traveled[i]])
      && CoreObjective.Profitable(objective, s.tsp, s.route[..], i, j, [traveled[j + 1], traveled[i]])
    }

    /** The inner loop of process: the first j from i+2 on for which the
        objective finds the move (i, j) profitable, with isFeasible's verdict
        on it; found is false when no j up to numNodes-2 is profitable. */
    method FirstProfitable(s: Solution, i: int) returns (found: bool, j: int, ok: bool)
      requires s.Valid() && s.route.Length == s.tsp.numNodes == traveled.Length && 0 <= i < s.tsp.numNodes - 2
      ensures found ==> i + 2 <= j < s.tsp.numNodes - 1
      ensures found ==> ProfitableMove(s, i, j)
      ensures found ==> ok == TwoOptFeasible(s.tsp, s.route[..], traveled[i], Get(carrying, i), precedence, i, j)
      ensures forall j' :: i + 2 <= j' < s.tsp.numNodes - 1 && (!found || j' < j) ==> !ProfitableMove(s, i, j')
    {
      var numNodes := s.tsp.numNodes;
      found, ok := false, false;
      j := i + 2;
      while j < numNodes - 1
        invariant i + 2 <= j <= numNodes - 1
        invariant forall j' :: i + 2 <= j' < j ==> !ProfitableMove(s, i, j')
      {
        found := CoreObjective.IsProfitable(objective, s, i, j, [traveled[j + 1], traveled[i]]);
        if found {
          ok := IsFeasible(s, i, j);
          return;
        }
        j := j + 1;
      }
    }

    /** One accepted move of process: exchangeGlobalUpdate(s, i, j), which
        keeps what process tracks. */
    method Apply(s: Solution, ghost r0: seq<int>, i: int, j: int)
      requires Tracks(s, r0) && 0 <= i && i + 2 <= j < s.tsp.numNodes - 1
      requires ProfitableMove(s, i, j)
      requires TwoOptFeasible(s.tsp, s.route[..], traveled[i], Get(carrying, i), precedence, i, j)
      modifies s.route, this, traveled
      ensures traveled == old(traveled) && Tracks(s, r0)
      ensures s.route[..] == ReversedSpan(old(s.route[..]), i + 1, j)
    {
      ghost var r := s.route[..];
      ghost var T := traveled[..];
      ghost var C := carrying;
      ghost var P := precedence;
      ExchangeGlobalUpdate(s, i, j);
      MoveKeeps(objective, s.tsp, r0, r, T, C, P, carrying, i, j);
    }

    /** calcGlobals(s): the same loop as Solution.calcGlobals, writing the
        three caches. */
    method CalcGlobals(s: Solution)
      requires s.Valid() && 0 < s.route.Length <= s.tsp.numNodes
      modifies this
      ensures fresh(traveled) && Follows(s)
      ensures precedence == PrecOf(s.tsp, s.route[..])
    {
      traveled, carrying, precedence := s.CalcGlobals();
    }

    /** The start time written at position 0 of the clock cache and the
        start load under key -1 of the load cache, where calcGlobals leaves
        0 and no entry: both caches then hold the true clock and load for
        every start, and the restarts of isFeasible and exchangeGlobalUpdate
        at position 0 read them. */
    method SeedStart(s: Solution)
      requires s.Valid() && 0 < s.route.Length <= traveled.Length && traveled != s.route
      modifies this, traveled
      ensures traveled == old(traveled) && precedence == old(precedence)
      ensures traveled[..] == old(traveled[..])[0 := s.tsp.traveled] && carrying == old(carrying)[-1 := s.tsp.carrying]
      ensures TimesFollow(s.tsp, s.route[..], old(traveled[..])) ==> ClockExact(s.tsp, s.route[..], traveled[..])
      ensures LoadsFollow(s.tsp, s.route[..], old(carrying)) ==> SeededLoads(s.tsp, s.route[..], carrying)
    {
      ghost var T := traveled[..];
      ghost var C := carrying;
      traveled[0] := s.tsp.traveled;
      carrying := carrying[-1 := s.tsp.carrying];
      if TimesFollow(s.tsp, s.route[..], T) {
        SeededCachesExact(s.tsp, s.route[..], T);
      }
      if LoadsFollow(s.tsp, s.route[..], C) {
        SeededLoadsExact(s.tsp, s.route[..], C);
      }
    }

    /** exchangeGlobalUpdate(s, iaux, jaux): reverse route[iaux+1..jaux] by
        the median loop, moving the precedence pairings along, then redo the
        clock and load caches from iaux to the end of the route. */
    method ExchangeGlobalUpdate(s: Solution, iaux: int, jaux: int)
      requires s.Valid() && 0 <= iaux < jaux < s.route.Length
      requires s.route.Length <= traveled.Length && traveled != s.route
      modifies s.route, this, traveled
      ensures traveled == old(traveled) && s.Valid()
      ensures s.route[..] == ReversedSpan(old(s.route[..]), iaux + 1, jaux)
      ensures precedence == PrecSwaps(old(precedence), iaux + 1, jaux, Median(iaux + 1, jaux) + 1)
      ensures traveled[..] == UpdatedTimes(s.tsp, s.route[..], iaux, old(traveled[..]))
      ensures UpdatedLoads(s.tsp, s.route[..], iaux, old(carrying), carrying)
    {
      ghost var r := s.route[..];
      ghost var T := traveled[..];
      ghost var C := carrying;
      ghost var P := precedence;
      SwapSegment(s, iaux + 1, jaux);
      ghost var swapped := precedence;
      assert swapped == PrecSwaps(P, iaux + 1, jaux, Median(iaux + 1, jaux) + 1);
      assert traveled[..] == T;
      MovedWithin(s.tsp, r, iaux, jaux);
      var sum := traveled[iaux];
      var load := Get(carrying, iaux - 1);
      sum, load := UpdateRange(s, iaux, T, C, iaux, jaux, sum, load);
      sum, load := UpdateRange(s, iaux, T, C, jaux, s.route.Length - 1, sum, load);
      assert precedence == swapped;
      assert precedence == PrecSwaps(P, iaux + 1, jaux, Median(iaux + 1, jaux) + 1);
      TimesRedoneFull(s.tsp, s.route[..], iaux, T, traveled[..]);
    }

    /** The median loop of exchangeGlobalUpdate: swap route[i] with its
        mirror route[end-(i-start)] for i from start up to the median, and
        move the precedence pairings of the two positions along. */
    method SwapSegment(s: Solution, start: int, end: int)
      requires s.Valid() && 1 <= start <= end < s.route.Length && traveled != s.route
      modifies s.route, this
      ensures traveled == old(traveled) && carrying == old(carrying)
      ensures s.route[..] == ReversedSpan(old(s.route[..]), start, end)
      ensures precedence == PrecSwaps(old(precedence), start, end, Median(start, end) + 1)
    {
      ghost var r := s.route[..];
      ghost var P := precedence;
      var a := s.route;
      var median := GoDiv(end - start + 1, 2) + start - 1;
      var pairs := precedence;
      var i := start;
      while i <= median
        invariant start <= i <= median + 1 && median == Median(start, end)
        invariant MirroredUpTo(a[..], r, start, end, i)
        invariant pairs == PrecSwaps(P, start, end, i)
        modifies a
      {
        var j := end - (i - start);
        ghost var u := a[..];
        MirroredStep(u, r, start, end, i);
        a[i], a[j] := a[j], a[i];
        assert a[..] == u[i := u[j]][j := u[i]];
        var pi := Get(pairs, i);
        var pj := Get(pairs, j);
        pairs := pairs[pi := j][pj := i][j := pi][i := pj];
        i := i + 1;
      }
      precedence := pairs;
      MirroredFull(a[..], r, start, end);
    }

    /** One of the two cache loops of exchangeGlobalUpdate: for positions
        lo..hi-1 of the already reversed route, carry the clock and the load
        on and store them, the clock for the next position at traveled[k+1]
        and the load after serving k at carrying[k]. T and C are the caches
        before the update, restarted at iaux. */
    method UpdateRange(s: Solution, ghost iaux: int, ghost T: seq<int>, ghost C: map<int, int>,
                       lo: int, hi: int, sum0: int, load0: int)
      returns (sum: int, load: int)
      requires s.Valid() && traveled != s.route && s.route.Length <= traveled.Length
      requires 0 <= iaux <= lo <= hi <= s.route.Length - 1 && |T| == traveled.Length
      requires sum0 == ClockFrom(s.tsp.matrix, s.tsp.readyTime, s.route[..], iaux, T[iaux], lo)
      requires load0 == LoadFrom(s.tsp.demands, s.route[..], iaux, Get(C, iaux - 1), lo)
      requires TimesRedone(s.tsp, s.route[..], iaux, T, traveled[..], lo)
      requires LoadsRedone(s.tsp, s.route[..], iaux, C, carrying, lo)
      modifies this, traveled
      ensures traveled == old(traveled) && precedence == old(precedence)
      ensures sum == ClockFrom(s.tsp.matrix, s.tsp.readyTime, s.route[..], iaux, T[iaux], hi)
      ensures load == LoadFrom(s.tsp.demands, s.route[..], iaux, Get(C, iaux - 1), hi)
      ensures TimesRedone(s.tsp, s.route[..], iaux, T, traveled[..], hi)
      ensures LoadsRedone(s.tsp, s.route[..], iaux, C, carrying, hi)
    {
      var p := s.tsp;
      var a := s.route;
      ghost var rr := a[..];
      var tr := traveled;
      var loads := carrying;
      sum, load := sum0, load0;
      var i := lo;
      while i < hi
        invariant lo <= i <= hi && rr == a[..] && traveled == tr && precedence == old(precedence)
        invariant sum == ClockFrom(p.matrix, p.readyTime, rr, iaux, T[iaux], i)
        invariant load == LoadFrom(p.demands, rr, iaux, Get(C, iaux - 1), i)
        invariant TimesRedone(p, rr, iaux, T, tr[..], i)
        invariant LoadsRedone(p, rr, iaux, C, loads, i)
      {
        ghost var u := tr[..];
        var n1 := a[i];
        var n2 := a[i + 1];
        if p.readyTime[n1] > sum {
          sum := p.readyTime[n1];
        }
        sum := sum + p.matrix[n1][n2];
        load := load + Get(p.demands, n1);
        tr[i + 1] := sum;
        assert tr[..] == u[i + 1 := sum];
        TimesRedoneStep(p, rr, iaux, T, u, i, sum);
        LoadsRedoneStep(p, rr, iaux, C, loads, i, load);
        loads := loads[i := load];
        i := i + 1;
      }
      carrying := loads;
    }

    /** isFeasible(s, i, j): TwoOptCheck from the cached clock at i and the
        cached load at i (missing reads as 0). */
    method IsFeasible(s: Solution, i: int, j: int) returns (ok: bool)
      requires s.Valid() && 0 <= i && i + 1 <= j < s.route.Length && i < traveled.Length
      ensures ok == TwoOptFeasible(s.tsp, s.route[..], traveled[i], Get(carrying, i), precedence, i, j)
    {
      ok := TwoOptCheck(s.tsp, s.route, traveled[i], Get(carrying, i), precedence, i, j);
    }
  }

  /** The test of a reversal of route[i+1..j] that isFeasible of
      core/local2Opt.go and cons2Opt.isFeasible of pdptw/local2opt.go both
      spell out: the edge i -> j and the segment backwards with the
      precedence test, then the edge i+1 -> j+1 and the rest of the route,
      all from clock t at i and load c after serving i. The due dates are
      compared without IsFeasible's exception for a due date of 0. */
  method TwoOptCheck(p: Pdptw, a: array<int>, t: int, c: int, prec: map<int, int>, i: int, j: int)
    returns (ok: bool)
    requires RouteOk(p, a[..]) && 0 <= i && i + 1 <= j < a.Length
    ensures ok == TwoOptFeasible(p, a[..], t, c, prec, i, j)
  {
    ghost var r := a[..];
    ghost var rr := ReversedView(p, r, i, j);
    var sum, load;
    ok, sum, load := ScanSegment(p, a, t, c, prec, rr, i, j);
    if ok {
      ok := ScanRest(p, a, rr, i, j, t, c, sum, load);
    }
  }

  /** The first half of isFeasible: the edge i -> j, then positions j,
      j-1, .., i+2 of the route, which are the positions i+1..j of the
      reversed route rr; each is checked for its due date, the load and,
      inside the segment, its cached partner. */
  method ScanSegment(p: Pdptw, a: array<int>, t: int, c: int, prec: map<int, int>, ghost rr: seq<int>, i: int, j: int)
    returns (ok: bool, sum: int, load: int)
    requires RouteOk(p, a[..]) && 0 <= i && i + 1 <= j < a.Length
    requires RouteOk(p, rr) && |rr| == a.Length && rr[i] == a[i]
    requires forall q :: i + 1 <= q <= j ==> rr[q] == a[i + 1 + j - q]
    ensures ok ==> sum == ClockFrom(p.matrix, p.readyTime, rr, i, t, j)
    ensures ok ==> load == LoadFrom(p.demands, rr, i + 1, c, j)
    ensures ok ==> ChecksPass(p, rr, i, t, c, j) && NoPairFrom(prec, i, j, i + 2)
    ensures !ok ==> !(ChecksPass(p, rr, i, t, c, |rr| - 1) && NoPairFrom(prec, i, j, i + 2))
  {
    load := c;
    ok, sum := ScanFirst(p, a, t, c, rr, i, j);
    if !ok {
      return;
    }
    var k := j;
    ghost var q := i + 1;
    while k > i + 1
      invariant i + 1 <= k <= j && q == i + 1 + j - k
      invariant sum == ClockFrom(p.matrix, p.readyTime, rr, i, t, q)
      invariant load == LoadFrom(p.demands, rr, i + 1, c, q)
      invariant ChecksPass(p, rr, i, t, c, q)
      invariant NoPairFrom(prec, i, j, k + 1)
    {
      assert rr[q] == a[k] && rr[q + 1] == a[k - 1];
      ok, sum, load := ScanRound(p, a, prec, rr, i, j, t, c, k, q, sum, load);
      if !ok {
        return;
      }
      k, q := k - 1, q + 1;
    }
    return true, sum, load;
  }

  /** The edge i -> j of isFeasible, which is the step from position i to
      i + 1 of the reversed route rr, checked for the due date of route[j]
      and the load c. */
  method ScanFirst(p: Pdptw, a: array<int>, t: int, c: int, ghost rr: seq<int>, i: int, j: int)
    returns (ok: bool, sum: int)
    requires RouteOk(p, a[..]) && 0 <= i && i + 1 <= j < a.Length
    requires RouteOk(p, rr) && |rr| == a.Length && rr[i] == a[i] && rr[i + 1] == a[j]
    ensures sum == ClockFrom(p.matrix, p.readyTime, rr, i, t, i + 1)
    ensures ok == ChecksPass(p, rr, i, t, c, i + 1)
    ensures !ok ==> !ChecksPass(p, rr, i, t, c, |rr| - 1)
  {
    sum := t;
    var n1 := a[i];
    var n2 := a[j];
    if p.readyTime[n1] > sum {
      sum := p.readyTime[n1];
    }
    sum := sum + p.matrix[n1][n2];
    CheckStep(p, rr, i, t, c, i);
    ChecksPassShrink(p, rr, i, t, c, i + 1, |rr| - 1);
    ok := sum <= p.dueDate[n2] && c <= p.capacity;
  }

  /** One round of the backward walk of isFeasible: from position k to
      k - 1 of the route, which are positions q and q + 1 of rr. */
  method ScanRound(p: Pdptw, a: array<int>, prec: map<int, int>, ghost rr: seq<int>, i: int, j: int, ghost t: int, ghost c: int, k: int, ghost q: int,
                   sum: int, load: int)
    returns (ok: bool, sum': int, load': int)
    requires RouteOk(p, a[..]) && RouteOk(p, rr) && |rr| == a.Length && 0 <= i && i + 1 < k <= j < |rr|
    requires q == i + 1 + j - k && rr[q] == a[k] && rr[q + 1] == a[k - 1]
    requires sum == ClockFrom(p.matrix, p.readyTime, rr, i, t, q)
    requires load == LoadFrom(p.demands, rr, i + 1, c, q)
    requires ChecksPass(p, rr, i, t, c, q) && NoPairFrom(prec, i, j, k + 1)
    ensures ok ==> sum' == ClockFrom(p.matrix, p.readyTime, rr, i, t, q + 1)
    ensures ok ==> load' == LoadFrom(p.demands, rr, i + 1, c, q + 1)
    ensures ok ==> ChecksPass(p, rr, i, t, c, q + 1) && NoPairFrom(prec, i, j, k)
    ensures !ok ==> !(ChecksPass(p, rr, i, t, c, |rr| - 1) && NoPairFrom(prec, i, j, i + 2))
  {
    var n1 := a[k];
    var n2 := a[k - 1];
    ScanStep(p, rr, i, t, c, q, |rr| - 1, sum, load);
    sum' := sum;
    if p.readyTime[n1] > sum' {
      sum' := p.readyTime[n1];
    }
    sum' := sum' + p.matrix[n1][n2];
    load' := load;
    if sum' > p.dueDate[n2] {
      return false, sum', load';
    }
    if Get(prec, k) > i && Get(prec, k) < j {
      return false, sum', load';
    }
    load' := load' + Get(p.demands, n1);
    if load' > p.capacity {
      return false, sum', load';
    }
    return true, sum', load';
  }

  /** The second half of isFeasible: the edge i+1 -> j+1, then the positions
      after j, which the reversal does not move, each checked for its due
      date and the load. */
  method ScanRest(p: Pdptw, a: array<int>, ghost rr: seq<int>, i: int, j: int, ghost t: int, ghost c: int, sum0: int, load0: int)
    returns (ok: bool)
    requires RouteOk(p, a[..]) && RouteOk(p, rr) && |rr| == a.Length && 0 <= i && i + 1 <= j < |rr|
    requires rr[j] == a[i + 1] && forall x :: j < x < |rr| ==> rr[x] == a[x]
    requires sum0 == ClockFrom(p.matrix, p.readyTime, rr, i, t, j)
    requires load0 == LoadFrom(p.demands, rr, i + 1, c, j)
    requires ChecksPass(p, rr, i, t, c, j)
    ensures ok == ChecksPass(p, rr, i, t, c, |rr| - 1)
  {
    ghost var last := |rr| - 1;
    var sum, load := sum0, load0;
    // The loop over the positions after j+1 runs only when j+1 is on the
    // route, so it sits inside the test.
    if j + 1 < a.Length {
      var n1 := a[i + 1];
      var n2 := a[j + 1];
      assert n1 == rr[j] && n2 == rr[j + 1];
      if p.readyTime[n1] > sum {
        sum := p.readyTime[n1];
      }
      sum := sum + p.matrix[n1][n2];
      load := load + Get(p.demands, n1);
      CheckStep(p, rr, i, t, c, j);
      ChecksPassShrink(p, rr, i, t, c, j + 1, last);
      if sum > p.dueDate[n2] {
        return false;
      }
      if load > p.capacity {
        return false;
      }
      var k := j + 1;
      while k < a.Length - 1
        invariant j + 1 <= k <= last
        invariant sum == ClockFrom(p.matrix, p.readyTime, rr, i, t, k)
        invariant load == LoadFrom(p.demands, rr, i + 1, c, k)
        invariant ChecksPass(p, rr, i, t, c, k)
      {
        n1 := a[k];
        n2 := a[k + 1];
        assert n1 == rr[k] && n2 == rr[k + 1];
        ScanStep(p, rr, i, t, c, k, last, sum, load);
        if p.readyTime[n1] > sum {
          sum := p.readyTime[n1];
        }
        sum := sum + p.matrix[n1][n2];
        load := load + Get(p.demands, n1);
        if sum > p.dueDate[n2] {
          return false;
        }
        if load > p.capacity {
          return false;
        }
        k := k + 1;
      }
    }
    // The source's last wait at route[len-2] changes only a local value.
    return true;
  }
}
