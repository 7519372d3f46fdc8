// core/localShifting.go: the local search that relocates one node. It keeps
// the same three caches as the 2-opt search, tests a relocation against
// them with three verdicts (accept, infeasible, later than before) and,
// when a move is taken, updates the caches from the first moved position on.
module CoreLocalShifting {
  import opened Utils
  import opened Instance
  import opened Schedule
  import opened Routes
  import opened CoreSolution
  import CoreObjective

  /** iterMax: the number of draws of process. */
  const IterMax := 40

  /** The verdicts of isFeasible. */
  const Accept := 0
  const Infeasible := -1
  const Later := -2

  /** The precedence test of isFeasible: moving the node at pos forward to
      or past its partner at predPos > pos, or backward to or before its
      partner at predPos < pos, is refused. */
  predicate PrecedenceFails(predPos: int, pos: int, newPos: int)
  {
    if newPos > pos then predPos > pos && newPos >= predPos
    else predPos < pos && newPos <= predPos
  }

  /** The forward branch of isFeasible (newPos > pos): the edge
      pos-1 -> pos+1 and the range pos+1 .. newPos, walked from the cached
      clock and load at pos-1, then the node put back after newPos. */
  function ForwardCode(p: Pdptw, r: seq<int>, times: seq<int>, loads: map<int, int>, pos: int, newPos: int): int
    requires RouteOk(p, r) && 1 <= pos < newPos < |r| <= |times|
  {
    var w1 := EdgeWalk(p, r, pos - 1, pos + 1, times[pos - 1], Get(loads, pos - 1));
    if !w1.ok then Infeasible
    else ForwardMid(p, r, times, pos, newPos, w1)
  }

  /** The range pos+1 .. newPos walked on from the edge that skips pos. */
  function ForwardMid(p: Pdptw, r: seq<int>, times: seq<int>, pos: int, newPos: int, w: Walk): int
    requires RouteOk(p, r) && 1 <= pos < newPos < |r| <= |times|
  {
    var w2 := RangeWalk(p, r, pos + 1, newPos, w.sum, w.carrying);
    if !w2.ok then Infeasible
    else ForwardClose(p, r, times, pos, newPos, w2)
  }

  /** The node of pos put back after newPos (edge newPos -> pos) with the
      clock check at newPos, then the rest. */
  function ForwardClose(p: Pdptw, r: seq<int>, times: seq<int>, pos: int, newPos: int, w: Walk): int
    requires RouteOk(p, r) && 1 <= pos < newPos < |r| <= |times|
  {
    var w3 := EdgeWalk(p, r, newPos, pos, w.sum, w.carrying);
    if !w3.ok then Infeasible
    else if w3.sum > times[newPos] then Later
    else TailCode(p, r, times, pos, newPos, w3)
  }

  /** The backward branch of isFeasible (newPos <= pos): the edges
      newPos-1 -> pos and pos -> newPos and the range newPos .. pos-1, walked
      from the cached clock and load at newPos-1, then the rest after pos. */
  function BackwardCode(p: Pdptw, r: seq<int>, times: seq<int>, loads: map<int, int>, pos: int, newPos: int): int
    requires RouteOk(p, r) && 1 <= newPos <= pos < |r| <= |times|
  {
    var w1 := EdgeWalk(p, r, newPos - 1, pos, times[newPos - 1], Get(loads, newPos - 1));
    if !w1.ok then Infeasible
    else BackwardSwap(p, r, times, pos, newPos, w1)
  }

  /** The edge pos -> newPos: the moved node followed by its old
      predecessor's successor. */
  function BackwardSwap(p: Pdptw, r: seq<int>, times: seq<int>, pos: int, newPos: int, w: Walk): int
    requires RouteOk(p, r) && 1 <= newPos <= pos < |r| <= |times|
  {
    var w2 := EdgeWalk(p, r, pos, newPos, w.sum, w.carrying);
    if !w2.ok then Infeasible
    else BackwardClose(p, r, times, pos, newPos, w2)
  }

  /** The range newPos .. pos-1 with the clock check at pos, then the rest. */
  function BackwardClose(p: Pdptw, r: seq<int>, times: seq<int>, pos: int, newPos: int, w: Walk): int
    requires RouteOk(p, r) && 1 <= newPos <= pos < |r| <= |times|
  {
    var w3 := RangeWalk(p, r, newPos, pos - 1, w.sum, w.carrying);
    if !w3.ok then Infeasible
    else if w3.sum > times[pos] then Later
    else TailCode(p, r, times, pos - 1, pos, w3)
  }

  /** The end both branches share: the moved segment ends at tail with
      node r[last] and walk w; the edge last -> tail+1 with its clock check
      (when tail is not the end of the route), then the rest of the route. */
  function TailCode(p: Pdptw, r: seq<int>, times: seq<int>, last: int, tail: int, w: Walk): int
    requires RouteOk(p, r) && 0 <= last < |r| && 0 <= tail < |r| <= |times|
  {
    var w4 := if tail + 1 < |r| then EdgeWalk(p, r, last, tail + 1, w.sum, w.carrying) else w;
    if !w4.ok then Infeasible
    else if tail + 1 < |r| && w4.sum > times[tail + 1] then Later
    else if RangeWalk(p, r, tail + 1, |r| - 1, w4.sum, w4.carrying).ok then Accept
    else Infeasible
  }

  /** isFeasible(s, pos, newPos) on route r with caches times, loads and
      prec (a missing key reads as 0). */
  function ShiftCode(p: Pdptw, r: seq<int>, times: seq<int>, loads: map<int, int>, prec: map<int, int>, pos: int, newPos: int): int
    requires RouteOk(p, r) && 1 <= pos < |r| && 1 <= newPos < |r| && |r| <= |times|
  {
    if PrecedenceFails(Get(prec, pos), pos, newPos) then Infeasible
    else if newPos > pos then ForwardCode(p, r, times, loads, pos, newPos)
    else BackwardCode(p, r, times, loads, pos, newPos)
  }

  /** Position q of route r is reached by its due date and the load after
      serving it is within capacity: what a walk checks at each node it
      reaches. */
  ghost predicate Served(p: Pdptw, r: seq<int>, q: int)
    requires RouteOk(p, r) && 0 <= q < |r|
  {
    TimeAt(p.matrix, p.readyTime, r, p.traveled, q) <= p.dueDate[r[q]]
    && Load(p.demands, r, p.carrying, q + 1) <= p.capacity
  }

  /** Every position from lo on is served in time and within capacity. */
  ghost predicate ServedFrom(p: Pdptw, r: seq<int>, lo: int)
    requires RouteOk(p, r) && 0 <= lo
  {
    forall q :: lo <= q < |r| ==> Served(p, r, q)
  }

  /** The load cache holds the load after serving every position but the
      last. */
  ghost predicate LoadExact(p: Pdptw, r: seq<int>, loads: map<int, int>)
  {
    forall k {:trigger Get(loads, k)} :: 0 <= k < |r| - 1 ==> Get(loads, k) == Load(p.demands, r, p.carrying, k + 1)
  }

  /** The caches of calcGlobals hold the true clock when the instance starts
      at time 0 (the clock cache never holds the start time at position 0),
      and always hold the true load. */
  lemma {:induction false} CachesExact(p: Pdptw, r: seq<int>, times: seq<int>, loads: map<int, int>)
    requires RouteOk(p, r) && TimesFollow(p, r, times) && LoadsFollow(p, r, loads)
    ensures p.traveled == 0 ==> ClockExact(p, r, times)
    ensures LoadExact(p, r, loads)
  {
  }

  /** The as-written calcGlobals caches let isFeasible accept a move that
      misses a due date when the route does not start at time 0: on
      LateStart, every position of 0 1 2 3 is served, isFeasible(1, 2)
      accepts, and the relocated route 0 2 1 3 reaches node 1 at 12, after
      its due date 11. The walk from position 0 starts at the cached 0
      instead of the start time 10. */
  lemma {:induction false} ZeroStartAcceptsLate()
    ensures RouteOk(LateStart(), LateRoute) && ServedFrom(LateStart(), LateRoute, 1)
    ensures TimesFollow(LateStart(), LateRoute, LateTimes) && LoadsFollow(LateStart(), LateRoute, LateLoads)
    ensures ShiftCode(LateStart(), LateRoute, LateTimes, LateLoads, PrecOf(LateStart(), LateRoute), 1, 2) == Accept
    ensures RouteOk(LateStart(), Relocated(LateRoute, 1, 2)) && !Served(LateStart(), Relocated(LateRoute, 1, 2), 2)
  {
    LateStartCaches();
    LateRouteServed();
    LateMoveAccepted();
    LateMoveMisses();
  }

  lemma {:induction false} LateRouteServed()
    ensures RouteOk(LateStart(), LateRoute) && ServedFrom(LateStart(), LateRoute, 1)
  {
    var p := LateStart();
    var r := LateRoute;
    assert TimeAt(p.matrix, p.readyTime, r, 10, 1) == 11;
    assert TimeAt(p.matrix, p.readyTime, r, 10, 2) == 12;
    assert TimeAt(p.matrix, p.readyTime, r, 10, 3) == 13;
    assert Served(p, r, 1) && Served(p, r, 2) && Served(p, r, 3);
  }

  /** The steps of isFeasible(1, 2) from the cached 0 at position 0: node 2
      at 1, node 1 at 2, node 3 at 3. */
  lemma {:induction false} LateMoveAccepted()
    ensures RouteOk(LateStart(), LateRoute)
    ensures ShiftCode(LateStart(), LateRoute, LateTimes, LateLoads, PrecOf(LateStart(), LateRoute), 1, 2) == Accept
  {
    LateStartCaches();
    var p := LateStart();
    var r := LateRoute;
    var w1 := EdgeWalk(p, r, 0, 2, 0, 0);
    assert w1 == Walk(true, 1, 0);
    assert RangeWalk(p, r, 2, 2, 1, 0) == Walk(true, 1, 0);
    var w3 := EdgeWalk(p, r, 2, 1, 1, 0);
    assert w3 == Walk(true, 2, 0);
    var w4 := EdgeWalk(p, r, 1, 3, 2, 0);
    assert w4 == Walk(true, 3, 0);
    assert RangeWalk(p, r, 3, 3, 3, 0).ok;
    assert TailCode(p, r, LateTimes, 1, 2, w3) == Accept;
    assert ForwardClose(p, r, LateTimes, 1, 2, w1) == Accept;
  }

  lemma {:induction false} LateMoveMisses()
    ensures RouteOk(LateStart(), Relocated(LateRoute, 1, 2)) && !Served(LateStart(), Relocated(LateRoute, 1, 2), 2)
  {
    var p := LateStart();
    var rr := Relocated(LateRoute, 1, 2);
    assert rr == [0, 2, 1, 3];
    assert TimeAt(p.matrix, p.readyTime, rr, 10, 1) == 11;
    assert TimeAt(p.matrix, p.readyTime, rr, 10, 2) == 12;
  }

  /** With the start time at position 0 the same test refuses that move. */
  lemma {:induction false} SeededRefusesLate()
    ensures RouteOk(LateStart(), LateRoute)
    ensures ClockExact(LateStart(), LateRoute, LateTimes[0 := 10])
    ensures ShiftCode(LateStart(), LateRoute, LateTimes[0 := 10], LateLoads, PrecOf(LateStart(), LateRoute), 1, 2) == Infeasible
  {
    LateStartCaches();
    SeededCachesExact(LateStart(), LateRoute, LateTimes);
  }

  /** One edge walked from the true clock and load at q-1 reaches the true
      clock and load at q and passes exactly when q is served. */
  lemma {:induction false} EdgeWalkExact(p: Pdptw, r: seq<int>, q: int)
    requires RouteOk(p, r) && 1 <= q < |r|
    ensures var w := EdgeWalk(p, r, q - 1, q, TimeAt(p.matrix, p.readyTime, r, p.traveled, q - 1), Load(p.demands, r, p.carrying, q));
      w.sum == TimeAt(p.matrix, p.readyTime, r, p.traveled, q)
      && w.carrying == Load(p.demands, r, p.carrying, q + 1)
      && (w.ok <==> Served(p, r, q))
  {
  }

  /** Positions lo..hi-1 are served, unfolded one position at a time. */
  ghost predicate ServedBetween(p: Pdptw, r: seq<int>, lo: int, hi: int)
    requires RouteOk(p, r) && 0 <= lo && hi <= |r|
    decreases hi - lo
  {
    lo >= hi || (Served(p, r, lo) && ServedBetween(p, r, lo + 1, hi))
  }

  lemma {:induction false} ServedBetweenIff(p: Pdptw, r: seq<int>, lo: int, hi: int)
    requires RouteOk(p, r) && 0 <= lo && hi <= |r|
    ensures ServedBetween(p, r, lo, hi) <==> forall q :: lo <= q < hi ==> Served(p, r, q)
    decreases hi - lo
  {
    if lo < hi {
      ServedBetweenIff(p, r, lo + 1, hi);
    }
  }

  lemma {:induction false} ServedBetweenSplit(p: Pdptw, r: seq<int>, lo: int, mid: int, hi: int)
    requires RouteOk(p, r) && 0 <= lo <= mid <= hi <= |r|
    ensures ServedBetween(p, r, lo, hi) <==> ServedBetween(p, r, lo, mid) && ServedBetween(p, r, mid, hi)
    decreases mid - lo
  {
    if lo < mid {
      ServedBetweenSplit(p, r, lo + 1, mid, hi);
    }
  }

  /** A range walked from the true clock and load at a passes exactly when
      every position after a up to b is served, and then ends on the true
      clock and load at b. */
  lemma {:induction false} RangeWalkExact(p: Pdptw, r: seq<int>, a: int, b: int)
    requires RouteOk(p, r) && 0 <= a <= b < |r|
    ensures var w := RangeWalk(p, r, a, b, TimeAt(p.matrix, p.readyTime, r, p.traveled, a), Load(p.demands, r, p.carrying, a + 1));
      (w.ok <==> ServedBetween(p, r, a + 1, b + 1))
      && (w.ok ==>
            w.sum == TimeAt(p.matrix, p.readyTime, r, p.traveled, b) && w.carrying == Load(p.demands, r, p.carrying, b + 1))
    decreases b - a
  {
    if a < b {
      EdgeWalkExact(p, r, a + 1);
      RangeWalkExact(p, r, a + 1, b);
    }
  }

  /** A range walked on r is the same walk on a route rr that holds r's
      nodes a..b at positions a-d..b-d. */
  lemma {:induction false} RangeWalkShifted(p: Pdptw, r: seq<int>, rr: seq<int>, a: int, b: int, d: int, sum: int, c: int)
    requires RouteOk(p, r) && RouteOk(p, rr) && 0 <= a && 0 <= a - d && b < |r| && b - d < |rr|
    requires forall y {:trigger rr[y]} :: a - d <= y <= b - d ==> rr[y] == r[y + d]
    ensures RangeWalk(p, r, a, b, sum, c) == RangeWalk(p, rr, a - d, b - d, sum, c)
    decreases b - a
  {
    if a < b {
      var w := EdgeWalk(p, r, a, a + 1, sum, c);
      assert rr[a - d] == r[a] && rr[a + 1 - d] == r[a + 1];
      assert w == EdgeWalk(p, rr, a - d, a + 1 - d, sum, c);
      RangeWalkShifted(p, r, rr, a + 1, b, d, w.sum, w.carrying);
    }
  }

  /** The relocated route rr is not later than r at tail nor, when there is
      one, at the position after it: the two clock checks of isFeasible. */
  ghost predicate NotLater(p: Pdptw, r: seq<int>, rr: seq<int>, tail: int)
    requires RouteOk(p, r) && RouteOk(p, rr) && |rr| == |r| && 0 <= tail < |r|
  {
    TimeAt(p.matrix, p.readyTime, rr, p.traveled, tail) <= TimeAt(p.matrix, p.readyTime, r, p.traveled, tail)
    && (tail + 1 < |r| ==>
          TimeAt(p.matrix, p.readyTime, rr, p.traveled, tail + 1) <= TimeAt(p.matrix, p.readyTime, r, p.traveled, tail + 1))
  }

  /** A range walked on r from the true clock and load of a route rr that
      holds r's nodes a..b at positions lo..hi (next is hi + 1). */
  lemma {:induction false} ShiftedRangeExact(p: Pdptw, r: seq<int>, rr: seq<int>, a: int, b: int, lo: int, hi: int, next: int, sum: int, c: int)
    requires RouteOk(p, r) && RouteOk(p, rr) && 0 <= a <= b < |r| && 0 <= lo && hi < |rr| && hi - lo == b - a && next == hi + 1
    requires forall y {:trigger rr[y]} :: lo <= y <= hi ==> rr[y] == r[y + a - lo]
    requires sum == TimeAt(p.matrix, p.readyTime, rr, p.traveled, lo) && c == Load(p.demands, rr, p.carrying, lo + 1)
    ensures RangeWalk(p, r, a, b, sum, c).ok <==> ServedBetween(p, rr, lo + 1, next)
    ensures RangeWalk(p, r, a, b, sum, c).ok ==>
      RangeWalk(p, r, a, b, sum, c).sum == TimeAt(p.matrix, p.readyTime, rr, p.traveled, hi)
      && RangeWalk(p, r, a, b, sum, c).carrying == Load(p.demands, rr, p.carrying, next)
  {
    RangeWalkShifted(p, r, rr, a, b, a - lo, sum, c);
    RangeWalkExact(p, rr, lo, hi);
  }

  /** The rest of the route from a on, walked on r from the true clock of a
      route rr that agrees with r from a on. */
  lemma {:induction false} TailWalkExact(p: Pdptw, r: seq<int>, rr: seq<int>, a: int)
    requires RouteOk(p, r) && RouteOk(p, rr) && 0 <= a < |r| == |rr|
    requires forall y {:trigger rr[y]} :: a <= y < |r| ==> rr[y] == r[y]
    ensures RangeWalk(p, r, a, |r| - 1, TimeAt(p.matrix, p.readyTime, rr, p.traveled, a), Load(p.demands, rr, p.carrying, a + 1)).ok
        <==> ServedBetween(p, rr, a + 1, |r|)
  {
    ShiftedRangeExact(p, r, rr, a, |r| - 1, a, |r| - 1, |r|, TimeAt(p.matrix, p.readyTime, rr, p.traveled, a), Load(p.demands, rr, p.carrying, a + 1));
  }

  /** The shared end read on the relocated route rr: it accepts exactly
      when rr serves every position after tail and is not later than r at
      tail + 1. */
  lemma {:induction false} TailCodeMeans(p: Pdptw, r: seq<int>, rr: seq<int>, times: seq<int>, last: int, tail: int, w: Walk)
    requires RouteOk(p, r) && RouteOk(p, rr) && |rr| == |r| && 0 <= last < |r| && 0 <= tail < |r|
    requires ClockExact(p, r, times)
    requires rr[tail] == r[last]
    requires forall k {:trigger rr[k]} :: tail < k < |r| ==> rr[k] == r[k]
    requires w.ok && w.sum == TimeAt(p.matrix, p.readyTime, rr, p.traveled, tail)
    requires w.carrying == Load(p.demands, rr, p.carrying, tail + 1)
    ensures TailCode(p, r, times, last, tail, w) == Accept
        <==> ServedBetween(p, rr, tail + 1, |r|)
             && (tail + 1 < |r| ==> TimeAt(p.matrix, p.readyTime, rr, p.traveled, tail + 1) <= TimeAt(p.matrix, p.readyTime, r, p.traveled, tail + 1))
  {
    if tail + 1 < |r| {
      var w4 := EdgeWalk(p, r, last, tail + 1, w.sum, w.carrying);
      assert w4 == EdgeWalk(p, rr, tail, tail + 1, w.sum, w.carrying);
      EdgeWalkExact(p, rr, tail + 1);
      assert times[tail + 1] == TimeAt(p.matrix, p.readyTime, r, p.traveled, tail + 1);
      TailWalkExact(p, r, rr, tail + 1);
    }
  }
  /** The close of the forward branch read on rr, which holds r's node pos
      at newPos: from the true clock at newPos - 1 it accepts exactly when
      rr serves newPos and every later position and is not later than r at
      newPos and after. */
  lemma {:induction false} ForwardCloseMeans(p: Pdptw, r: seq<int>, rr: seq<int>, times: seq<int>, pos: int, newPos: int, w: Walk)
    requires RouteOk(p, r) && RouteOk(p, rr) && |rr| == |r| && 1 <= pos < newPos < |r|
    requires ClockExact(p, r, times)
    requires rr[newPos - 1] == r[newPos] && rr[newPos] == r[pos]
    requires forall k {:trigger rr[k]} :: newPos < k < |r| ==> rr[k] == r[k]
    requires w.sum == TimeAt(p.matrix, p.readyTime, rr, p.traveled, newPos - 1)
    requires w.carrying == Load(p.demands, rr, p.carrying, newPos)
    ensures ForwardClose(p, r, times, pos, newPos, w) == Accept
        <==> ServedBetween(p, rr, newPos, |r|) && NotLater(p, r, rr, newPos)
  {
    var w3 := EdgeWalk(p, r, newPos, pos, w.sum, w.carrying);
    assert w3 == EdgeWalk(p, rr, newPos - 1, newPos, w.sum, w.carrying);
    EdgeWalkExact(p, rr, newPos);
    assert times[newPos] == TimeAt(p.matrix, p.readyTime, r, p.traveled, newPos);
    if w3.ok {
      TailCodeMeans(p, r, rr, times, pos, newPos, w3);
    }
  }

  /** The middle of the forward branch read on rr: from the true clock and
      load of rr at pos it accepts exactly when rr serves every position
      after pos and is not later than r at newPos and after. */
  lemma {:induction false} ForwardMidMeans(p: Pdptw, r: seq<int>, rr: seq<int>, times: seq<int>, pos: int, newPos: int, w: Walk)
    requires RouteOk(p, r) && RouteOk(p, rr) && |rr| == |r| && 1 <= pos < newPos < |r|
    requires ClockExact(p, r, times)
    requires forall k {:trigger rr[k]} :: pos <= k < newPos ==> rr[k] == r[k + 1]
    requires rr[newPos] == r[pos]
    requires forall k {:trigger rr[k]} :: newPos < k < |r| ==> rr[k] == r[k]
    requires w.sum == TimeAt(p.matrix, p.readyTime, rr, p.traveled, pos)
    requires w.carrying == Load(p.demands, rr, p.carrying, pos + 1)
    ensures ForwardMid(p, r, times, pos, newPos, w) == Accept
        <==> ServedBetween(p, rr, pos + 1, |r|) && NotLater(p, r, rr, newPos)
  {
    var w2 := RangeWalk(p, r, pos + 1, newPos, w.sum, w.carrying);
    ShiftedRangeExact(p, r, rr, pos + 1, newPos, pos, newPos - 1, newPos, w.sum, w.carrying);
    ServedBetweenSplit(p, rr, pos + 1, newPos, |r|);
    if w2.ok {
      assert rr[newPos - 1] == r[newPos];
      ForwardCloseMeans(p, r, rr, times, pos, newPos, w2);
    }
  }

  /** The forward branch read on the relocated route rr from its true
      clock: rr holds r's nodes pos+1..newPos one position earlier and r's
      node pos at newPos. */
  lemma {:induction false} ForwardWalks(p: Pdptw, r: seq<int>, rr: seq<int>, times: seq<int>, loads: map<int, int>, pos: int, newPos: int)
    requires RouteOk(p, r) && RouteOk(p, rr) && |rr| == |r| && 1 <= pos < newPos < |r|
    requires ClockExact(p, r, times) && LoadExact(p, r, loads)
    requires forall k {:trigger rr[k]} :: 0 <= k < pos ==> rr[k] == r[k]
    requires forall k {:trigger rr[k]} :: pos <= k < newPos ==> rr[k] == r[k + 1]
    requires rr[newPos] == r[pos]
    requires forall k {:trigger rr[k]} :: newPos < k < |r| ==> rr[k] == r[k]
    ensures ForwardCode(p, r, times, loads, pos, newPos) == Accept
        <==> ServedBetween(p, rr, pos, |r|) && NotLater(p, r, rr, newPos)
  {
    TimeAtPrefix(p.matrix, p.readyTime, r, rr, p.traveled, pos - 1);
    LoadPrefix(p.demands, r, rr, p.carrying, pos);
    assert times[pos - 1] == TimeAt(p.matrix, p.readyTime, rr, p.traveled, pos - 1);
    assert Get(loads, pos - 1) == Load(p.demands, rr, p.carrying, pos);
    var w1 := EdgeWalk(p, r, pos - 1, pos + 1, times[pos - 1], Get(loads, pos - 1));
    assert w1 == EdgeWalk(p, rr, pos - 1, pos, times[pos - 1], Get(loads, pos - 1));
    EdgeWalkExact(p, rr, pos);
    if w1.ok {
      ForwardMidMeans(p, r, rr, times, pos, newPos, w1);
    }
  }

  /** The close of the backward branch read on rr, which holds r's nodes
      newPos..pos-1 one position later: from the true clock of rr at
      newPos + 1 it accepts exactly when rr serves every later position and
      is not later than r at pos and after. */
  lemma {:induction false} BackwardCloseMeans(p: Pdptw, r: seq<int>, rr: seq<int>, times: seq<int>, pos: int, newPos: int, w: Walk)
    requires RouteOk(p, r) && RouteOk(p, rr) && |rr| == |r| && 1 <= newPos < pos < |r|
    requires ClockExact(p, r, times)
    requires forall k {:trigger rr[k]} :: newPos < k <= pos ==> rr[k] == r[k - 1]
    requires forall k {:trigger rr[k]} :: pos < k < |r| ==> rr[k] == r[k]
    requires w.sum == TimeAt(p.matrix, p.readyTime, rr, p.traveled, newPos + 1)
    requires w.carrying == Load(p.demands, rr, p.carrying, newPos + 2)
    ensures BackwardClose(p, r, times, pos, newPos, w) == Accept
        <==> ServedBetween(p, rr, newPos + 2, |r|) && NotLater(p, r, rr, pos)
  {
    var w3 := RangeWalk(p, r, newPos, pos - 1, w.sum, w.carrying);
    ShiftedRangeExact(p, r, rr, newPos, pos - 1, newPos + 1, pos, pos + 1, w.sum, w.carrying);
    ServedBetweenSplit(p, rr, newPos + 2, pos + 1, |r|);
    assert times[pos] == TimeAt(p.matrix, p.readyTime, r, p.traveled, pos);
    if w3.ok && w3.sum <= times[pos] {
      TailCodeMeans(p, r, rr, times, pos - 1, pos, w3);
    }
  }

  /** The edge from the moved node read on rr, where it sits at newPos. */
  lemma {:induction false} BackwardSwapMeans(p: Pdptw, r: seq<int>, rr: seq<int>, times: seq<int>, pos: int, newPos: int, w: Walk)
    requires RouteOk(p, r) && RouteOk(p, rr) && |rr| == |r| && 1 <= newPos < pos < |r|
    requires ClockExact(p, r, times)
    requires rr[newPos] == r[pos]
    requires forall k {:trigger rr[k]} :: newPos < k <= pos ==> rr[k] == r[k - 1]
    requires forall k {:trigger rr[k]} :: pos < k < |r| ==> rr[k] == r[k]
    requires w.sum == TimeAt(p.matrix, p.readyTime, rr, p.traveled, newPos)
    requires w.carrying == Load(p.demands, rr, p.carrying, newPos + 1)
    ensures BackwardSwap(p, r, times, pos, newPos, w) == Accept
        <==> ServedBetween(p, rr, newPos + 1, |r|) && NotLater(p, r, rr, pos)
  {
    var w2 := EdgeWalk(p, r, pos, newPos, w.sum, w.carrying);
    assert rr[newPos + 1] == r[newPos];
    assert w2 == EdgeWalk(p, rr, newPos, newPos + 1, w.sum, w.carrying);
    EdgeWalkExact(p, rr, newPos + 1);
    if w2.ok {
      BackwardCloseMeans(p, r, rr, times, pos, newPos, w2);
    }
  }

  /** The backward branch read on the relocated route rr from its true
      clock: rr holds r's node pos at newPos and r's nodes newPos..pos-1 one
      position later. */
  lemma {:induction false} BackwardWalks(p: Pdptw, r: seq<int>, rr: seq<int>, times: seq<int>, loads: map<int, int>, pos: int, newPos: int)
    requires RouteOk(p, r) && RouteOk(p, rr) && |rr| == |r| && 1 <= newPos < pos < |r|
    requires ClockExact(p, r, times) && LoadExact(p, r, loads)
    requires forall k {:trigger rr[k]} :: 0 <= k < newPos ==> rr[k] == r[k]
    requires rr[newPos] == r[pos]
    requires forall k {:trigger rr[k]} :: newPos < k <= pos ==> rr[k] == r[k - 1]
    requires forall k {:trigger rr[k]} :: pos < k < |r| ==> rr[k] == r[k]
    ensures BackwardCode(p, r, times, loads, pos, newPos) == Accept
        <==> ServedBetween(p, rr, newPos, |r|) && NotLater(p, r, rr, pos)
  {
    TimeAtPrefix(p.matrix, p.readyTime, r, rr, p.traveled, newPos - 1);
    LoadPrefix(p.demands, r, rr, p.carrying, newPos);
    assert times[newPos - 1] == TimeAt(p.matrix, p.readyTime, rr, p.traveled, newPos - 1);
    assert Get(loads, newPos - 1) == Load(p.demands, rr, p.carrying, newPos);
    var w1 := EdgeWalk(p, r, newPos - 1, pos, times[newPos - 1], Get(loads, newPos - 1));
    assert w1 == EdgeWalk(p, rr, newPos - 1, newPos, times[newPos - 1], Get(loads, newPos - 1));
    EdgeWalkExact(p, rr, newPos);
    if w1.ok {
      BackwardSwapMeans(p, r, rr, times, pos, newPos, w1);
    }
  }

  /** The forward move read on the relocated route. */
  lemma {:induction false} ShiftForwardMeans(p: Pdptw, r: seq<int>, times: seq<int>, loads: map<int, int>, pos: int, newPos: int)
    requires RouteOk(p, r) && 1 <= pos < newPos < |r|
    requires ClockExact(p, r, times) && LoadExact(p, r, loads)
    ensures RouteOk(p, Relocated(r, pos, newPos))
    ensures ForwardCode(p, r, times, loads, pos, newPos) == Accept
        <==> ServedFrom(p, Relocated(r, pos, newPos), pos) && NotLater(p, r, Relocated(r, pos, newPos), newPos)
  {
    var rr := Relocated(r, pos, newPos);
    MultisetWithin(r, rr, p.numNodes);
    forall k | 0 <= k < pos ensures rr[k] == r[k] {
      RelocatedAt(r, pos, newPos, k);
    }
    forall k | pos <= k < newPos ensures rr[k] == r[k + 1] {
      RelocatedAt(r, pos, newPos, k);
    }
    forall k | newPos < k < |r| ensures rr[k] == r[k] {
      RelocatedAt(r, pos, newPos, k);
    }
    RelocatedAt(r, pos, newPos, newPos);
    ForwardWalks(p, r, rr, times, loads, pos, newPos);
    ServedBetweenIff(p, rr, pos, |r|);
  }

  /** The backward move read on the relocated route. */
  lemma {:induction false} ShiftBackwardMeans(p: Pdptw, r: seq<int>, times: seq<int>, loads: map<int, int>, pos: int, newPos: int)
    requires RouteOk(p, r) && 1 <= newPos < pos < |r|
    requires ClockExact(p, r, times) && LoadExact(p, r, loads)
    ensures RouteOk(p, Relocated(r, pos, newPos))
    ensures BackwardCode(p, r, times, loads, pos, newPos) == Accept
        <==> ServedFrom(p, Relocated(r, pos, newPos), newPos) && NotLater(p, r, Relocated(r, pos, newPos), pos)
  {
    var rr := Relocated(r, pos, newPos);
    MultisetWithin(r, rr, p.numNodes);
    forall k | 0 <= k < newPos ensures rr[k] == r[k] {
      RelocatedAt(r, pos, newPos, k);
    }
    forall k | newPos < k <= pos ensures rr[k] == r[k - 1] {
      RelocatedAt(r, pos, newPos, k);
    }
    forall k | pos < k < |r| ensures rr[k] == r[k] {
      RelocatedAt(r, pos, newPos, k);
    }
    RelocatedAt(r, pos, newPos, newPos);
    BackwardWalks(p, r, rr, times, loads, pos, newPos);
    ServedBetweenIff(p, rr, newPos, |r|);
  }

  /** isFeasible read on the relocated route: with exact caches it accepts
      the move of pos to newPos exactly when the precedence test passes, the
      relocated route serves every position from the first moved one on,
      and it is not later than the route at the last moved position and
      the one after. */
  lemma {:induction false} ShiftCodeMeans(p: Pdptw, r: seq<int>, times: seq<int>, loads: map<int, int>, prec: map<int, int>, pos: int, newPos: int)
    requires RouteOk(p, r) && 1 <= pos < |r| && 1 <= newPos < |r| && pos != newPos
    requires ClockExact(p, r, times) && LoadExact(p, r, loads)
    ensures RouteOk(p, Relocated(r, pos, newPos))
    ensures ShiftCode(p, r, times, loads, prec, pos, newPos) == Accept
        <==> !PrecedenceFails(Get(prec, pos), pos, newPos)
             && ServedFrom(p, Relocated(r, pos, newPos), if pos < newPos then pos else newPos)
             && NotLater(p, r, Relocated(r, pos, newPos), if pos < newPos then newPos else pos)
  {
    if newPos > pos {
      ShiftForwardMeans(p, r, times, loads, pos, newPos);
    } else {
      ShiftBackwardMeans(p, r, times, loads, pos, newPos);
    }
  }

  /** The precedence test refuses exactly the moves that carry the node at
      pos across position q (its partner's position): the node lands on
      newPos, the partner's node on q', and they keep their order unless
      the test fails. */
  lemma {:induction false} PrecedenceKeepsOrder(r: seq<int>, pos: int, newPos: int, q: int)
    requires 0 <= pos < |r| && 0 <= newPos < |r| && 0 <= q < |r| && q != pos && pos != newPos
    ensures var q' := if pos < q <= newPos then q - 1 else if newPos <= q < pos then q + 1 else q;
      Relocated(r, pos, newPos)[newPos] == r[pos] && Relocated(r, pos, newPos)[q'] == r[q]
      && ((q < pos <==> q' < newPos) <==> !PrecedenceFails(q, pos, newPos))
  {
    var q' := if pos < q <= newPos then q - 1 else if newPos <= q < pos then q + 1 else q;
    RelocatedAt(r, pos, newPos, newPos);
    RelocatedAt(r, pos, newPos, q');
  }

  /** A position before every moved one is served on both routes alike. */
  lemma {:induction false} ServedPrefix(p: Pdptw, r: seq<int>, rr: seq<int>, q: int)
    requires RouteOk(p, r) && RouteOk(p, rr) && 0 <= q < |r| && q < |rr|
    requires forall l {:trigger rr[l]} :: 0 <= l <= q ==> r[l] == rr[l]
    ensures Served(p, rr, q) == Served(p, r, q)
  {
    TimeAtPrefix(p.matrix, p.readyTime, r, rr, p.traveled, q);
    LoadPrefix(p.demands, r, rr, p.carrying, q + 1);
  }

  /** A route that agrees with r after hi and is not later than r at hi
      and hi + 1 does not end later. */
  lemma {:induction false} NotLaterSpan(p: Pdptw, r: seq<int>, rr: seq<int>, hi: int)
    requires RouteOk(p, r) && RouteOk(p, rr) && |rr| == |r| && 0 <= hi < |r|
    requires forall x {:trigger rr[x]} :: hi < x < |r| ==> rr[x] == r[x]
    requires NotLater(p, r, rr, hi)
    ensures Span(p.matrix, p.readyTime, rr, p.traveled) <= Span(p.matrix, p.readyTime, r, p.traveled)
  {
    if hi + 1 < |r| {
      ClockCatchesUp(p.matrix, p.readyTime, r, rr, p.traveled, hi + 1, |r| - 1);
    }
  }

  /** A route that agrees with r before lo and serves every position from
      lo on serves every position from 1 on when r does. */
  lemma {:induction false} ServedKept(p: Pdptw, r: seq<int>, rr: seq<int>, lo: int)
    requires RouteOk(p, r) && RouteOk(p, rr) && |rr| == |r| && 1 <= lo < |r|
    requires forall x {:trigger rr[x]} :: 0 <= x < lo ==> r[x] == rr[x]
    requires ServedFrom(p, rr, lo) && ServedFrom(p, r, 1)
    ensures ServedFrom(p, rr, 1)
  {
    forall q | 1 <= q < lo ensures Served(p, rr, q) {
      ServedPrefix(p, r, rr, q);
    }
  }

  /** A move isFeasible accepts on exact caches does not end the route
      later, and keeps every position from 1 on served when they all were. */
  lemma {:induction false} AcceptedShiftNoWorse(p: Pdptw, r: seq<int>, times: seq<int>, loads: map<int, int>, prec: map<int, int>, pos: int, newPos: int)
    requires RouteOk(p, r) && 1 <= pos < |r| && 1 <= newPos < |r| && pos != newPos
    requires ClockExact(p, r, times) && LoadExact(p, r, loads)
    requires ShiftCode(p, r, times, loads, prec, pos, newPos) == Accept
    ensures RouteOk(p, Relocated(r, pos, newPos))
    ensures Span(p.matrix, p.readyTime, Relocated(r, pos, newPos), p.traveled) <= Span(p.matrix, p.readyTime, r, p.traveled)
    ensures ServedFrom(p, r, 1) ==> ServedFrom(p, Relocated(r, pos, newPos), 1)
  {
    ShiftCodeMeans(p, r, times, loads, prec, pos, newPos);
    var rr := Relocated(r, pos, newPos);
    var lo := if pos < newPos then pos else newPos;
    var hi := if pos < newPos then newPos else pos;
    forall x | 0 <= x < lo || hi < x < |r| ensures rr[x] == r[x] {
      RelocatedAt(r, pos, newPos, x);
    }
    NotLaterSpan(p, r, rr, hi);
    if ServedFrom(p, r, 1) {
      ServedKept(p, r, rr, lo);
    }
  }

  /** The clock cache after updateGlobals(from) on the relocated route rr:
      restarted from the cached clock at from - 1. */
  function ShiftedTimes(p: Pdptw, rr: seq<int>, from: int, times: seq<int>): (u: seq<int>)
    requires RouteOk(p, rr) && 1 <= from <= |times|
    ensures |u| == |times|
  {
    seq(|times|, k requires 0 <= k < |times| =>
      if from - 1 < k < |rr| then ClockFrom(p.matrix, p.readyTime, rr, from - 1, times[from - 1], k) else times[k])
  }

  /** The clock cache of updateGlobals(from) once positions up to i have
      been redone. */
  ghost predicate ClockRedone(p: Pdptw, rr: seq<int>, from: int, times: seq<int>, u: seq<int>, i: int)
    requires RouteOk(p, rr) && 1 <= from <= |times| && i < |rr|
  {
    |u| == |times|
    && forall k {:trigger u[k]} :: 0 <= k < |u| ==>
         u[k] == if from - 1 < k <= i then ClockFrom(p.matrix, p.readyTime, rr, from - 1, times[from - 1], k) else times[k]
  }

  lemma {:induction false} ClockRedoneStep(p: Pdptw, rr: seq<int>, from: int, times: seq<int>, u: seq<int>, i: int, sum: int)
    requires RouteOk(p, rr) && 1 <= from <= |times| && from - 1 <= i && i + 1 < |rr| <= |times|
    requires ClockRedone(p, rr, from, times, u, i)
    requires sum == ClockFrom(p.matrix, p.readyTime, rr, from - 1, times[from - 1], i + 1)
    ensures ClockRedone(p, rr, from, times, u[i + 1 := sum], i + 1)
  {
    var u' := u[i + 1 := sum];
    forall k | 0 <= k < |u'|
      ensures u'[k] == if from - 1 < k <= i + 1 then ClockFrom(p.matrix, p.readyTime, rr, from - 1, times[from - 1], k) else times[k]
    {
      if k != i + 1 {
        assert u'[k] == u[k];
      }
    }
  }

  lemma {:induction false} ClockRedoneFull(p: Pdptw, rr: seq<int>, from: int, times: seq<int>, u: seq<int>)
    requires RouteOk(p, rr) && 1 <= from < |rr| <= |times|
    requires ClockRedone(p, rr, from, times, u, |rr| - 1)
    ensures u == ShiftedTimes(p, rr, from, times)
  {
    var v := ShiftedTimes(p, rr, from, times);
    forall k | 0 <= k < |u| ensures u[k] == v[k] {
    }
  }

  /** The load cache of updateGlobals(from) once positions up to i have
      been redone: the entries from..i restarted from the cached load at
      from - 1 (missing reads as 0), the others kept. */
  ghost predicate LoadsRedone(p: Pdptw, rr: seq<int>, from: int, loads: map<int, int>, loads': map<int, int>, i: int)
    requires 1 <= from && i < |rr|
  {
    (forall k :: k in loads' <==> k in loads || from <= k <= i)
    && (forall k :: k in loads' ==>
          loads'[k] == if from <= k <= i then LoadFrom(p.demands, rr, from, Get(loads, from - 1), k + 1) else loads[k])
  }

  lemma {:induction false} LoadsRedoneStep(p: Pdptw, rr: seq<int>, from: int, loads: map<int, int>, loads': map<int, int>, i: int, load: int)
    requires 1 <= from && from - 1 <= i && i + 1 < |rr|
    requires LoadsRedone(p, rr, from, loads, loads', i)
    requires load == LoadFrom(p.demands, rr, from, Get(loads, from - 1), i + 2)
    ensures LoadsRedone(p, rr, from, loads, loads'[i + 1 := load], i + 1)
  {
  }

  /** Restarting the clock cache at from - 1 on a route that agrees with r
      before from keeps it exact. */
  lemma {:induction false} ShiftedTimesExact(p: Pdptw, r: seq<int>, rr: seq<int>, times: seq<int>, from: int)
    requires RouteOk(p, r) && RouteOk(p, rr) && |rr| == |r| && 1 <= from < |r|
    requires forall k {:trigger rr[k]} :: 0 <= k < from ==> r[k] == rr[k]
    requires ClockExact(p, r, times)
    ensures ClockExact(p, rr, ShiftedTimes(p, rr, from, times))
  {
    var u := ShiftedTimes(p, rr, from, times);
    TimeAtPrefix(p.matrix, p.readyTime, r, rr, p.traveled, from - 1);
    forall k | 0 <= k < |rr| ensures u[k] == TimeAt(p.matrix, p.readyTime, rr, p.traveled, k) {
      if k < from {
        TimeAtPrefix(p.matrix, p.readyTime, r, rr, p.traveled, k);
      } else {
        ClockFromTimeAt(p.matrix, p.readyTime, rr, p.traveled, from - 1, k);
      }
    }
  }

  /** updateGlobals(from) for from >= 2 on the caches calcGlobals computed
      leaves the clock cache calcGlobals would compute for the new route,
      whatever the start time: it restarts from position from - 1 >= 1,
      whose entry holds the true clock. */
  lemma {:induction false} ShiftedTimesFollow(p: Pdptw, r: seq<int>, rr: seq<int>, times: seq<int>, from: int)
    requires RouteOk(p, r) && RouteOk(p, rr) && |rr| == |r| && 2 <= from < |r|
    requires forall k {:trigger rr[k]} :: 0 <= k < from ==> r[k] == rr[k]
    requires TimesFollow(p, r, times)
    ensures TimesFollow(p, rr, ShiftedTimes(p, rr, from, times))
  {
    var u := ShiftedTimes(p, rr, from, times);
    TimeAtPrefix(p.matrix, p.readyTime, r, rr, p.traveled, from - 1);
    forall k | 1 <= k < |rr| ensures u[k] == TimeAt(p.matrix, p.readyTime, rr, p.traveled, k) {
      if k < from {
        TimeAtPrefix(p.matrix, p.readyTime, r, rr, p.traveled, k);
      } else {
        ClockFromTimeAt(p.matrix, p.readyTime, rr, p.traveled, from - 1, k);
      }
    }
  }

  /** Restarting the load cache at from - 1 on a route that agrees with r
      before from keeps it exact. */
  lemma {:induction false} ShiftedLoadsExact(p: Pdptw, r: seq<int>, rr: seq<int>, loads: map<int, int>, loads': map<int, int>, from: int)
    requires |rr| == |r| && 1 <= from < |r|
    requires forall k {:trigger rr[k]} :: 0 <= k < from ==> r[k] == rr[k]
    requires LoadExact(p, r, loads) && LoadsRedone(p, rr, from, loads, loads', |rr| - 1)
    ensures LoadExact(p, rr, loads')
  {
    LoadPrefix(p.demands, r, rr, p.carrying, from);
    assert Get(loads, from - 1) == Load(p.demands, rr, p.carrying, from);
    forall k | 0 <= k < |rr| - 1 ensures Get(loads', k) == Load(p.demands, rr, p.carrying, k + 1) {
      if k < from {
        LoadPrefix(p.demands, r, rr, p.carrying, k + 1);
        assert Get(loads', k) == Get(loads, k);
      } else {
        LoadFromLoad(p.demands, rr, p.carrying, from, k + 1);
      }
    }
  }

  /** What process keeps on the values of a route r started from r0: the
      same nodes with the same start, caches that hold the true clock and
      load, a MakeSpan no later than at the start, and every position from
      1 on served when it was at the start. */
  ghost predicate ShiftKept(p: Pdptw, r0: seq<int>, r: seq<int>, times: seq<int>, loads: map<int, int>)
  {
    RouteOk(p, r0) && RouteOk(p, r) && SameNodes(r, r0) && 3 <= |r| <= |times|
    && LoadExact(p, r, loads) && ClockExact(p, r, times)
    && Span(p.matrix, p.readyTime, r, p.traveled) <= Span(p.matrix, p.readyTime, r0, p.traveled)
    && (ServedFrom(p, r0, 1) ==> ServedFrom(p, r, 1))
  }

  /** An accepted relocation followed by updateGlobals from the first moved
      position keeps what process tracks. */
  lemma {:induction false} ShiftKeeps(p: Pdptw, r0: seq<int>, r: seq<int>, rr: seq<int>, times: seq<int>, loads: map<int, int>,
                   loads': map<int, int>, prec: map<int, int>, pos: int, newPos: int, from: int)
    requires ShiftKept(p, r0, r, times, loads) && 1 <= pos < |r| && 1 <= newPos < |r| && pos != newPos
    requires ShiftCode(p, r, times, loads, prec, pos, newPos) == Accept
    requires rr == Relocated(r, pos, newPos) && RouteOk(p, rr) && from == if newPos > pos then pos else newPos
    requires LoadsRedone(p, rr, from, loads, loads', |rr| - 1)
    ensures ShiftKept(p, r0, rr, ShiftedTimes(p, rr, from, times), loads')
  {
    RelocatedSameNodes(r, r0, pos, newPos, p.numNodes);
    AcceptedShiftNoWorse(p, r, times, loads, prec, pos, newPos);
    forall k | 0 <= k < from ensures r[k] == rr[k] {
      RelocatedAt(r, pos, newPos, k);
    }
    ShiftedLoadsExact(p, r, rr, loads, loads', from);
    ShiftedTimesExact(p, r, rr, times, from);
  }

  /** The state of the updateGlobals loop after the rounds up to
      position i: the running clock and load, and the three caches redone
      up to i. */
  ghost predicate RedoneTo(p: Pdptw, r: seq<int>, from: int, T: seq<int>, C: map<int, int>, P: map<int, int>,
                           u: seq<int>, sum: int, load: int, loads: map<int, int>, pairs: map<int, int>, i: int)
    requires RouteOk(p, r) && 1 <= from < |r| <= |T|
  {
    from - 1 <= i < |r|
    && sum == ClockFrom(p.matrix, p.readyTime, r, from - 1, T[from - 1], i)
    && load == LoadFrom(p.demands, r, from, Get(C, from - 1), i + 1)
    && ClockRedone(p, r, from, T, u, i)
    && LoadsRedone(p, r, from, C, loads, i)
    && pairs == PrecSteps(p, r, P, from - 1, i)
  }

  /** One round of the updateGlobals loop, at position i. */
  method RedoRound(p: Pdptw, a: array<int>, tr: array<int>, from: int, ghost T: seq<int>, ghost C: map<int, int>,
                   ghost P: map<int, int>, i: int, sum: int, load: int, loads: map<int, int>, pairs: map<int, int>)
    returns (sum': int, load': int, loads': map<int, int>, pairs': map<int, int>)
    requires RouteOk(p, a[..]) && 1 <= from < a.Length <= |T| && |T| == tr.Length && tr != a && i < a.Length - 1
    requires RedoneTo(p, a[..], from, T, C, P, tr[..], sum, load, loads, pairs, i)
    modifies tr
    ensures RedoneTo(p, a[..], from, T, C, P, tr[..], sum', load', loads', pairs', i + 1)
  {
    var r := a[..];
    ghost var u := tr[..];
    var n1 := a[i];
    var n2 := a[i + 1];
    sum' := sum;
    if p.readyTime[n1] > sum' {
      sum' := p.readyTime[n1];
    }
    sum' := sum' + p.matrix[n1][n2];
    tr[i + 1] := sum';
    assert tr[..] == u[i + 1 := sum'];
    ClockRedoneStep(p, r, from, T, u, i, sum');
    pairs' := WritePairs(p, r, pairs, i);
    load' := load + Get(p.demands, n2);
    LoadsRedoneStep(p, r, from, C, loads, i, load');
    loads' := loads[i + 1 := load'];
    assert a[..] == r;
  }

  /** The loop of updateGlobals on the route a and the clock cache tr: the
      clock cache redone in place from position from - 1 on, and the load
      and precedence caches redone from the given ones. */
  method RedoCaches(p: Pdptw, a: array<int>, tr: array<int>, from: int, C: map<int, int>, P: map<int, int>)
    returns (loads: map<int, int>, pairs: map<int, int>)
    requires RouteOk(p, a[..]) && 1 <= from < a.Length <= tr.Length && tr != a
    modifies tr
    ensures tr[..] == ShiftedTimes(p, a[..], from, old(tr[..]))
    ensures LoadsRedone(p, a[..], from, C, loads, a.Length - 1)
    ensures pairs == PrecSteps(p, a[..], P, from - 1, a.Length - 1)
  {
    ghost var T := tr[..];
    var sum := tr[from - 1];
    var load := Get(C, from - 1);
    loads := C;
    pairs := P;
    var i := from - 1;
    while i < a.Length - 1
      invariant from - 1 <= i <= a.Length - 1
      invariant RedoneTo(p, a[..], from, T, C, P, tr[..], sum, load, loads, pairs, i)
    {
      sum, load, loads, pairs := RedoRound(p, a, tr, from, T, C, P, i, sum, load, loads, pairs);
      i := i + 1;
    }
    ClockRedoneFull(p, a[..], from, T, tr[..]);
  }

  /** The localshifting struct: its three caches and the objective, which
      process never consults. */
  class LocalShifting {
    var traveled: array<int>
    var precedence: map<int, int>
    var carrying: map<int, int>
    const objective: CoreObjective.Objective

    /** localshifting{objective: o}: the caches start empty. */
    constructor (objective: CoreObjective.Objective)
      ensures this.objective == objective && traveled.Length == 0
      ensures precedence == map[] && carrying == map[]
    {
      this.objective := objective;
      traveled := new int[0];
      precedence := map[];
      carrying := map[];
    }

    /** What process keeps while it works on s, started from route r0:
        ShiftKept on the route and the caches. */
    ghost predicate Tracks(s: Solution, r0: seq<int>)
      reads this, traveled, s, s.route
    {
      s.Valid() && traveled != s.route && ShiftKept(s.tsp, r0, s.route[..], traveled[..], carrying)
    }

    /** process(x): iterMax times, draw a position i in [1, len-2] and move
        its node to the first position j != i that isFeasible accepts. The
        receiver is a value in the source, so the caches live in a copy:
        here a fresh LocalShifting. The clock cache is seeded with the
        start time after calcGlobals (SeedStart), which the source does
        not do. */
    method Process(s: Solution)
      requires s.Valid() && 3 <= s.route.Length <= s.tsp.numNodes
      modifies s.route
      ensures s.Valid() && SameNodes(s.route[..], old(s.route[..]))
      ensures Span(s.tsp.matrix, s.tsp.readyTime, s.route[..], s.tsp.traveled)
              <= Span(s.tsp.matrix, s.tsp.readyTime, old(s.route[..]), s.tsp.traveled)
      ensures ServedFrom(s.tsp, old(s.route[..]), 1) ==> ServedFrom(s.tsp, s.route[..], 1)
    {
      ghost var r0 := s.route[..];
      var c := new LocalShifting(objective);
      c.CalcGlobals(s);
      assert s.route[..] == r0;
      CachesExact(s.tsp, r0, c.traveled[..], c.carrying);
      c.SeedStart(s);
      for k := 0 to IterMax
        invariant fresh(c) && fresh(c.traveled) && c.Tracks(s, r0)
      {
        var i := Random(1, s.route.Length - 1);
        var j := 1;
        while j < s.route.Length
          invariant 1 <= j <= s.route.Length && fresh(c) && fresh(c.traveled) && c.Tracks(s, r0)
        {
          if i != j {
            var code := c.IsFeasible(s, i, j);
            if code == Accept {
              c.Shift(s, r0, i, j);
              break;
            }
          }
          j := j + 1;
        }
      }
    }

    /** calcGlobals(s): the same loop as Solution.calcGlobals, writing the
        three caches. */
    method CalcGlobals(s: Solution)
      requires s.Valid() && 0 < s.route.Length <= s.tsp.numNodes
      modifies this
      ensures fresh(traveled) && traveled.Length == s.tsp.numNodes
      ensures TimesFollow(s.tsp, s.route[..], traveled[..]) && LoadsFollow(s.tsp, s.route[..], carrying)
      ensures precedence == PrecOf(s.tsp, s.route[..])
    {
      traveled, carrying, precedence := s.CalcGlobals();
    }

    /** The start time written at position 0 of the clock cache, where
        calcGlobals leaves 0: the cache then holds the true clock for
        every start time. */
    method SeedStart(s: Solution)
      requires s.Valid() && 0 < s.route.Length <= traveled.Length && traveled != s.route
      modifies traveled
      ensures traveled[..] == old(traveled[..])[0 := s.tsp.traveled]
      ensures TimesFollow(s.tsp, s.route[..], old(traveled[..])) ==> ClockExact(s.tsp, s.route[..], traveled[..])
    {
      ghost var T := traveled[..];
      traveled[0] := s.tsp.traveled;
      if TimesFollow(s.tsp, s.route[..], T) {
        SeededCachesExact(s.tsp, s.route[..], T);
      }
    }

    /** isFeasible(s, pos, newPos): the verdict of the relocation of the
        node at pos to newPos, from the caches. */
    method IsFeasible(s: Solution, pos: int, newPos: int) returns (code: int)
      requires s.Valid() && 1 <= pos < s.route.Length && 1 <= newPos < s.route.Length
      requires s.route.Length <= traveled.Length
      ensures code == ShiftCode(s.tsp, s.route[..], traveled[..], carrying, precedence, pos, newPos)
    {
      var predPos := Get(precedence, pos);
      if newPos > pos {
        if predPos > pos && newPos >= predPos {
          return Infeasible;
        }
        code := FeasibleForward(s, pos, newPos);
      } else {
        if predPos < pos && newPos <= predPos {
          return Infeasible;
        }
        code := FeasibleBackward(s, pos, newPos);
      }
    }

    /** The branch of isFeasible for a move towards the end: walk from
        pos - 1 over pos + 1..newPos, then pos, then the rest. */
    method FeasibleForward(s: Solution, pos: int, newPos: int) returns (code: int)
      requires s.Valid() && 1 <= pos < newPos < s.route.Length <= traveled.Length
      ensures code == ForwardCode(s.tsp, s.route[..], traveled[..], carrying, pos, newPos)
    {
      ghost var p := s.tsp;
      ghost var r := s.route[..];
      ghost var T := traveled[..];
      ghost var goal := ForwardCode(p, r, T, carrying, pos, newPos);
      var n := s.route.Length;
      var sum := traveled[pos - 1];
      var load := Get(carrying, pos - 1);
      var w := s.IsFeasibleEdge(pos - 1, pos + 1, sum, load);
      if !w.ok {
        return Infeasible;
      }
      assert goal == ForwardMid(p, r, T, pos, newPos, w);
      var ok;
      ok, sum, load := s.IsFeasibleRange(pos + 1, newPos, w.sum, w.carrying);
      if !ok {
        return Infeasible;
      }
      assert goal == ForwardClose(p, r, T, pos, newPos, Walk(ok, sum, load));
      w := s.IsFeasibleEdge(newPos, pos, sum, load);
      if !w.ok {
        return Infeasible;
      }
      if w.sum > traveled[newPos] {
        return Later;
      }
      assert goal == TailCode(p, r, T, pos, newPos, w);
      sum, load := w.sum, w.carrying;
      if newPos + 1 < n {
        w := s.IsFeasibleEdge(pos, newPos + 1, sum, load);
        if !w.ok {
          return Infeasible;
        }
        if w.sum > traveled[newPos + 1] {
          return Later;
        }
        sum, load := w.sum, w.carrying;
      }
      assert goal == if RangeWalk(p, r, newPos + 1, n - 1, sum, load).ok then Accept else Infeasible;
      ok, sum, load := s.IsFeasibleRange(newPos + 1, n - 1, sum, load);
      code := if ok then Accept else Infeasible;
    }

    /** The branch of isFeasible for a move towards the start: walk from
        newPos - 1 over pos, then newPos..pos - 1, then the rest. */
    method FeasibleBackward(s: Solution, pos: int, newPos: int) returns (code: int)
      requires s.Valid() && 1 <= newPos <= pos < s.route.Length <= traveled.Length
      ensures code == BackwardCode(s.tsp, s.route[..], traveled[..], carrying, pos, newPos)
    {
      ghost var p := s.tsp;
      ghost var r := s.route[..];
      ghost var T := traveled[..];
      ghost var goal := BackwardCode(p, r, T, carrying, pos, newPos);
      var n := s.route.Length;
      var sum := traveled[newPos - 1];
      var load := Get(carrying, newPos - 1);
      var w := s.IsFeasibleEdge(newPos - 1, pos, sum, load);
      if !w.ok {
        return Infeasible;
      }
      assert goal == BackwardSwap(p, r, T, pos, newPos, w);
      w := s.IsFeasibleEdge(pos, newPos, w.sum, w.carrying);
      if !w.ok {
        return Infeasible;
      }
      assert goal == BackwardClose(p, r, T, pos, newPos, w);
      var ok;
      ok, sum, load := s.IsFeasibleRange(newPos, pos - 1, w.sum, w.carrying);
      if !ok {
        return Infeasible;
      }
      if sum > traveled[pos] {
        return Later;
      }
      assert goal == TailCode(p, r, T, pos - 1, pos, Walk(ok, sum, load));
      if pos + 1 < n {
        w := s.IsFeasibleEdge(pos - 1, pos + 1, sum, load);
        if !w.ok {
          return Infeasible;
        }
        if w.sum > traveled[pos + 1] {
          return Later;
        }
        sum, load := w.sum, w.carrying;
      }
      assert goal == if RangeWalk(p, r, pos + 1, n - 1, sum, load).ok then Accept else Infeasible;
      ok, sum, load := s.IsFeasibleRange(pos + 1, n - 1, sum, load);
      code := if ok then Accept else Infeasible;
    }

    /** shift(x, pos, newPos): exchange in place, then updateGlobals from
        the first moved position. An accepted move keeps what process
        tracks. */
    method Shift(s: Solution, ghost r0: seq<int>, pos: int, newPos: int)
      requires Tracks(s, r0) && 1 <= pos < s.route.Length && 1 <= newPos < s.route.Length && pos != newPos
      requires ShiftCode(s.tsp, s.route[..], traveled[..], carrying, precedence, pos, newPos) == Accept
      modifies s.route, this, traveled
      ensures traveled == old(traveled) && Tracks(s, r0)
      ensures s.route[..] == Relocated(old(s.route[..]), pos, newPos)
    {
      ghost var p := s.tsp;
      ghost var r := s.route[..];
      ghost var T := traveled[..];
      ghost var C := carrying;
      ghost var P := precedence;
      var from := if newPos > pos then pos else newPos;
      s.Exchange(pos, newPos);
      assert traveled[..] == T;
      RelocatedSameNodes(r, r0, pos, newPos, p.numNodes);
      UpdateGlobals(s, from);
      ShiftKeeps(p, r0, r, s.route[..], T, C, carrying, P, pos, newPos, from);
    }

    /** updateGlobals(s, from): redo the clock and load caches from
        position from - 1 to the end of the route, restarting from the
        cached values at from - 1, and rewrite the precedence pairing of
        those positions. */
    method UpdateGlobals(s: Solution, from: int)
      requires s.Valid() && 1 <= from < s.route.Length <= traveled.Length && traveled != s.route
      modifies this, traveled
      ensures traveled == old(traveled)
      ensures traveled[..] == ShiftedTimes(s.tsp, s.route[..], from, old(traveled[..]))
      ensures LoadsRedone(s.tsp, s.route[..], from, old(carrying), carrying, s.route.Length - 1)
      ensures precedence == PrecClose(s.tsp, s.route[..], PrecSteps(s.tsp, s.route[..], old(precedence), from - 1, s.route.Length - 1))
    {
      var loads, pairs := RedoCaches(s.tsp, s.route, traveled, from, carrying, precedence);
      pairs := ClosePairs(s.tsp, s.route[..], pairs);
      carrying, precedence := loads, pairs;
    }
  }
}
