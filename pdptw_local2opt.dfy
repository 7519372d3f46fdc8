// pdptw/local2opt.go: the two 2-opt searches of the pdptw package. cons2Opt
// works on the route in place with three caches (the clock, the precedence
// pairing and the load per position) and tests each move against them;
// Local2Opt copies the route for every move and keeps a copy only when it is
// feasible and finishes earlier. Both drive the same disturb-and-search
// loop.
module PdptwLocal2Opt {
  import opened Utils
  import opened Instance
  import opened Schedule
  import opened Routes
  import opened PdptwSolution
  import CoreSolution
  import CoreObjective
  import CoreLocal2Opt
  import CoreSearch

  /** The instance as the pdptw scans see it: they start at time 0 with an
      empty vehicle, whatever the instance says. */
  function FromStart(p: Pdptw): (q: Pdptw)
    ensures q.traveled == 0 && q.carrying == 0
    ensures q.numNodes == p.numNodes && q.capacity == p.capacity && q.matrix == p.matrix
    ensures q.readyTime == p.readyTime && q.dueDate == p.dueDate && q.demands == p.demands
    ensures WellFormed(q) <==> WellFormed(p)
  {
    p.(traveled := 0, carrying := 0)
  }

  /** The instance isTWfeasible sees: no demands and no capacity, so only
      the clock is tested. */
  function TimesOnly(p: Pdptw): (q: Pdptw)
    ensures q.traveled == 0 && q.carrying == 0 && q.demands == map[] && q.capacity == 0
    ensures q.numNodes == p.numNodes && q.matrix == p.matrix
    ensures q.readyTime == p.readyTime && q.dueDate == p.dueDate
    ensures WellFormed(q) <==> WellFormed(p)
  {
    p.(traveled := 0, carrying := 0, demands := map[], capacity := 0)
  }

  function Abs(x: int): (y: int)
    ensures y >= 0 && (y == x || y == -x)
  {
    if x < 0 then -x else x
  }

  /** The precedence cache of calcGlobals: every position but the last is
      paired with the first index of its partner node (the absolute value of
      its pred entry, a missing entry reading as node 0); the last position
      looks up its pred entry as it is, sign included. -1 marks a partner
      that is not on the route. */
  function PredOf(p: Pdptw, r: seq<int>): (m: map<int, int>)
    requires 0 < |r|
    ensures forall k :: k in m <==> 0 <= k < |r|
    ensures forall k :: k in m ==> -1 <= m[k] < |r|
  {
    map k | 0 <= k < |r| ::
      if k < |r| - 1 then FirstIndex(r, Abs(Get(p.pred, r[k]))) else FirstIndex(r, Get(p.pred, r[k]))
  }

  /** The clock cache of calcGlobals and calcGlobalTSP: inc[k] is the clock
      on reaching position k+1 from time 0; the last entry stays 0. */
  ghost predicate IncFollows(p: Pdptw, r: seq<int>, inc: seq<int>)
    requires RouteOk(p, r)
  {
    0 < |r| == |inc| && inc[|r| - 1] == 0
    && forall k :: 0 <= k < |r| - 1 ==> inc[k] == TimeAt(p.matrix, p.readyTime, r, 0, k + 1)
  }

  /** The caches of calcGlobals for route r: clock, precedence pairing, and
      the load after serving each position but the last. */
  ghost predicate Follows(p: Pdptw, r: seq<int>, inc: seq<int>, precedence: map<int, int>, capacity: map<int, int>)
    requires RouteOk(p, r)
  {
    IncFollows(p, r, inc) && precedence == PredOf(p, r) && CoreSolution.LoadsFollow(FromStart(p), r, capacity)
  }

  /** One route has one clock cache. */
  lemma {:induction false} IncFollowsUnique(p: Pdptw, r: seq<int>, a: seq<int>, b: seq<int>)
    requires RouteOk(p, r) && IncFollows(p, r, a) && IncFollows(p, r, b)
    ensures a == b
  {
    forall k | 0 <= k < |a| ensures a[k] == b[k] {
      if k < |r| - 1 {
        assert a[k] == TimeAt(p.matrix, p.readyTime, r, 0, k + 1);
      }
    }
  }

  /** The last clock of the cache is the span of the route. */
  lemma {:induction false} IncEndsAtSpan(p: Pdptw, r: seq<int>, inc: seq<int>)
    requires RouteOk(p, r) && IncFollows(p, r, inc) && 2 <= |r|
    ensures inc[|r| - 2] == Span(p.matrix, p.readyTime, r, 0)
  {
  }

  /** The clock cache of calcGlobals once positions up to i-1 are written. */
  ghost predicate IncUpTo(p: Pdptw, r: seq<int>, u: seq<int>, i: int)
    requires RouteOk(p, r) && 0 <= i < |r|
  {
    |u| == |r|
    && (forall k {:trigger u[k]} :: 0 <= k < i ==> u[k] == TimeAt(p.matrix, p.readyTime, r, 0, k + 1))
    && (forall k {:trigger u[k]} :: i <= k < |u| ==> u[k] == 0)
  }

  lemma {:induction false} IncUpToStep(p: Pdptw, r: seq<int>, u: seq<int>, i: int, t: int)
    requires RouteOk(p, r) && 0 <= i && i + 1 < |r|
    requires IncUpTo(p, r, u, i) && t == TimeAt(p.matrix, p.readyTime, r, 0, i + 1)
    ensures IncUpTo(p, r, u[i := t], i + 1)
  {
    var u' := u[i := t];
    forall k | 0 <= k < i ensures u'[k] == TimeAt(p.matrix, p.readyTime, r, 0, k + 1) {
      assert u'[k] == u[k];
    }
    forall k | i + 1 <= k < |u'| ensures u'[k] == 0 {
      assert u'[k] == u[k];
    }
  }

  /** The pairings calcGlobals has written for positions 0..k-1. */
  function PredsUpTo(p: Pdptw, r: seq<int>, k: nat): map<int, int>
    requires k < |r|
  {
    if k == 0 then map[] else PredsUpTo(p, r, k - 1)[k - 1 := FirstIndex(r, Abs(Get(p.pred, r[k - 1])))]
  }

  /** Closing the pairings with the last position's gives PredOf. */
  lemma {:induction false} PredsUpToSpec(p: Pdptw, r: seq<int>, k: nat)
    requires k < |r|
    ensures forall x :: x in PredsUpTo(p, r, k) <==> 0 <= x < k
    ensures forall x :: 0 <= x < k ==> PredsUpTo(p, r, k)[x] == PredOf(p, r)[x]
  {
    if k > 0 {
      PredsUpToSpec(p, r, k - 1);
    }
  }

  lemma {:induction false} PredsUpToClose(p: Pdptw, r: seq<int>)
    requires 0 < |r|
    ensures PredsUpTo(p, r, |r| - 1)[|r| - 1 := FirstIndex(r, Get(p.pred, r[|r| - 1]))] == PredOf(p, r)
  {
    PredsUpToSpec(p, r, |r| - 1);
    var m := PredsUpTo(p, r, |r| - 1)[|r| - 1 := FirstIndex(r, Get(p.pred, r[|r| - 1]))];
    var o := PredOf(p, r);
    assert forall x :: x in m <==> x in o;
    assert forall x :: x in m ==> m[x] == o[x];
  }

  /** The body of calcGlobals' loop at position i: the clock steps on to
      position i+1, the partner of r[i] is looked up by the absolute value
      of its pred entry, and the demand of r[i] is added to the load. */
  method Visit(p: Pdptw, r: seq<int>, i: int, sum: int, carrying: int) returns (sum': int, index: int, carrying': int)
    requires RouteOk(p, r) && 0 <= i && i + 1 < |r|
    requires sum == TimeAt(p.matrix, p.readyTime, r, 0, i) && carrying == Load(p.demands, r, 0, i)
    ensures sum' == TimeAt(p.matrix, p.readyTime, r, 0, i + 1)
    ensures index == FirstIndex(r, Abs(Get(p.pred, r[i])))
    ensures carrying' == Load(p.demands, r, 0, i + 1)
  {
    var n1 := r[i];
    var n2 := r[i + 1];
    sum' := sum;
    if p.readyTime[n1] > sum' {
      sum' := p.readyTime[n1];
    }
    sum' := sum' + p.matrix[n1][n2];
    var n3 := Get(p.pred, n1);
    if n3 < 0 {
      n3 := -n3;
    }
    index := IndexOf(n3, r);
    carrying' := carrying + Get(p.demands, n1);
  }

  /** calcGlobals(s): one pass over the route from time 0 and load 0,
      writing the clock on reaching the next position, the pairing of each
      position and the load after serving it; then the last position's
      pairing. The same function appears twice in the source, once per
      search type. */
  method CalcGlobals(s: Solution) returns (inc: array<int>, precedence: map<int, int>, capacity: map<int, int>)
    requires s.Valid() && 0 < s.route.Length
    ensures fresh(inc) && Follows(s.tsp, s.route[..], inc[..], precedence, capacity)
  {
    var p := s.tsp;
    ghost var q := FromStart(p);
    var r := s.route[..];
    var sum := 0;
    var carrying := 0;
    inc := new int[|r|](_ => 0);
    precedence := map[];
    capacity := map[];
    var i := 0;
    while i < |r| - 1
      invariant 0 <= i <= |r| - 1
      invariant sum == TimeAt(p.matrix, p.readyTime, r, 0, i)
      invariant carrying == Load(p.demands, r, 0, i)
      invariant IncUpTo(p, r, inc[..], i)
      invariant precedence == PredsUpTo(p, r, i)
      invariant capacity == CoreSolution.LoadsUpTo(q, r, i)
    {
      var index, carried;
      sum, index, carried := Visit(p, r, i, sum, carrying);
      carrying := carried;
      ghost var u := inc[..];
      inc[i] := sum;
      assert inc[..] == u[i := sum];
      IncUpToStep(p, r, u, i, sum);
      precedence := precedence[i := index];
      capacity := capacity[i := carrying];
      i := i + 1;
    }
    var last := IndexOf(Get(p.pred, r[|r| - 1]), r);
    PredsUpToClose(p, r);
    precedence := precedence[|r| - 1 := last];
    CoreSolution.LoadsUpToSpec(q, r, |r| - 1);
  }

  /** calcGlobalTSP(s): the clock cache alone; an empty route gives an
      empty cache. */
  method CalcGlobalTsp(s: Solution) returns (inc: array<int>)
    requires s.Valid()
    ensures fresh(inc) && inc.Length == s.route.Length
    ensures 0 < s.route.Length ==> IncFollows(s.tsp, s.route[..], inc[..])
  {
    var p := s.tsp;
    ghost var r := s.route[..];
    var sum := 0;
    inc := new int[s.route.Length](_ => 0);
    var i := 0;
    while i < s.route.Length - 1
      invariant 0 <= i <= Max(|r| - 1, 0) && inc.Length == |r| && r == s.route[..]
      invariant 0 < |r| ==> sum == TimeAt(p.matrix, p.readyTime, r, 0, i)
      invariant forall k :: 0 <= k < i ==> inc[k] == TimeAt(p.matrix, p.readyTime, r, 0, k + 1)
      invariant forall k :: i <= k < |r| ==> inc[k] == 0
    {
      var n1 := s.route[i];
      var n2 := s.route[i + 1];
      if p.readyTime[n1] > sum {
        sum := p.readyTime[n1];
      }
      sum := sum + p.matrix[n1][n2];
      inc[i] := sum;
      i := i + 1;
    }
  }

  /** The clock cache after exchangeGlobalUpdate(iaux, jaux) on the reversed
      route rr: entries iaux..|rr|-2 restarted from inc[iaux-1], the clock
      the cache holds for position iaux; the others kept. */
  function IncUpdated(p: Pdptw, rr: seq<int>, iaux: int, inc: seq<int>): (u: seq<int>)
    requires RouteOk(p, rr) && 1 <= iaux <= |inc|
    ensures |u| == |inc|
  {
    seq(|inc|, k requires 0 <= k < |inc| =>
      if iaux <= k < |rr| - 1 then ClockFrom(p.matrix, p.readyTime, rr, iaux, inc[iaux - 1], k + 1) else inc[k])
  }

  /** The clock update is exact: a cache that followed the route follows
      the reversed one. */
  lemma {:induction false} IncUpdatedFollows(p: Pdptw, r: seq<int>, inc: seq<int>, iaux: int, jaux: int)
    requires RouteOk(p, r) && IncFollows(p, r, inc) && 1 <= iaux <= jaux < |r|
    ensures RouteOk(p, ReversedSpan(r, iaux + 1, jaux))
    ensures IncFollows(p, ReversedSpan(r, iaux + 1, jaux), IncUpdated(p, ReversedSpan(r, iaux + 1, jaux), iaux, inc))
  {
    var rr := ReversedSpan(r, iaux + 1, jaux);
    if iaux < jaux {
      ReversedWithin(r, iaux + 1, jaux, p.numNodes);
    } else {
      assert rr == r;
    }
    var u := IncUpdated(p, rr, iaux, inc);
    TimeAtPrefix(p.matrix, p.readyTime, r, rr, 0, iaux);
    assert inc[iaux - 1] == TimeAt(p.matrix, p.readyTime, rr, 0, iaux);
    forall k | 0 <= k < |rr| - 1
      ensures u[k] == TimeAt(p.matrix, p.readyTime, rr, 0, k + 1)
    {
      if k >= iaux {
        ClockFromTimeAt(p.matrix, p.readyTime, rr, 0, iaux, k + 1);
      } else {
        TimeAtPrefix(p.matrix, p.readyTime, r, rr, 0, k + 1);
      }
    }
  }

  /** The cache of exchangeGlobalUpdate once the entries up to hi - 1 have
      been redone. */
  ghost predicate IncRedone(p: Pdptw, rr: seq<int>, iaux: int, inc: seq<int>, u: seq<int>, hi: int)
    requires RouteOk(p, rr) && 1 <= iaux <= |inc| && hi < |rr|
  {
    |u| == |inc|
    && forall k {:trigger u[k]} :: 0 <= k < |u| ==>
         u[k] == if iaux <= k < hi then ClockFrom(p.matrix, p.readyTime, rr, iaux, inc[iaux - 1], k + 1) else inc[k]
  }

  lemma {:induction false} IncRedoneNone(p: Pdptw, rr: seq<int>, iaux: int, inc: seq<int>)
    requires RouteOk(p, rr) && 1 <= iaux <= |inc| && iaux < |rr|
    ensures IncRedone(p, rr, iaux, inc, inc, iaux)
  {
  }

  lemma {:induction false} IncRedoneFull(p: Pdptw, rr: seq<int>, iaux: int, inc: seq<int>, u: seq<int>)
    requires RouteOk(p, rr) && 1 <= iaux <= |inc| && 0 < |rr|
    requires IncRedone(p, rr, iaux, inc, u, |rr| - 1)
    ensures u == IncUpdated(p, rr, iaux, inc)
  {
    var w := IncUpdated(p, rr, iaux, inc);
    assert forall k :: 0 <= k < |u| ==> u[k] == w[k];
  }

  /** The median loop of exchangeGlobalUpdate: swap route[i] with its mirror
      for i from start up to the median and move the precedence pairings of
      the two positions along (CoreLocal2Opt.PrecSwap, with Go's order of
      reads and writes). */
  method SwapSegment(a: array<int>, precedence: map<int, int>, start: int, end: int) returns (swapped: map<int, int>)
    requires start <= end ==> 0 <= start && end < a.Length
    modifies a
    ensures a[..] == ReversedSpan(old(a[..]), start, end)
    ensures swapped == CoreLocal2Opt.PrecSwaps(precedence, start, end, Median(start, end) + 1)
  {
    ghost var r := a[..];
    var median := GoDiv(end - start + 1, 2) + start - 1;
    swapped := precedence;
    var i := start;
    while i <= median
      invariant start <= end ==> start <= i <= median + 1 && median == Median(start, end)
      invariant start > end ==> i == start && median < start
      invariant MirroredUpTo(a[..], r, start, end, i)
      invariant swapped == CoreLocal2Opt.PrecSwaps(precedence, start, end, i)
    {
      var j := end - (i - start);
      ghost var u := a[..];
      MirroredStep(u, r, start, end, i);
      a[i], a[j] := a[j], a[i];
      assert a[..] == u[i := u[j]][j := u[i]];
      ghost var before := swapped;
      var predI := Get(swapped, i);
      var predJ := Get(swapped, j);
      swapped := swapped[predI := j][predJ := i][j := predI][i := predJ];
      assert swapped == CoreLocal2Opt.PrecSwap(before, i, j);
      assert swapped == CoreLocal2Opt.PrecSwaps(precedence, start, end, i + 1);
      i := i + 1;
    }
    MirroredFull(a[..], r, start, end);
  }

  /** One of the two clock loops of exchangeGlobalUpdate: for positions
      lo..hi-1 of the reversed route, carry the clock on and store the clock
      on reaching the next position. */
  method RedoInc(p: Pdptw, a: array<int>, inc: array<int>, ghost iaux: int, ghost inc0: seq<int>, lo: int, hi: int, sum0: int)
    returns (sum: int)
    requires RouteOk(p, a[..]) && inc != a && 1 <= iaux <= lo <= hi <= a.Length - 1
    requires |inc0| == inc.Length && a.Length <= inc.Length + 1
    requires sum0 == ClockFrom(p.matrix, p.readyTime, a[..], iaux, inc0[iaux - 1], lo)
    requires IncRedone(p, a[..], iaux, inc0, inc[..], lo)
    modifies inc
    ensures sum == ClockFrom(p.matrix, p.readyTime, a[..], iaux, inc0[iaux - 1], hi)
    ensures IncRedone(p, a[..], iaux, inc0, inc[..], hi)
  {
    ghost var rr := a[..];
    sum := sum0;
    var i := lo;
    while i < hi
      invariant lo <= i <= hi && rr == a[..]
      invariant sum == ClockFrom(p.matrix, p.readyTime, rr, iaux, inc0[iaux - 1], i)
      invariant IncRedone(p, rr, iaux, inc0, inc[..], i)
    {
      var n1 := a[i];
      var n2 := a[i + 1];
      if p.readyTime[n1] > sum {
        sum := p.readyTime[n1];
      }
      sum := sum + p.matrix[n1][n2];
      ghost var u := inc[..];
      inc[i] := sum;
      assert inc[..] == u[i := sum];
      i := i + 1;
    }
  }

  /** The two clock loops of exchangeGlobalUpdate together: iaux..jaux-1,
      then jaux..|a|-2, from the cached clock inc[iaux-1]. */
  method RedoTail(p: Pdptw, a: array<int>, inc: array<int>, iaux: int, jaux: int)
    requires RouteOk(p, a[..]) && inc != a && 1 <= iaux <= jaux < a.Length <= inc.Length + 1
    modifies inc
    ensures inc[..] == IncUpdated(p, a[..], iaux, old(inc[..]))
  {
    ghost var inc0 := inc[..];
    IncRedoneNone(p, a[..], iaux, inc0);
    var sum := inc[iaux - 1];
    sum := RedoInc(p, a, inc, iaux, inc0, iaux, jaux, sum);
    sum := RedoInc(p, a, inc, iaux, inc0, jaux, a.Length - 1, sum);
    IncRedoneFull(p, a[..], iaux, inc0, inc[..]);
  }

  /** exchangeGlobalUpdate(s, iaux, jaux, inc, precedence, capacity):
      nil caches when iaux > jaux; otherwise reverse route[iaux+1..jaux] by
      the median loop while swapping the precedence pairings, then redo the
      clock cache from iaux to the end of the route, restarting from
      inc[iaux-1]. The capacity cache is neither read nor written, so it is
      not a parameter here. */
  method ExchangeGlobalUpdate(s: Solution, iaux: int, jaux: int, inc: array<int>, precedence: map<int, int>)
    returns (inc': array?<int>, precedence': map<int, int>)
    requires s.Valid() && inc != s.route
    requires iaux <= jaux ==> 1 <= iaux && jaux < s.route.Length <= inc.Length + 1
    modifies s.route, inc
    ensures s.Valid()
    ensures iaux > jaux ==> inc' == null && precedence' == map[]
    ensures iaux > jaux ==> s.route[..] == old(s.route[..]) && inc[..] == old(inc[..])
    ensures iaux <= jaux ==> inc' == inc && s.route[..] == ReversedSpan(old(s.route[..]), iaux + 1, jaux)
    ensures iaux <= jaux ==> precedence' == CoreLocal2Opt.PrecSwaps(precedence, iaux + 1, jaux, Median(iaux + 1, jaux) + 1)
    ensures iaux <= jaux ==> inc[..] == IncUpdated(s.tsp, s.route[..], iaux, old(inc[..]))
  {
    if iaux > jaux {
      return null, map[];
    }
    precedence' := ReverseRoute(s, precedence, iaux + 1, jaux);
    RedoTail(s.tsp, s.route, inc, iaux, jaux);
    inc' := inc;
  }

  /** The median loop of exchangeGlobalUpdate on the route of s: the
      reversed route is still a route of the instance. */
  method ReverseRoute(s: Solution, precedence: map<int, int>, start: int, end: int) returns (swapped: map<int, int>)
    requires s.Valid() && 1 <= start && start - 1 <= end < s.route.Length
    modifies s.route
    ensures s.Valid() && s.route[..] == ReversedSpan(old(s.route[..]), start, end)
    ensures swapped == CoreLocal2Opt.PrecSwaps(precedence, start, end, Median(start, end) + 1)
  {
    ghost var r := s.route[..];
    swapped := SwapSegment(s.route, precedence, start, end);
    if start <= end {
      ReversedWithin(r, start, end, s.tsp.numNodes);
    } else {
      assert s.route[..] == r;
    }
  }

  /** cons2Opt.isFeasible(s, i, j, inc, precedence, capacity) as written:
      the 2-opt test of CoreLocal2Opt.TwoOptCheck (the two loops are the same
      code), started from inc[i] and the cached load at i. */
  method IsFeasible(s: Solution, i: int, j: int, inc: array<int>, precedence: map<int, int>, capacity: map<int, int>)
    returns (ok: bool)
    requires s.Valid() && 0 <= i && i + 1 <= j < s.route.Length && i < inc.Length
    ensures ok == CoreLocal2Opt.TwoOptFeasible(FromStart(s.tsp), s.route[..], inc[i], Get(capacity, i), precedence, i, j)
  {
    ok := CoreLocal2Opt.TwoOptCheck(FromStart(s.tsp), s.route, inc[i], Get(capacity, i), precedence, i, j);
  }

  /** isFeasible started from the clock the cache holds for position i,
      inc[i-1] (0 at the start of the route), as exchangeGlobalUpdate does.
      With caches that follow the route the verdict is exact: the move is
      accepted exactly when the reversed route reaches every later position
      by its due date, keeps every later load within capacity and no cached
      pair lies inside the segment. */
  method IsFeasibleAtClock(s: Solution, i: int, j: int, inc: array<int>, precedence: map<int, int>, capacity: map<int, int>)
    returns (ok: bool)
    requires s.Valid() && 0 <= i && i + 1 <= j < s.route.Length && i <= inc.Length
    ensures ok == CoreLocal2Opt.TwoOptFeasible(FromStart(s.tsp), s.route[..], if i == 0 then 0 else inc[i - 1],
                                               Get(capacity, i), precedence, i, j)
    ensures IncFollows(s.tsp, s.route[..], inc[..]) && CoreSolution.LoadsFollow(FromStart(s.tsp), s.route[..], capacity) ==>
      CoreSolution.RouteOk(FromStart(s.tsp), ReversedSpan(s.route[..], i + 1, j))
      && (ok <==> CoreLocal2Opt.WindowsAfter(FromStart(s.tsp), ReversedSpan(s.route[..], i + 1, j), i)
                  && CoreLocal2Opt.NoPairFrom(precedence, i, j, i + 2))
  {
    var sum := if i == 0 then 0 else inc[i - 1];
    ok := CoreLocal2Opt.TwoOptCheck(FromStart(s.tsp), s.route, sum, Get(capacity, i), precedence, i, j);
    var q := FromStart(s.tsp);
    if IncFollows(s.tsp, s.route[..], inc[..]) && CoreSolution.LoadsFollow(q, s.route[..], capacity) {
      assert sum == TimeAt(q.matrix, q.readyTime, s.route[..], q.traveled, i);
      assert Get(capacity, i) == Load(q.demands, s.route[..], q.carrying, i + 1);
      CoreLocal2Opt.TwoOptFeasibleIffWindows(q, s.route[..], precedence, i, j);
    }
  }

  /** isTWfeasible(s, i, j, inc): the time tests of isFeasible alone, from
      inc[i]; it is isFeasible's test on the instance without demands. */
  method IsTwFeasible(s: Solution, i: int, j: int, inc: array<int>) returns (ok: bool)
    requires s.Valid() && 0 <= i && i + 1 <= j < s.route.Length && i < inc.Length
    ensures ok == CoreLocal2Opt.TwoOptFeasible(TimesOnly(s.tsp), s.route[..], inc[i], 0, map[], i, j)
  {
    ok := CoreLocal2Opt.TwoOptCheck(TimesOnly(s.tsp), s.route, inc[i], 0, map[], i, j);
  }

  /** With no demands the load never moves from where it starts. */
  lemma {:induction false} LoadWithoutDemands(r: seq<int>, c0: int, k: nat)
    requires k <= |r|
    ensures Load(map[], r, c0, k) == c0
  {
    if k > 0 {
      LoadWithoutDemands(r, c0, k - 1);
    }
  }

  /** Route rr, started at time 0, reaches every position after i by its
      due date. */
  ghost predicate DueDatesAfter(p: Pdptw, rr: seq<int>, i: int)
    requires RouteOk(p, rr) && 0 <= i
  {
    forall x :: i < x < |rr| ==> TimeAt(p.matrix, p.readyTime, rr, 0, x) <= p.dueDate[rr[x]]
  }

  /** Started from the true clock, the time-only test accepts the move
      exactly when the reversed route reaches every position after i by its
      due date. */
  lemma {:induction false} TimesOnlyIffDueDates(p: Pdptw, r: seq<int>, i: int, j: int)
    requires RouteOk(p, r) && 0 <= i && i + 1 <= j < |r|
    ensures RouteOk(p, ReversedSpan(r, i + 1, j))
    ensures CoreLocal2Opt.TwoOptFeasible(TimesOnly(p), r, TimeAt(p.matrix, p.readyTime, r, 0, i), 0, map[], i, j)
      <==> DueDatesAfter(p, ReversedSpan(r, i + 1, j), i)
  {
    var q := TimesOnly(p);
    var rr := ReversedSpan(r, i + 1, j);
    ReversedWithin(r, i + 1, j, p.numNodes);
    assert RouteOk(q, r) && RouteOk(q, rr);
    LoadWithoutDemands(r, 0, i + 1);
    assert Load(q.demands, r, q.carrying, i + 1) == 0;
    assert TimeAt(q.matrix, q.readyTime, r, q.traveled, i) == TimeAt(p.matrix, p.readyTime, r, 0, i);
    CoreLocal2Opt.TwoOptFeasibleIffWindows(q, r, map[], i, j);
    assert CoreLocal2Opt.NoPairFrom(map[], i, j, i + 2);
    forall x | i < x < |rr| ensures CoreLocal2Opt.WindowOk(q, rr, x) <==> TimeAt(p.matrix, p.readyTime, rr, 0, x) <= p.dueDate[rr[x]] {
      LoadWithoutDemands(rr, 0, x);
    }
    assert CoreLocal2Opt.WindowsAfter(q, rr, i) <==> DueDatesAfter(p, rr, i);
  }

  /** calcProfit(s, travelled, i, j): the two added edges minus the two
      removed ones (travelled is never read). On a symmetric matrix it is
      exactly the change of the total distance that reversing
      route[i+1..j] makes. */
  function CalcProfit(p: Pdptw, r: seq<int>, i: int, j: int): (profit: int)
    requires RouteOk(p, r) && 0 <= i && i + 1 < |r| && 0 <= j && j + 1 < |r|
    ensures i + 1 <= j && CoreObjective.Symmetric(p.matrix) ==>
      Within(ReversedSpan(r, i + 1, j), |p.matrix|)
      && profit == TotalDist(p.matrix, ReversedSpan(r, i + 1, j)) - TotalDist(p.matrix, r)
  {
    var n1 := r[i];
    var n2 := r[i + 1];
    var e1 := p.matrix[n1][n2];
    var n3 := r[j];
    var n4 := r[j + 1];
    var e2 := p.matrix[n3][n4];
    var e3 := p.matrix[n1][n3];
    var e4 := p.matrix[n2][n4];
    ProfitIsLengthChange(p, r, i, j);
    (e3 + e4) - (e1 + e2)
  }

  lemma {:induction false} ProfitIsLengthChange(p: Pdptw, r: seq<int>, i: int, j: int)
    requires RouteOk(p, r) && 0 <= i && i + 1 < |r| && 0 <= j && j + 1 < |r|
    ensures i + 1 <= j && CoreObjective.Symmetric(p.matrix) ==>
      Within(ReversedSpan(r, i + 1, j), |p.matrix|)
      && (p.matrix[r[i]][r[j]] + p.matrix[r[i + 1]][r[j + 1]]) - (p.matrix[r[i]][r[i + 1]] + p.matrix[r[j]][r[j + 1]])
         == TotalDist(p.matrix, ReversedSpan(r, i + 1, j)) - TotalDist(p.matrix, r)
  {
    if i + 1 <= j && CoreObjective.Symmetric(p.matrix) {
      ReversedWithin(r, i + 1, j, |p.matrix|);
      CoreObjective.EdgeSumReversed(p.matrix, r, i + 1, j, i + 1, j);
      assert i + 1 + j - j == i + 1 && i + 1 + j - (i + 1) == j;
      ReversalLengthChange(p.matrix, r, i, j);
    }
  }

  /** Once the reversed segment has the length it had, the route's length
      changes by the two new edges minus the two old ones. */
  lemma {:induction false} ReversalLengthChange(m: seq<seq<int>>, r: seq<int>, i: int, j: int)
    requires Square(m) && Within(r, |m|) && 0 <= i && i + 1 <= j && j + 1 < |r|
    requires Within(ReversedSpan(r, i + 1, j), |m|)
    requires CoreObjective.EdgeSum(m, ReversedSpan(r, i + 1, j), i + 1, j) == CoreObjective.EdgeSum(m, r, i + 1, j)
    ensures (m[r[i]][r[j]] + m[r[i + 1]][r[j + 1]]) - (m[r[i]][r[i + 1]] + m[r[j]][r[j + 1]])
         == TotalDist(m, ReversedSpan(r, i + 1, j)) - TotalDist(m, r)
  {
    var rr := ReversedSpan(r, i + 1, j);
    var n := |r|;
    CoreObjective.TotalDistAround(m, r, i, j);
    CoreObjective.TotalDistAround(m, rr, i, j);
    CoreObjective.EdgeSumOutsideReversal(m, r, i + 1, j, 0, i);
    CoreObjective.EdgeSumOutsideReversal(m, r, i + 1, j, j + 1, n - 1);
    assert rr[i] == r[i] && rr[i + 1] == r[j] && rr[j] == r[i + 1] && rr[j + 1] == r[j + 1];
  }

  /** Contains(a, x): x occurs in a. */
  method Contains(a: seq<int>, x: int) returns (found: bool)
    ensures found <==> x in a
  {
    var k := 0;
    while k < |a|
      invariant 0 <= k <= |a| && x !in a[..k]
    {
      if x == a[k] {
        return true;
      }
      assert a[..k + 1] == a[..k] + [a[k]];
      k := k + 1;
    }
    assert a[..k] == a;
    return false;
  }

  // ---- The three cache discrepancies of cons2Opt, each on a concrete route.

  /** The instance of the first example: five nodes, every travel time 1
      except 1 -> 2, which takes 10; node 3 is due at 5, every other node at
      100; no demands, no pairs. */
  function ClockExample(): (p: Pdptw)
    ensures WellFormed(p) && p.numNodes == 5
  {
    Pdptw("", 0, 0, 5, 0, 0,
          seq(5, a => seq(5, b => if a == 1 && b == 2 then 10 else 1)),
          seq(5, _ => 0), [100, 100, 100, 5, 100], map[], map[], map[], map[])
  }

  /** The route of the three examples, its move (1, 3), and the caches
      calcGlobals computes for it on ClockExample. */
  const ExampleRoute: seq<int> := [0, 1, 2, 3, 4]
  const ExampleMoved: seq<int> := [0, 1, 3, 2, 4]
  const ExampleInc: seq<int> := [1, 11, 12, 13, 0]
  const ExampleLoads: map<int, int> := map[0 := 0, 1 := 0, 2 := 0, 3 := 0]

  lemma {:induction false} ExampleMove()
    ensures Within(ExampleRoute, 5) && Within(ExampleMoved, 5)
    ensures ReversedSpan(ExampleRoute, 2, 3) == ExampleMoved
  {
    var rr := ReversedSpan(ExampleRoute, 2, 3);
    assert rr[2] == 3 && rr[3] == 2;
  }

  /** The clock cache of ExampleRoute on ClockExample: 1, 11, 12, 13 on
      reaching positions 1..4, and 0 in the last slot. */
  lemma {:induction false} ExampleIncFollows()
    ensures RouteOk(ClockExample(), ExampleRoute)
    ensures IncFollows(ClockExample(), ExampleRoute, ExampleInc)
  {
    var p := ClockExample();
    var m := p.matrix;
    var rd := p.readyTime;
    var r := ExampleRoute;
    ExampleMove();
    assert m[0][1] == 1 && m[1][2] == 10 && m[2][3] == 1 && m[3][4] == 1;
    assert TimeAt(m, rd, r, 0, 1) == 1;
    assert TimeAt(m, rd, r, 0, 2) == 11;
    assert TimeAt(m, rd, r, 0, 3) == 12;
    assert TimeAt(m, rd, r, 0, 4) == 13;
  }

  /** Without demands every load of ExampleRoute is 0. */
  lemma {:induction false} ExampleLoadsFollow()
    ensures RouteOk(ClockExample(), ExampleRoute)
    ensures CoreSolution.LoadsFollow(FromStart(ClockExample()), ExampleRoute, ExampleLoads)
  {
    var q := FromStart(ClockExample());
    var r := ExampleRoute;
    ExampleMove();
    forall k | 0 <= k < 4 ensures ExampleLoads[k] == Load(q.demands, r, q.carrying, k + 1) {
      LoadWithoutDemands(r, 0, k + 1);
    }
  }

  /** The caches of ExampleRoute on ClockExample. */
  lemma {:induction false} ClockExampleCaches()
    ensures RouteOk(ClockExample(), ExampleRoute)
    ensures Follows(ClockExample(), ExampleRoute, ExampleInc, PredOf(ClockExample(), ExampleRoute), ExampleLoads)
  {
    ExampleIncFollows();
    ExampleLoadsFollow();
  }

  /** From the true clock the move (1, 3) passes, and the reversed route
      meets every due date after position 1. */
  lemma {:induction false} ClockExampleAccepts()
    ensures RouteOk(ClockExample(), ExampleRoute) && CoreSolution.RouteOk(FromStart(ClockExample()), ExampleMoved)
    ensures CoreLocal2Opt.WindowsAfter(FromStart(ClockExample()), ExampleMoved, 1)
    ensures CoreLocal2Opt.TwoOptFeasible(FromStart(ClockExample()), ExampleRoute, 1, 0, PredOf(ClockExample(), ExampleRoute), 1, 3)
  {
    var p := ClockExample();
    var q := FromStart(p);
    var m := p.matrix;
    var rd := p.readyTime;
    var r := ExampleRoute;
    var rr := ExampleMoved;
    ExampleMove();
    assert m[0][1] == 1 && m[1][3] == 1 && m[3][2] == 1 && m[2][4] == 1;
    assert TimeAt(m, rd, rr, 0, 1) == 1;
    assert TimeAt(m, rd, rr, 0, 2) == 2;
    assert TimeAt(m, rd, rr, 0, 3) == 3;
    assert TimeAt(m, rd, rr, 0, 4) == 4;
    forall x | 1 < x < 5 ensures CoreLocal2Opt.WindowOk(q, rr, x) {
      LoadWithoutDemands(rr, 0, x);
    }
    assert TimeAt(m, rd, r, 0, 1) == 1;
    LoadWithoutDemands(r, 0, 2);
    var prec := PredOf(p, r);
    FirstIndexAt(r, 0, 0);
    assert forall k :: 0 <= k < 5 ==> Get(p.pred, r[k]) == 0;
    assert forall k :: k in prec ==> prec[k] == 0;
    CoreLocal2Opt.TwoOptFeasibleIffWindows(q, r, prec, 1, 3);
  }

  /** From inc[1] = 11 the reversed route reaches node 3 at 12, after its
      due date 5. */
  lemma {:induction false} ClockExampleRejects()
    ensures RouteOk(ClockExample(), ExampleRoute)
    ensures !CoreLocal2Opt.TwoOptFeasible(FromStart(ClockExample()), ExampleRoute, 11, 0, PredOf(ClockExample(), ExampleRoute), 1, 3)
  {
    var p := ClockExample();
    var q := FromStart(p);
    var rr := ExampleMoved;
    ExampleMove();
    assert p.matrix[1][3] == 1;
    assert ClockFrom(p.matrix, p.readyTime, rr, 1, 11, 2) == 12;
    CoreLocal2Opt.ChecksPassShrink(q, rr, 1, 11, 0, 2, 4);
  }

  /** Finding: isFeasible starts the reversed route from inc[i], the clock
      on reaching position i+1, although the reversed route leaves position
      i at the clock inc[i-1]. On ExampleRoute of ClockExample, with caches
      that follow it, the move (1, 3) is profitable and the reversed route
      meets every due date, yet the test as written (IsFeasible) rejects it;
      from inc[0], as IsFeasibleAtClock starts, the test accepts it. */
  lemma {:induction false} StartClockRejectsMove()
    ensures RouteOk(ClockExample(), ExampleRoute)
    ensures Follows(ClockExample(), ExampleRoute, ExampleInc, PredOf(ClockExample(), ExampleRoute), ExampleLoads)
    ensures CoreObjective.ProfitableArgs(CoreObjective.TotalTime, ClockExample(), ExampleRoute, 1, 3, [])
    ensures CoreObjective.Profitable(CoreObjective.TotalTime, ClockExample(), ExampleRoute, 1, 3, [])
    ensures CoreSolution.RouteOk(FromStart(ClockExample()), ReversedSpan(ExampleRoute, 2, 3))
    ensures CoreLocal2Opt.WindowsAfter(FromStart(ClockExample()), ReversedSpan(ExampleRoute, 2, 3), 1)
    ensures !CoreLocal2Opt.TwoOptFeasible(FromStart(ClockExample()), ExampleRoute, ExampleInc[1], Get(ExampleLoads, 1),
                                          PredOf(ClockExample(), ExampleRoute), 1, 3)
    ensures CoreLocal2Opt.TwoOptFeasible(FromStart(ClockExample()), ExampleRoute, ExampleInc[0], Get(ExampleLoads, 1),
                                         PredOf(ClockExample(), ExampleRoute), 1, 3)
  {
    ExampleMove();
    ClockExampleCaches();
    ClockExampleAccepts();
    ClockExampleRejects();
    var m := ClockExample().matrix;
    assert m[1][2] == 10 && m[3][4] == 1 && m[1][3] == 1 && m[2][4] == 1;
  }

  /** The instance of the second and third examples: the pair 2 -> 3 (node
      2 picks up one unit that node 3 delivers), otherwise ClockExample. */
  function PairExample(): (p: Pdptw)
    ensures WellFormed(p) && p.numNodes == 5
  {
    ClockExample().(pred := map[2 := -3, 3 := 2], precedence := map[3 := 2], demands := map[2 := 1, 3 := -1])
  }

  /** Finding: exchangeGlobalUpdate moves the precedence pairings of the
      swapped positions with them, but a pairing names the position of the
      partner, which the reversal moves as well. On ExampleRoute of
      PairExample, whose positions 2 and 3 hold the pair, the move (1, 3)
      leaves position 2 paired with itself in the updated cache, while
      calcGlobals on the new route pairs it with position 3. */
  lemma {:induction false} SwappedPairsDrift()
    ensures RouteOk(PairExample(), ExampleRoute)
    ensures Get(CoreLocal2Opt.PrecSwaps(PredOf(PairExample(), ExampleRoute), 2, 3, Median(2, 3) + 1), 2) == 2
    ensures Get(PredOf(PairExample(), ReversedSpan(ExampleRoute, 2, 3)), 2) == 3
  {
    ExampleMove();
    PairsBefore();
    PairsAfter();
    assert Median(2, 3) + 1 == 3;
    SwapOfPair(PredOf(PairExample(), ExampleRoute));
  }

  /** The median loop over positions 2..3 swaps a pairing of 2 with 3 into
      pairings of each position with itself. */
  lemma {:induction false} SwapOfPair(prec: map<int, int>)
    requires Get(prec, 2) == 3 && Get(prec, 3) == 2
    ensures Get(CoreLocal2Opt.PrecSwaps(prec, 2, 3, 3), 2) == 2
  {
    assert CoreLocal2Opt.PrecSwaps(prec, 2, 3, 2) == prec;
    assert CoreLocal2Opt.PrecSwaps(prec, 2, 3, 3) == CoreLocal2Opt.PrecSwap(prec, 2, 3);
  }

  /** calcGlobals on ExampleRoute pairs positions 2 and 3. */
  lemma {:induction false} PairsBefore()
    ensures Get(PredOf(PairExample(), ExampleRoute), 2) == 3 && Get(PredOf(PairExample(), ExampleRoute), 3) == 2
  {
    var r := ExampleRoute;
    var p := PairExample();
    assert Get(p.pred, r[2]) == -3 && Get(p.pred, r[3]) == 2;
    FirstIndexAt(r, 3, 3);
    FirstIndexAt(r, 2, 2);
  }

  /** calcGlobals on the moved route pairs position 2 with position 3. */
  lemma {:induction false} PairsAfter()
    ensures Get(PredOf(PairExample(), ExampleMoved), 2) == 3
  {
    var rr := ExampleMoved;
    var p := PairExample();
    assert Get(p.pred, rr[2]) == 2;
    assert rr[..3] == [0, 1, 3];
    FirstIndexAt(rr, 2, 3);
  }

  /** The instance of the reachable examples: ClockExample with every due
      date 100, capacity 1, and the pair 2 -> 4 (node 2 picks up one unit
      that node 4 delivers). On ExampleRoute the move (1, 3) reverses
      positions 2..3, which hold the pickup and the unpaired node 3. */
  function StaleExample(): (p: Pdptw)
    ensures WellFormed(p) && p.numNodes == 5
  {
    ClockExample().(capacity := 1, dueDate := [100, 100, 100, 100, 100],
                    pred := map[2 := -4, 4 := 2], precedence := map[4 := 2], demands := map[2 := 1, 4 := -1])
  }

  /** The load cache calcGlobals computes for ExampleRoute on StaleExample. */
  const StaleLoads: map<int, int> := map[0 := 0, 1 := 0, 2 := 1, 3 := 1]

  /** StaleExample has the travel and ready times of ClockExample, so the
      clock cache of ExampleRoute is the same. */
  lemma {:induction false} StaleIncFollows()
    ensures RouteOk(StaleExample(), ExampleRoute)
    ensures IncFollows(StaleExample(), ExampleRoute, ExampleInc)
  {
    ExampleIncFollows();
    assert StaleExample().matrix == ClockExample().matrix && StaleExample().readyTime == ClockExample().readyTime;
  }

  /** The loads of ExampleRoute on StaleExample: the pickup at position 2
      puts one unit on board, which stays until the delivery at 4. */
  lemma {:induction false} StaleLoadsFollow()
    ensures RouteOk(StaleExample(), ExampleRoute)
    ensures CoreSolution.LoadsFollow(FromStart(StaleExample()), ExampleRoute, StaleLoads)
  {
    var q := FromStart(StaleExample());
    var r := ExampleRoute;
    ExampleMove();
    assert Load(q.demands, r, 0, 1) == 0;
    assert Load(q.demands, r, 0, 2) == 0;
    assert Load(q.demands, r, 0, 3) == 1;
    assert Load(q.demands, r, 0, 4) == 1;
  }

  /** calcGlobals on ExampleRoute of StaleExample pairs position 2 with
      position 4 and gives the unpaired position 3 the partner 0. */
  lemma {:induction false} StalePairs()
    ensures Get(PredOf(StaleExample(), ExampleRoute), 2) == 4 && Get(PredOf(StaleExample(), ExampleRoute), 3) == 0
  {
    var p := StaleExample();
    var r := ExampleRoute;
    assert Get(p.pred, r[2]) == -4 && Get(p.pred, r[3]) == 0;
    FirstIndexAt(r, 4, 4);
    FirstIndexAt(r, 0, 0);
  }

  /** calcGlobals on ExampleRoute of StaleExample: the clock cache of
      ClockExample, position 2 paired with position 4, and StaleLoads. */
  lemma {:induction false} StaleExampleCaches()
    ensures RouteOk(StaleExample(), ExampleRoute)
    ensures Follows(StaleExample(), ExampleRoute, ExampleInc, PredOf(StaleExample(), ExampleRoute), StaleLoads)
    ensures Get(PredOf(StaleExample(), ExampleRoute), 2) == 4 && Get(PredOf(StaleExample(), ExampleRoute), 3) == 0
  {
    StaleIncFollows();
    StaleLoadsFollow();
    StalePairs();
  }

  /** From clock 11 at position 1 the reversed route reaches positions 2..4
      at 12, 13 and 14 and carries at most one unit. */
  lemma {:induction false} StaleChecksPass()
    ensures CoreSolution.RouteOk(FromStart(StaleExample()), ExampleMoved)
    ensures CoreLocal2Opt.ChecksPass(FromStart(StaleExample()), ExampleMoved, 1, 11, 0, 4)
  {
    var q := FromStart(StaleExample());
    var m := q.matrix;
    var rd := q.readyTime;
    var rr := ExampleMoved;
    ExampleMove();
    assert m[1][3] == 1 && m[3][2] == 1 && m[2][4] == 1;
    assert ClockFrom(m, rd, rr, 1, 11, 2) == 12;
    assert ClockFrom(m, rd, rr, 1, 11, 3) == 13;
    assert ClockFrom(m, rd, rr, 1, 11, 4) == 14;
    assert LoadFrom(q.demands, rr, 2, 0, 2) == 0;
    assert LoadFrom(q.demands, rr, 2, 0, 3) == 0;
    assert LoadFrom(q.demands, rr, 2, 0, 4) == 1;
    assert CoreLocal2Opt.ChecksPass(q, rr, 1, 11, 0, 1);
    assert CoreLocal2Opt.ChecksPass(q, rr, 1, 11, 0, 2);
    assert CoreLocal2Opt.ChecksPass(q, rr, 1, 11, 0, 3);
  }

  /** With those caches cons2Opt takes the move (1, 3) from position 1: it
      is profitable, and the test as written, started from inc[1] = 11,
      accepts it (StaleChecksPass, and no cached partner lies strictly
      between 1 and 3). */
  lemma {:induction false} StaleMoveTaken()
    ensures RouteOk(StaleExample(), ExampleRoute)
    ensures CoreObjective.ProfitableArgs(CoreObjective.TotalTime, StaleExample(), ExampleRoute, 1, 3, [])
    ensures CoreObjective.Profitable(CoreObjective.TotalTime, StaleExample(), ExampleRoute, 1, 3, [])
    ensures CoreLocal2Opt.TwoOptFeasible(FromStart(StaleExample()), ExampleRoute, ExampleInc[1], Get(StaleLoads, 1),
                                         PredOf(StaleExample(), ExampleRoute), 1, 3)
  {
    var m := StaleExample().matrix;
    ExampleMove();
    StaleExampleCaches();
    StaleChecksPass();
    assert m[1][2] == 10 && m[3][4] == 1 && m[1][3] == 1 && m[2][4] == 1;
    assert CoreLocal2Opt.NoPairFrom(PredOf(StaleExample(), ExampleRoute), 1, 3, 3);
  }

  /** Finding: the load cache is never updated after a move. On ExampleRoute
      of StaleExample cons2Opt takes the move (1, 3) (StaleMoveTaken); the
      cache then still says one unit on board after position 2, while the
      new route carries nothing there. */
  lemma {:induction false} LoadsGoStale()
    ensures RouteOk(StaleExample(), ExampleRoute)
    ensures Follows(StaleExample(), ExampleRoute, ExampleInc, PredOf(StaleExample(), ExampleRoute), StaleLoads)
    ensures CoreLocal2Opt.TwoOptFeasible(FromStart(StaleExample()), ExampleRoute, ExampleInc[1], Get(StaleLoads, 1),
                                         PredOf(StaleExample(), ExampleRoute), 1, 3)
    ensures CoreSolution.RouteOk(FromStart(StaleExample()), ReversedSpan(ExampleRoute, 2, 3))
    ensures !CoreSolution.LoadsFollow(FromStart(StaleExample()), ReversedSpan(ExampleRoute, 2, 3), StaleLoads)
  {
    ExampleMove();
    StaleExampleCaches();
    StaleMoveTaken();
    StaleMovedLoad();
    assert StaleLoads[2] != Load(FromStart(StaleExample()).demands, ExampleMoved, FromStart(StaleExample()).carrying, 3);
  }

  /** After the move position 2 holds the unpaired node 3, so nothing is on
      board after it. */
  lemma {:induction false} StaleMovedLoad()
    ensures Within(ExampleMoved, 5)
    ensures Load(FromStart(StaleExample()).demands, ExampleMoved, FromStart(StaleExample()).carrying, 3) == 0
  {
    var q := FromStart(StaleExample());
    ExampleMove();
    assert Load(q.demands, ExampleMoved, 0, 3) == 0;
  }

  /** Finding: exchangeGlobalUpdate writes precedence[pred_i] and
      precedence[pred_j] even when the partner read is 0, the pairing of an
      unpaired position (indexOf finds node 0 at position 0). After the move
      that StaleMoveTaken shows cons2Opt takes, the entry of position 0 holds
      2, while calcGlobals on the new route gives 0, so the cache no longer
      equals the recomputed one the source compares it with. */
  lemma {:induction false} OriginEntryDrifts()
    ensures RouteOk(StaleExample(), ExampleRoute)
    ensures Get(CoreLocal2Opt.PrecSwaps(PredOf(StaleExample(), ExampleRoute), 2, 3, Median(2, 3) + 1), 0) == 2
    ensures Get(PredOf(StaleExample(), ReversedSpan(ExampleRoute, 2, 3)), 0) == 0
  {
    var prec := PredOf(StaleExample(), ExampleRoute);
    ExampleMove();
    StaleExampleCaches();
    assert Median(2, 3) + 1 == 3;
    assert CoreLocal2Opt.PrecSwaps(prec, 2, 3, 2) == prec;
    assert CoreLocal2Opt.PrecSwaps(prec, 2, 3, 3) == CoreLocal2Opt.PrecSwap(prec, 2, 3);
    FirstIndexAt(ExampleMoved, 0, 0);
  }

  /** The drift of SwappedPairsDrift stays latent in cons2Opt: a move whose
      segment holds a position b paired with a position a of the segment
      before it is always rejected by the test, whatever clock and load it
      starts from, because b's partner lies strictly between i and j. */
  lemma {:induction false} PairInsideRejected(p: Pdptw, r: seq<int>, t: int, c: int, prec: map<int, int>,
                                              i: int, j: int, a: int, b: int)
    requires RouteOk(p, r) && 0 <= i && i + 1 <= a < b <= j < |r| && Get(prec, b) == a
    ensures !CoreLocal2Opt.TwoOptFeasible(p, r, t, c, prec, i, j)
  {
    assert i + 2 <= b <= j && i < Get(prec, b) < j;
  }

  /** One accepted move of cons2Opt with the caches it evidently means to
      keep: exchangeGlobalUpdate reverses the segment and redoes the clock
      cache, then calcGlobals recomputes the precedence and load caches
      (the source computes them there only to compare). The clock cache
      agrees with the recomputed one, so that comparison never fails. */
  method ApplyMove(s: Solution, i: int, j: int, inc: array<int>, precedence: map<int, int>)
    returns (precedence': map<int, int>, capacity': map<int, int>, incAgrees: bool)
    requires s.Valid() && inc != s.route && 1 <= i < j < s.route.Length
    requires IncFollows(s.tsp, s.route[..], inc[..])
    modifies s.route, inc
    ensures s.Valid() && s.route[..] == ReversedSpan(old(s.route[..]), i + 1, j)
    ensures Follows(s.tsp, s.route[..], inc[..], precedence', capacity') && incAgrees
  {
    ghost var r := s.route[..];
    ghost var inc0 := inc[..];
    var incOut, swapped := ExchangeGlobalUpdate(s, i, j, inc, precedence);
    IncUpdatedFollows(s.tsp, r, inc0, i, j);
    var inc2, pred2, cap2 := CalcGlobals(s);
    IncFollowsUnique(s.tsp, s.route[..], inc2[..], inc[..]);
    incAgrees := Equal(inc2[..], inc[..]);
    precedence', capacity' := pred2, cap2;
  }

  // ---- cons2Opt.local2Opt

  /** A move (i, j) cons2Opt takes: the e1+e2 > e3+e4 test with node 0 for
      route[j+1] at the last index, and the feasibility test from the true
      clock and load at i. */
  ghost predicate GoodMove(p: Pdptw, r: seq<int>, prec: map<int, int>, i: int, j: int)
    requires RouteOk(p, r) && 1 <= i && i + 2 <= j < p.numNodes <= |r|
  {
    CoreObjective.ProfitableArgs(CoreObjective.TotalTime, p, r, i, j, [])
    && CoreObjective.Profitable(CoreObjective.TotalTime, p, r, i, j, [])
    && CoreLocal2Opt.TwoOptFeasible(FromStart(p), r, TimeAt(p.matrix, p.readyTime, r, 0, i),
                                    Load(p.demands, r, 0, i + 1), prec, i, j)
  }

  /** The inner loop of cons2Opt.local2Opt for start position i: the first
      j from i+2 on whose move is profitable and feasible. */
  method FirstMove(s: Solution, i: int, inc: array<int>, precedence: map<int, int>, capacity: map<int, int>)
    returns (found: bool, j: int)
    requires s.Valid() && 2 <= s.tsp.numNodes <= s.route.Length && 1 <= i <= s.tsp.numNodes - 2
    requires IncFollows(s.tsp, s.route[..], inc[..]) && CoreSolution.LoadsFollow(FromStart(s.tsp), s.route[..], capacity)
    ensures found ==> i + 2 <= j < s.tsp.numNodes && GoodMove(s.tsp, s.route[..], precedence, i, j)
    ensures forall j' :: i + 2 <= j' < s.tsp.numNodes && (!found || j' < j) ==> !GoodMove(s.tsp, s.route[..], precedence, i, j')
  {
    var p := s.tsp;
    var numNodes := p.numNodes;
    var n1 := s.route[i];
    var n2 := s.route[i + 1];
    var e1 := p.matrix[n1][n2];
    found := false;
    j := i + 2;
    while j < numNodes
      invariant i + 2 <= j <= numNodes
      invariant forall j' :: i + 2 <= j' < j ==> !GoodMove(p, s.route[..], precedence, i, j')
    {
      var ok := TestMove(s, i, j, e1, inc, precedence, capacity);
      if ok {
        found := true;
        return;
      }
      j := j + 1;
    }
  }

  /** One pass of the inner loop of cons2Opt.local2Opt: the e1+e2 > e3+e4
      test, then isFeasible from the cached clock and load; together they
      are GoodMove. */
  method TestMove(s: Solution, i: int, j: int, e1: int, inc: array<int>, precedence: map<int, int>, capacity: map<int, int>)
    returns (ok: bool)
    requires s.Valid() && 2 <= s.tsp.numNodes <= s.route.Length && 1 <= i && i + 2 <= j < s.tsp.numNodes
    requires e1 == s.tsp.matrix[s.route[i]][s.route[i + 1]]
    requires IncFollows(s.tsp, s.route[..], inc[..]) && CoreSolution.LoadsFollow(FromStart(s.tsp), s.route[..], capacity)
    ensures ok == GoodMove(s.tsp, s.route[..], precedence, i, j)
  {
    var p := s.tsp;
    var n1 := s.route[i];
    var n2 := s.route[i + 1];
    var n3 := s.route[j];
    var n4 := 0;
    if j < p.numNodes - 1 {
      n4 := s.route[j + 1];
    }
    var e2 := p.matrix[n3][n4];
    var e3 := p.matrix[n1][n3];
    var e4 := p.matrix[n2][n4];
    ok := false;
    if e1 + e2 > e3 + e4 {
      ok := IsFeasibleAtClock(s, i, j, inc, precedence, capacity);
      assert inc[i - 1] == TimeAt(p.matrix, p.readyTime, s.route[..], 0, i);
    }
  }

  /** A move cons2Opt takes keeps the nodes, the start node and every time
      window and capacity bound that held before. */
  lemma {:induction false} GoodMoveKeeps(p: Pdptw, r0: seq<int>, r: seq<int>, prec: map<int, int>, i: int, j: int)
    requires RouteOk(p, r) && RouteOk(p, r0) && 1 <= i && i + 2 <= j < p.numNodes <= |r| && GoodMove(p, r, prec, i, j)
    requires SameNodes(r, r0) && (CoreLocal2Opt.AllWindowsOk(FromStart(p), r0) ==> CoreLocal2Opt.AllWindowsOk(FromStart(p), r))
    ensures RouteOk(p, ReversedSpan(r, i + 1, j)) && SameNodes(ReversedSpan(r, i + 1, j), r0)
    ensures CoreLocal2Opt.AllWindowsOk(FromStart(p), r0) ==> CoreLocal2Opt.AllWindowsOk(FromStart(p), ReversedSpan(r, i + 1, j))
  {
    ReversedSameNodes(r, r0, i + 1, j, p.numNodes);
    if CoreLocal2Opt.AllWindowsOk(FromStart(p), r0) {
      CoreLocal2Opt.MoveKeepsWindows(FromStart(p), r, prec, i, j);
    }
  }

  /** The move cons2Opt takes: applied with the caches recomputed; the
      route keeps the nodes of r0 and every window r0 met. */
  method TakeMove(s: Solution, ghost r0: seq<int>, i: int, j: int, inc: array<int>, precedence: map<int, int>)
    returns (precedence': map<int, int>, capacity': map<int, int>)
    requires s.Valid() && inc != s.route && RouteOk(s.tsp, r0) && 1 <= i && i + 2 <= j < s.tsp.numNodes <= s.route.Length
    requires IncFollows(s.tsp, s.route[..], inc[..]) && GoodMove(s.tsp, s.route[..], precedence, i, j)
    requires SameNodes(s.route[..], r0)
    requires CoreLocal2Opt.AllWindowsOk(FromStart(s.tsp), r0) ==> CoreLocal2Opt.AllWindowsOk(FromStart(s.tsp), s.route[..])
    modifies s.route, inc
    ensures s.Valid() && s.route[..] == ReversedSpan(old(s.route[..]), i + 1, j)
    ensures Follows(s.tsp, s.route[..], inc[..], precedence', capacity')
    ensures SameNodes(s.route[..], r0)
    ensures CoreLocal2Opt.AllWindowsOk(FromStart(s.tsp), r0) ==> CoreLocal2Opt.AllWindowsOk(FromStart(s.tsp), s.route[..])
  {
    GoodMoveKeeps(s.tsp, r0, s.route[..], precedence, i, j);
    var agrees;
    precedence', capacity', agrees := ApplyMove(s, i, j, inc, precedence);
  }

  /** cons2Opt.local2Opt(s): compute the caches; draw a start position from
      the candidates 1..numNodes-2; take the first profitable move that
      isFeasible accepts, apply it and refill the candidates, or drop the
      position. Moves are tested from the true clock and the caches are
      recomputed after each move (ApplyMove). The route keeps its nodes and
      start node, and every time window and capacity bound it met. At most
      fuel moves are applied; a further accepted move ends the search. */
  method ConsLocal2Opt(s: Solution, fuel: nat)
    requires s.Valid() && 2 <= s.tsp.numNodes <= s.route.Length
    modifies s.route
    ensures s.Valid() && SameNodes(s.route[..], old(s.route[..]))
    ensures CoreLocal2Opt.AllWindowsOk(FromStart(s.tsp), old(s.route[..])) ==> CoreLocal2Opt.AllWindowsOk(FromStart(s.tsp), s.route[..])
  {
    ghost var r0 := s.route[..];
    ghost var q := FromStart(s.tsp);
    var numNodes := s.tsp.numNodes;
    var setSize := numNodes - 2;
    var cands: seq<int> := [];
    while |cands| < setSize
      invariant |cands| <= setSize && forall y :: 0 <= y < |cands| ==> cands[y] == y + 1
    {
      cands := cands + [|cands| + 1];
    }
    var inc, pred, capacity := CalcGlobals(s);
    var budget := fuel;
    while setSize > 0
      invariant 0 <= setSize <= numNodes - 2 == |cands|
      invariant forall y :: 0 <= y < |cands| ==> 1 <= cands[y] <= numNodes - 2
      invariant s.Valid() && fresh(inc) && Follows(s.tsp, s.route[..], inc[..], pred, capacity)
      invariant SameNodes(s.route[..], r0)
      invariant CoreLocal2Opt.AllWindowsOk(q, r0) ==> CoreLocal2Opt.AllWindowsOk(q, s.route[..])
      decreases budget, setSize
    {
      var stop;
      stop, cands, setSize, pred, capacity, budget := ConsStep(s, r0, cands, setSize, inc, pred, capacity, budget);
      if stop {
        return;
      }
    }
  }

  /** One round of cons2Opt.local2Opt: draw a start position among the
      first setSize candidates and look for its first accepted move. Found
      with no budget left, the search stops; found otherwise, the move is
      applied, the caches follow the new route and all candidates are live
      again at one unit of budget; not found, the position is swapped behind
      the live candidates. */
  method ConsStep(s: Solution, ghost r0: seq<int>, cands: seq<int>, setSize: int,
                  inc: array<int>, pred: map<int, int>, capacity: map<int, int>, budget: nat)
    returns (stop: bool, cands': seq<int>, setSize': int, pred': map<int, int>, capacity': map<int, int>, budget': nat)
    requires s.Valid() && 2 <= s.tsp.numNodes <= s.route.Length && inc != s.route && RouteOk(s.tsp, r0)
    requires 0 < setSize <= s.tsp.numNodes - 2 == |cands|
    requires forall y :: 0 <= y < |cands| ==> 1 <= cands[y] <= s.tsp.numNodes - 2
    requires Follows(s.tsp, s.route[..], inc[..], pred, capacity) && SameNodes(s.route[..], r0)
    requires CoreLocal2Opt.AllWindowsOk(FromStart(s.tsp), r0) ==> CoreLocal2Opt.AllWindowsOk(FromStart(s.tsp), s.route[..])
    modifies s.route, inc
    ensures s.Valid() && 0 <= setSize' <= s.tsp.numNodes - 2 == |cands'|
    ensures forall y :: 0 <= y < |cands'| ==> 1 <= cands'[y] <= s.tsp.numNodes - 2
    ensures Follows(s.tsp, s.route[..], inc[..], pred', capacity') && SameNodes(s.route[..], r0)
    ensures CoreLocal2Opt.AllWindowsOk(FromStart(s.tsp), r0) ==> CoreLocal2Opt.AllWindowsOk(FromStart(s.tsp), s.route[..])
    ensures !stop ==> budget' < budget || (budget' == budget && setSize' < setSize)
  {
    var numNodes := s.tsp.numNodes;
    stop, cands', setSize', pred', capacity', budget' := false, cands, setSize, pred, capacity, budget;
    var pos := Random(0, setSize);
    var npos := cands[pos];
    var found, j := FirstMove(s, npos, inc, pred, capacity);
    if found {
      if budget == 0 {
        stop := true;
        return;
      }
      pred', capacity' := TakeMove(s, r0, npos, j, inc, pred);
      setSize' := numNodes - 2;
      budget' := budget - 1;
    } else {
      SwappedBetween(cands, pos, setSize - 1, 1, numNodes - 2);
      cands' := Swapped(cands, pos, setSize - 1);
      setSize' := setSize - 1;
    }
  }

  // ---- exchange, exchangeDisturb and disturb

  /** The copy both exchanges work on: the first numNodes positions of s,
      with route[start..end] reversed by the median loop. */
  method ReversedCopy(s: Solution, start: int, end: int) returns (c: Solution)
    requires s.Valid() && 0 <= s.tsp.numNodes <= s.route.Length
    requires start <= end ==> 0 <= start && end < s.tsp.numNodes
    ensures fresh(c) && fresh(c.route) && c.tsp == s.tsp && c.Valid()
    ensures c.route[..] == ReversedSpan(s.route[..s.tsp.numNodes], start, end)
    ensures 1 <= start && s.tsp.numNodes == s.route.Length ==> SameNodes(c.route[..], s.route[..])
  {
    c := s.Copy();
    ReverseSpan(c.route, start, end);
    ReversedSpanPerm(s.route[..s.tsp.numNodes], start, end);
    MultisetWithin(s.route[..s.tsp.numNodes], c.route[..], s.tsp.numNodes);
    if 1 <= start && s.tsp.numNodes == s.route.Length {
      assert s.route[..s.tsp.numNodes] == s.route[..];
      if start <= end {
        ReversedSameNodes(s.route[..], s.route[..], start, end, s.tsp.numNodes);
      } else {
        assert c.route[..] == s.route[..];
      }
    }
  }

  /** Reversing route[i+1..j] of r yields a feasible route that finishes
      strictly earlier. */
  ghost predicate Improves(p: Pdptw, r: seq<int>, i: int, j: int)
    requires RouteOk(p, r) && (i <= j ==> -1 <= i && j < p.numNodes) && 0 <= p.numNodes <= |r|
  {
    i <= j
    && var moved := ReversedSpan(r[..p.numNodes], i + 1, j);
       ReversedSpanPerm(r[..p.numNodes], i + 1, j);
       assert Within(r[..p.numNodes], p.numNodes);
       MultisetWithin(r[..p.numNodes], moved, p.numNodes);
       Feasible(p, moved) && Span(p.matrix, p.readyTime, moved, 0) < Span(p.matrix, p.readyTime, r, 0)
  }

  /** exchange(s, iaux, jaux) of local2OptBase and of Local2Opt (the same
      code): s itself when iaux > jaux; otherwise the reversed copy, handed
      back exactly when it is feasible and finishes strictly earlier than
      s. */
  method Exchange(s: Solution, iaux: int, jaux: int) returns (x: Solution, improved: bool)
    requires s.Valid() && 0 <= s.tsp.numNodes <= s.route.Length
    requires iaux <= jaux ==> -1 <= iaux && jaux < s.tsp.numNodes
    ensures x.tsp == s.tsp && x.Valid() && (improved <==> x != s)
    ensures improved <==> Improves(s.tsp, s.route[..], iaux, jaux)
    ensures improved ==> fresh(x) && fresh(x.route) && x.route.Length == s.tsp.numNodes
    ensures improved ==> x.route[..] == ReversedSpan(s.route[..s.tsp.numNodes], iaux + 1, jaux)
    ensures improved ==>
      Feasible(s.tsp, x.route[..])
      && Span(s.tsp.matrix, s.tsp.readyTime, x.route[..], 0) < Span(s.tsp.matrix, s.tsp.readyTime, s.route[..], 0)
    ensures 0 <= iaux && s.tsp.numNodes == s.route.Length ==> SameNodes(x.route[..], s.route[..])
  {
    if iaux > jaux {
      return s, false;
    }
    var prev := s.MakeSpan();
    var c := ReversedCopy(s, iaux + 1, jaux);
    ImprovesUnfold(s.tsp, s.route[..], iaux, jaux);
    var ok := c.IsFeasible();
    if ok {
      var span := c.MakeSpan();
      if prev > span {
        return c, true;
      }
    }
    return s, false;
  }

  /** Improves, spelled out for a segment that is not empty. */
  lemma {:induction false} ImprovesUnfold(p: Pdptw, r: seq<int>, i: int, j: int)
    requires RouteOk(p, r) && -1 <= i <= j < p.numNodes && 0 <= p.numNodes <= |r|
    ensures var moved := ReversedSpan(r[..p.numNodes], i + 1, j);
      RouteOk(p, moved)
      && (Improves(p, r, i, j) <==>
          Feasible(p, moved) && Span(p.matrix, p.readyTime, moved, 0) < Span(p.matrix, p.readyTime, r, 0))
  {
    var moved := ReversedSpan(r[..p.numNodes], i + 1, j);
    ReversedSpanPerm(r[..p.numNodes], i + 1, j);
    assert Within(r[..p.numNodes], p.numNodes);
    MultisetWithin(r[..p.numNodes], moved, p.numNodes);
  }

  /** exchangeDisturb(s, iaux, jaux): the reversed copy, handed back
      exactly when it is feasible, whatever its span. */
  method ExchangeDisturb(s: Solution, iaux: int, jaux: int) returns (x: Solution, changed: bool)
    requires s.Valid() && 0 <= s.tsp.numNodes <= s.route.Length
    requires iaux <= jaux ==> -1 <= iaux && jaux < s.tsp.numNodes
    ensures x.tsp == s.tsp && x.Valid() && (changed <==> x != s)
    ensures iaux > jaux ==> !changed
    ensures iaux <= jaux ==>
      var moved := ReversedSpan(s.route[..s.tsp.numNodes], iaux + 1, jaux);
      RouteOk(s.tsp, moved) && (changed <==> Feasible(s.tsp, moved)) && (changed ==> x.route[..] == moved)
    ensures changed ==> fresh(x) && fresh(x.route) && x.route.Length == s.tsp.numNodes
    ensures 0 <= iaux && s.tsp.numNodes == s.route.Length ==> SameNodes(x.route[..], s.route[..])
  {
    if iaux > jaux {
      return s, false;
    }
    var c := ReversedCopy(s, iaux + 1, jaux);
    var ok := c.IsFeasible();
    if ok {
      return c, true;
    }
    return s, false;
  }

  /** clearExchange(s, iaux, jaux): false when iaux > jaux; otherwise
      route[iaux+1..jaux] of s itself is reversed by the median loop, with
      no test at all, and the answer is true. The route keeps its nodes and
      every position outside the segment. */
  method ClearExchange(s: Solution, iaux: int, jaux: int) returns (done: bool)
    requires iaux <= jaux ==> -1 <= iaux && jaux < s.route.Length
    modifies s.route
    ensures done <==> iaux <= jaux
    ensures s.route[..] == ReversedSpan(old(s.route[..]), iaux + 1, jaux)
    ensures multiset(s.route[..]) == multiset(old(s.route[..]))
    ensures forall k :: 0 <= k < s.route.Length && !(iaux < k <= jaux) ==> s.route[k] == old(s.route[k])
  {
    if iaux > jaux {
      return false;
    }
    ReverseSpan(s.route, iaux + 1, jaux);
    ReversedSpanPerm(old(s.route[..]), iaux + 1, jaux);
    return true;
  }

  /** disturb(s, level) of local2OptBase and of Local2Opt (the same code):
      level times, draw n1 in 1..len and try exchange(s, n1, i) for
      i = n1+1, .., len-1 until one improves. The result is s or a fresh
      feasible solution over the same nodes that finishes strictly
      earlier. */
  method Disturb(s: Solution, level: int) returns (x: Solution)
    requires s.Valid() && s.tsp.numNodes == s.route.Length && (0 < level ==> 0 < s.route.Length)
    ensures x.tsp == s.tsp && x.Valid() && x.route.Length == s.route.Length
    ensures SameNodes(x.route[..], s.route[..])
    ensures Span(s.tsp.matrix, s.tsp.readyTime, x.route[..], 0) <= Span(s.tsp.matrix, s.tsp.readyTime, s.route[..], 0)
    ensures x == s || (fresh(x) && fresh(x.route) && Feasible(s.tsp, x.route[..])
                       && Span(s.tsp.matrix, s.tsp.readyTime, x.route[..], 0) < Span(s.tsp.matrix, s.tsp.readyTime, s.route[..], 0))
  {
    var p := s.tsp;
    x := s;
    var j := 0;
    while j < level
      invariant x.tsp == p && x.Valid() && x.route.Length == s.route.Length && SameNodes(x.route[..], s.route[..])
      invariant Span(p.matrix, p.readyTime, x.route[..], 0) <= Span(p.matrix, p.readyTime, s.route[..], 0)
      invariant x == s || (fresh(x) && fresh(x.route) && Feasible(p, x.route[..])
                           && Span(p.matrix, p.readyTime, x.route[..], 0) < Span(p.matrix, p.readyTime, s.route[..], 0))
    {
      var draw := Random(0, x.route.Length);
      var n1 := draw + 1;
      var i := n1;
      while i < x.route.Length
        invariant x.tsp == p && x.Valid() && x.route.Length == s.route.Length && SameNodes(x.route[..], s.route[..])
        invariant Span(p.matrix, p.readyTime, x.route[..], 0) <= Span(p.matrix, p.readyTime, s.route[..], 0)
        invariant x == s || (fresh(x) && fresh(x.route) && Feasible(p, x.route[..])
                             && Span(p.matrix, p.readyTime, x.route[..], 0) < Span(p.matrix, p.readyTime, s.route[..], 0))
      {
        if i != n1 {
          var imp;
          x, imp := Exchange(x, n1, i);
          if imp {
            break;
          }
        }
        i := i + 1;
      }
      j := j + 1;
    }
  }

  // ---- Local2Opt.local2Opt

  /** The e1+e2 > e3+e4 test of both local2Opt loops. */
  ghost predicate ProfitableAt(p: Pdptw, r: seq<int>, i: int, j: int)
    requires RouteOk(p, r) && 1 <= i && i + 2 <= j < p.numNodes <= |r|
  {
    CoreObjective.ProfitableArgs(CoreObjective.TotalTime, p, r, i, j, [])
    && CoreObjective.Profitable(CoreObjective.TotalTime, p, r, i, j, [])
  }

  /** The inner loop of Local2Opt.local2Opt for start position i: for
      j = i+2, .. the profitable moves are tried with exchange until one
      improves; that one's copy is the result. */
  method TryFrom(s: Solution, i: int) returns (x: Solution, improvement: bool, j: int)
    requires s.Valid() && 2 <= s.tsp.numNodes <= s.route.Length && 1 <= i <= s.tsp.numNodes - 2
    ensures x.tsp == s.tsp && x.Valid() && (improvement <==> x != s)
    ensures improvement ==>
      i + 2 <= j < s.tsp.numNodes && ProfitableAt(s.tsp, s.route[..], i, j)
      && Improves(s.tsp, s.route[..], i, j)
      && x.route[..] == ReversedSpan(s.route[..s.tsp.numNodes], i + 1, j)
    ensures improvement ==>
      fresh(x) && fresh(x.route) && x.route.Length == s.tsp.numNodes
      && Feasible(s.tsp, x.route[..])
      && Span(s.tsp.matrix, s.tsp.readyTime, x.route[..], 0) < Span(s.tsp.matrix, s.tsp.readyTime, s.route[..], 0)
    ensures forall j' :: i + 2 <= j' < s.tsp.numNodes && (!improvement || j' < j) ==>
      !(ProfitableAt(s.tsp, s.route[..], i, j') && Improves(s.tsp, s.route[..], i, j'))
    ensures s.tsp.numNodes == s.route.Length ==> SameNodes(x.route[..], s.route[..])
  {
    var p := s.tsp;
    var numNodes := p.numNodes;
    var n1 := s.route[i];
    var n2 := s.route[i + 1];
    var e1 := p.matrix[n1][n2];
    x, improvement := s, false;
    j := i + 2;
    while j < numNodes
      invariant i + 2 <= j <= numNodes && x == s && !improvement
      invariant forall j' :: i + 2 <= j' < j ==> !(ProfitableAt(p, s.route[..], i, j') && Improves(p, s.route[..], i, j'))
    {
      x, improvement := TryPair(s, i, j, e1);
      if improvement {
        return;
      }
      j := j + 1;
    }
  }

  /** One round of the inner loop of Local2Opt.local2Opt: the move (i, j) is
      tried with exchange when it is profitable, and the result is its copy
      exactly when the move is profitable and improves. */
  method TryPair(s: Solution, i: int, j: int, e1: int) returns (x: Solution, improvement: bool)
    requires s.Valid() && 2 <= s.tsp.numNodes <= s.route.Length && 1 <= i && i + 2 <= j < s.tsp.numNodes
    requires e1 == s.tsp.matrix[s.route[i]][s.route[i + 1]]
    ensures x.tsp == s.tsp && x.Valid() && (improvement <==> x != s)
    ensures improvement <==> ProfitableAt(s.tsp, s.route[..], i, j) && Improves(s.tsp, s.route[..], i, j)
    ensures improvement ==>
      x.route[..] == ReversedSpan(s.route[..s.tsp.numNodes], i + 1, j)
      && fresh(x) && fresh(x.route) && x.route.Length == s.tsp.numNodes
      && Feasible(s.tsp, x.route[..])
      && Span(s.tsp.matrix, s.tsp.readyTime, x.route[..], 0) < Span(s.tsp.matrix, s.tsp.readyTime, s.route[..], 0)
    ensures s.tsp.numNodes == s.route.Length ==> SameNodes(x.route[..], s.route[..])
  {
    var p := s.tsp;
    var n1 := s.route[i];
    var n2 := s.route[i + 1];
    var n3 := s.route[j];
    var n4 := 0;
    if j < p.numNodes - 1 {
      n4 := s.route[j + 1];
    }
    var e2 := p.matrix[n3][n4];
    var e3 := p.matrix[n1][n3];
    var e4 := p.matrix[n2][n4];
    x, improvement := s, false;
    if e1 + e2 > e3 + e4 {
      x, improvement := Exchange(s, i, j);
    }
  }

  /** Local2Opt.local2Opt(s): the candidate loop of cons2Opt with exchange
      in place of the caches. exchange hands back copies and the function
      only rebinds its own parameter, so the caller never sees the result:
      here it is returned, and it is s or a fresh feasible solution that
      finishes strictly earlier. At most fuel improvements are taken; a
      further one ends the search. */
  method Local2OptSearch(s: Solution, fuel: nat) returns (found: Solution)
    requires s.Valid() && 2 <= s.tsp.numNodes <= s.route.Length
    ensures found.tsp == s.tsp && found.Valid() && s.tsp.numNodes <= found.route.Length
    ensures Span(s.tsp.matrix, s.tsp.readyTime, found.route[..], 0) <= Span(s.tsp.matrix, s.tsp.readyTime, s.route[..], 0)
    ensures found == s || (fresh(found) && fresh(found.route) && found.route.Length == s.tsp.numNodes
                           && Feasible(s.tsp, found.route[..])
                           && Span(s.tsp.matrix, s.tsp.readyTime, found.route[..], 0) < Span(s.tsp.matrix, s.tsp.readyTime, s.route[..], 0))
    ensures s.tsp.numNodes == s.route.Length ==> SameNodes(found.route[..], s.route[..])
  {
    var p := s.tsp;
    var numNodes := p.numNodes;
    var setSize := numNodes - 2;
    var cands: seq<int> := [];
    while |cands| < setSize
      invariant |cands| <= setSize && forall y :: 0 <= y < |cands| ==> cands[y] == y + 1
    {
      cands := cands + [|cands| + 1];
    }
    found := s;
    var budget := fuel;
    while setSize > 0
      invariant 0 <= setSize <= numNodes - 2 == |cands|
      invariant forall y :: 0 <= y < |cands| ==> 1 <= cands[y] <= numNodes - 2
      invariant found.tsp == p && found.Valid() && numNodes <= found.route.Length
      invariant Span(p.matrix, p.readyTime, found.route[..], 0) <= Span(p.matrix, p.readyTime, s.route[..], 0)
      invariant found == s || (fresh(found) && fresh(found.route) && found.route.Length == numNodes
                               && Feasible(p, found.route[..])
                               && Span(p.matrix, p.readyTime, found.route[..], 0) < Span(p.matrix, p.readyTime, s.route[..], 0))
      invariant numNodes == s.route.Length ==> SameNodes(found.route[..], s.route[..])
      decreases budget, setSize
    {
      var pos := Random(0, setSize);
      var npos := cands[pos];
      var next, improvement := SearchFrom(s, found, npos);
      if improvement {
        found := next;
        if budget == 0 {
          return;
        }
        setSize := numNodes - 2;
        budget := budget - 1;
      } else {
        SwappedBetween(cands, pos, setSize - 1, 1, numNodes - 2);
        cands := Swapped(cands, pos, setSize - 1);
        setSize := setSize - 1;
      }
    }
  }

  /** One round of Local2Opt.local2Opt: the inner loop from npos on the
      solution found so far. An improvement is a fresh feasible solution
      over the nodes of s that finishes strictly earlier than s; otherwise
      the solution found so far stays. */
  method SearchFrom(s: Solution, found: Solution, npos: int) returns (next: Solution, improvement: bool)
    requires s.Valid() && 2 <= s.tsp.numNodes <= s.route.Length && 1 <= npos <= s.tsp.numNodes - 2
    requires found.tsp == s.tsp && found.Valid() && s.tsp.numNodes <= found.route.Length
    requires found == s || found.route.Length == s.tsp.numNodes
    requires Span(s.tsp.matrix, s.tsp.readyTime, found.route[..], 0) <= Span(s.tsp.matrix, s.tsp.readyTime, s.route[..], 0)
    requires s.tsp.numNodes == s.route.Length ==> SameNodes(found.route[..], s.route[..])
    ensures next.tsp == s.tsp && next.Valid() && (!improvement ==> next == found)
    ensures improvement ==>
      fresh(next) && fresh(next.route) && next.route.Length == s.tsp.numNodes && Feasible(s.tsp, next.route[..])
      && Span(s.tsp.matrix, s.tsp.readyTime, next.route[..], 0) < Span(s.tsp.matrix, s.tsp.readyTime, s.route[..], 0)
      && (s.tsp.numNodes == s.route.Length ==> SameNodes(next.route[..], s.route[..]))
  {
    var j;
    next, improvement, j := TryFrom(found, npos);
  }

  // ---- Process of both search types

  const LevelMax: int := 20
  const IterMax: int := 2

  /** Local2Opt.Process(x): search x (the result is dropped, see
      Local2OptSearch), then from level 1 to 20: disturb the best solution,
      search the disturbed one (dropped again) and keep it when it finishes
      strictly earlier; the level rule is CoreSearch.Advance with iterMax 2.
      The best solution is x or a fresh feasible solution over the same
      nodes that finishes strictly earlier. At most fuel improvements are
      taken; a further one ends the loop. */
  method Local2OptProcess(x: Solution, fuel: nat) returns (best: Solution)
    requires x.Valid() && 2 <= x.tsp.numNodes == x.route.Length
    ensures best.tsp == x.tsp && best.Valid() && best.route.Length == x.route.Length
    ensures SameNodes(best.route[..], x.route[..])
    ensures Span(x.tsp.matrix, x.tsp.readyTime, best.route[..], 0) <= Span(x.tsp.matrix, x.tsp.readyTime, x.route[..], 0)
    ensures best == x || (fresh(best) && fresh(best.route) && Feasible(x.tsp, best.route[..])
                          && Span(x.tsp.matrix, x.tsp.readyTime, best.route[..], 0) < Span(x.tsp.matrix, x.tsp.readyTime, x.route[..], 0))
  {
    var p := x.tsp;
    var dropped := Local2OptSearch(x, fuel);
    var c := CoreSearch.Levels(1, 0);
    best := x;
    var budget := fuel;
    while c.level < LevelMax
      invariant 1 <= c.level && 0 <= c.iterLevel <= IterMax + 1
      invariant best.tsp == p && best.Valid() && best.route.Length == x.route.Length
      invariant SameNodes(best.route[..], x.route[..])
      invariant Span(p.matrix, p.readyTime, best.route[..], 0) <= Span(p.matrix, p.readyTime, x.route[..], 0)
      invariant best == x || (fresh(best) && fresh(best.route) && Feasible(p, best.route[..])
                              && Span(p.matrix, p.readyTime, best.route[..], 0) < Span(p.matrix, p.readyTime, x.route[..], 0))
      decreases budget, LevelMax - c.level, IterMax + 1 - c.iterLevel
    {
      var next, improved := DisturbRound(best, c.level, fuel);
      if improved {
        best := next;
        if budget == 0 {
          return;
        }
        budget := budget - 1;
      }
      CoreSearch.AdvanceInRange(c, improved, IterMax, LevelMax);
      c := CoreSearch.Advance(c, improved, IterMax);
    }
  }

  /** One round of Local2Opt.Process: disturb the best solution at the
      given level, search the disturbed one (the search's result is
      dropped), and report whether the disturbed one finishes strictly
      earlier. That one is then a fresh feasible solution over the same
      nodes, or best itself. */
  method DisturbRound(best: Solution, level: int, fuel: nat) returns (x2: Solution, improved: bool)
    requires best.Valid() && 2 <= best.tsp.numNodes == best.route.Length
    ensures x2.tsp == best.tsp && x2.Valid() && x2.route.Length == best.route.Length
    ensures SameNodes(x2.route[..], best.route[..])
    ensures improved <==> Span(best.tsp.matrix, best.tsp.readyTime, x2.route[..], 0) < Span(best.tsp.matrix, best.tsp.readyTime, best.route[..], 0)
    ensures improved ==> fresh(x2) && fresh(x2.route) && Feasible(best.tsp, x2.route[..])
  {
    x2 := Disturb(best, level);
    var dropped := Local2OptSearch(x2, fuel);
    var a := x2.MakeSpan();
    var b := best.MakeSpan();
    improved := a < b;
  }

  /** cons2Opt.Process(x): the same loop around ConsLocal2Opt, which works
      in place. disturb may hand back its argument itself, and then the
      search changes the best solution in place; so the best solution is x
      or a fresh one, over the same nodes, but its span is not bounded by
      x's. At most fuel improvements are taken; a further one ends the
      loop. */
  method ConsProcess(x: Solution, fuel: nat) returns (best: Solution)
    requires x.Valid() && 2 <= x.tsp.numNodes == x.route.Length
    modifies x.route
    ensures best.tsp == x.tsp && best.Valid() && best.route.Length == x.route.Length
    ensures best == x || (fresh(best) && fresh(best.route))
    ensures SameNodes(best.route[..], old(x.route[..]))
  {
    ghost var r0 := x.route[..];
    var p := x.tsp;
    ConsLocal2Opt(x, fuel);
    var c := CoreSearch.Levels(1, 0);
    best := x;
    var budget := fuel;
    while c.level < LevelMax
      invariant 1 <= c.level && 0 <= c.iterLevel <= IterMax + 1
      invariant best.tsp == p && best.Valid() && best.route.Length == x.route.Length
      invariant best == x || (fresh(best) && fresh(best.route))
      invariant SameNodes(best.route[..], r0)
      decreases budget, LevelMax - c.level, IterMax + 1 - c.iterLevel
    {
      var x2, improved := ConsRound(best, c.level, fuel);
      if improved {
        best := x2;
        if budget == 0 {
          return;
        }
        budget := budget - 1;
      }
      CoreSearch.AdvanceInRange(c, improved, IterMax, LevelMax);
      c := CoreSearch.Advance(c, improved, IterMax);
    }
  }

  /** One round of cons2Opt.Process: disturb best, search the disturbed
      solution in place and compare the spans. The disturbed solution is
      best itself, then searched in place, or a fresh one, and best's route
      changes only in the first case. */
  method ConsRound(best: Solution, level: int, fuel: nat) returns (x2: Solution, improved: bool)
    requires best.Valid() && 2 <= best.tsp.numNodes == best.route.Length && 1 <= level
    modifies best.route
    ensures x2.tsp == best.tsp && x2.Valid() && x2.route.Length == best.route.Length
    ensures x2 == best || (fresh(x2) && fresh(x2.route))
    ensures x2 != best ==> best.route[..] == old(best.route[..])
    ensures SameNodes(x2.route[..], old(best.route[..]))
    ensures improved <==> Span(best.tsp.matrix, best.tsp.readyTime, x2.route[..], 0) < Span(best.tsp.matrix, best.tsp.readyTime, best.route[..], 0)
  {
    x2 := Disturb(best, level);
    ConsLocal2Opt(x2, fuel);
    var a := x2.MakeSpan();
    var b := best.MakeSpan();
    improved := a < b;
  }

  /** The two search types; each carries a clock slice of numNodes zeros
      that no method reads. */
  datatype Optimization = Cons2Opt(inc: seq<int>) | TwoOpt(inc: seq<int>)

  /** NewOptimization(opts, numNodes): "2opt" selects Local2Opt; "cons2opt"
      and every other name select cons2Opt. */
  function NewOptimization(strategy: string, numNodes: nat): (o: Optimization)
    ensures o.TwoOpt? <==> strategy == "2opt"
    ensures |o.inc| == numNodes && forall k :: 0 <= k < numNodes ==> o.inc[k] == 0
  {
    var inc := seq(numNodes, _ => 0);
    if strategy == "2opt" then TwoOpt(inc) else Cons2Opt(inc)
  }

  /** Process(x) of the selected search type. */
  method Process(o: Optimization, x: Solution, fuel: nat) returns (best: Solution)
    requires x.Valid() && 2 <= x.tsp.numNodes == x.route.Length
    modifies x.route
    ensures best.tsp == x.tsp && best.Valid() && best.route.Length == x.route.Length
    ensures best == x || (fresh(best) && fresh(best.route))
    ensures SameNodes(best.route[..], old(x.route[..]))
    ensures o.TwoOpt? ==>
      x.route[..] == old(x.route[..])
      && Span(x.tsp.matrix, x.tsp.readyTime, best.route[..], 0) <= Span(x.tsp.matrix, x.tsp.readyTime, x.route[..], 0)
  {
    match o
    case TwoOpt(_) =>
      best := Local2OptProcess(x, fuel);
    case Cons2Opt(_) =>
      best := ConsProcess(x, fuel);
  }
}
