// core/construction.go: the construction phase. A strategy proposes a
// route; a penalty-driven repair loop then disturbs it, shifts single nodes
// while the weighted penalty drops, and stops at the first feasible route.
module CoreConstruction {
  import opened Utils
  import opened Instance
  import opened Schedule
  import opened Routes
  import opened CoreSolution

  /** The weights of config.Penalty. */
  datatype Weights = Weights(timeWindows: int, pickupDelivery: int, capacity: int)

  datatype Strategy = RandomStrategy | GreedyStrategy | SortByDueDate | SortByTW

  datatype Direction = Forward | Backward

  /** The Construction struct: never changed after NewCons. */
  datatype Construction = Construction(levelMax: int, strategy: Strategy, penalty: Weights)

  /** NewCons: four strategy names are recognised; every other name means
      random. */
  function NewCons(strategy: string, levelMax: int, penalty: Weights): (c: Construction)
    ensures c.levelMax == levelMax && c.penalty == penalty
    ensures c.strategy == GreedyStrategy <==> strategy == "greedy"
    ensures c.strategy == SortByDueDate <==> strategy == "sortBydueDate"
    ensures c.strategy == SortByTW <==> strategy == "sortByTW"
    ensures c.strategy == RandomStrategy <==> strategy !in {"greedy", "sortBydueDate", "sortByTW"}
  {
    var s := match strategy
      case "random" => RandomStrategy
      case "greedy" => GreedyStrategy
      case "sortBydueDate" => SortByDueDate
      case "sortByTW" => SortByTW
      case _ => RandomStrategy;
    Construction(levelMax, s, penalty)
  }

  ghost predicate NonNegative(w: Weights)
  {
    w.timeWindows >= 0 && w.pickupDelivery >= 0 && w.capacity >= 0
  }

  ghost predicate Positive(w: Weights)
  {
    w.timeWindows > 0 && w.pickupDelivery > 0 && w.capacity > 0
  }

  /** The route shape Penalty needs: its precedence search reads positions
      up to numNodes - 1. */
  ghost predicate PenaltyOk(p: Pdptw, r: seq<int>)
  {
    RouteOk(p, r) && p.numNodes <= |r|
  }

  /** Time-window term at position i: how late the clock of the scan is.
      The second disjunct of the source's test is kept as written; after the
      wait it never holds (see ArriveAt). */
  function TwTerm(p: Pdptw, r: seq<int>, i: nat): int
    requires RouteOk(p, r) && 1 <= i < |r|
  {
    var t := ArriveAt(p.matrix, p.readyTime, r, p.traveled, i);
    var due := p.dueDate[r[i]];
    if (due != 0 && due < t) || p.readyTime[r[i]] > t then t - due else 0
  }

  /** Capacity term at position i: the excess of the load before i. */
  function CapTerm(p: Pdptw, r: seq<int>, i: nat): int
    requires i <= |r|
  {
    var load := Load(p.demands, r, p.carrying, i);
    if load > p.capacity then load - p.capacity else 0
  }

  /** Pickup/delivery term at position i: when the predecessor of r[i] is not
      among positions 1..i, the index at which the forward search (positions
      i..numNodes-1) finds it, or 0 when it is not there either. */
  function PdTerm(p: Pdptw, r: seq<int>, i: nat): int
    requires PenaltyOk(p, r) && 1 <= i < |r|
  {
    if r[i] in p.precedence then
      var v := p.precedence[r[i]];
      if v in r[1..i + 1] then 0
      else if i < p.numNodes && v in r[i..p.numNodes] then i + FirstIndex(r[i..p.numNodes], v)
      else 0
    else 0
  }

  datatype Parts = Parts(tw: int, pd: int, cap: int)

  /** The three sums of Penalty over positions 1..k-1. */
  function PartsUpTo(p: Pdptw, r: seq<int>, k: nat): Parts
    requires PenaltyOk(p, r) && k <= |r|
  {
    if k <= 1 then Parts(0, 0, 0)
    else
      var q := PartsUpTo(p, r, k - 1);
      Parts(q.tw + TwTerm(p, r, k - 1), q.pd + PdTerm(p, r, k - 1), q.cap + CapTerm(p, r, k - 1))
  }

  function Weighted(w: Weights, q: Parts): int
  {
    w.timeWindows * q.tw + w.pickupDelivery * q.pd + w.capacity * q.cap
  }

  /** Penalty(s) of the whole route. */
  function PenaltyOf(w: Weights, p: Pdptw, r: seq<int>): int
    requires PenaltyOk(p, r)
  {
    Weighted(w, PartsUpTo(p, r, |r|))
  }

  /** Penalty: one scan of the route, with the precedence searched backwards
      over positions i..1 and, when it is not there, forwards over
      i..numNodes-1. */
  method Penalty(c: Construction, s: Solution) returns (penalty: int)
    requires s.Valid() && s.tsp.numNodes <= s.route.Length
    ensures penalty == PenaltyOf(c.penalty, s.tsp, s.route[..])
  {
    ghost var r := s.route[..];
    var p := s.tsp;
    var traveled := p.traveled;
    var carrying := p.carrying;
    var pTw, pPd, pC := 0, 0, 0;
    var i := 1;
    while i < s.route.Length
      invariant 1 <= i <= Max(s.route.Length, 1)
      invariant 0 < |r| ==> traveled == ArriveAt(p.matrix, p.readyTime, r, p.traveled, i - 1)
      invariant 0 < |r| ==> carrying == Load(p.demands, r, p.carrying, i - 1)
      invariant 0 < |r| ==> Parts(pTw, pPd, pC) == PartsUpTo(p, r, i)
      invariant |r| == 0 ==> pTw == 0 && pPd == 0 && pC == 0
    {
      var n1, n2 := s.route[i - 1], s.route[i];
      PartsStep(p, r, i, traveled, carrying);
      traveled := traveled + p.matrix[n1][n2];
      carrying := carrying + Get(p.demands, n1);
      if traveled < p.readyTime[n2] {
        traveled := p.readyTime[n2];
      }
      if carrying > p.capacity {
        pC := pC + (carrying - p.capacity);
      }
      var pd := PdAt(s, i);
      pPd := pPd + pd;
      if (p.dueDate[n2] != 0 && p.dueDate[n2] < traveled) || p.readyTime[n2] > traveled {
        pTw := pTw + traveled - p.dueDate[n2];
      }
      i := i + 1;
    }
    penalty := c.penalty.timeWindows * pTw + c.penalty.pickupDelivery * pPd + c.penalty.capacity * pC;
  }

  /** One position of Penalty's scan on the values it carries: the clock
      after travel and wait, the load, and the three terms it adds. */
  lemma {:induction false} PartsStep(p: Pdptw, r: seq<int>, i: int, traveled: int, carrying: int)
    requires PenaltyOk(p, r) && 1 <= i < |r|
    requires traveled == ArriveAt(p.matrix, p.readyTime, r, p.traveled, i - 1)
    requires carrying == Load(p.demands, r, p.carrying, i - 1)
    ensures var t := Max(traveled + p.matrix[r[i - 1]][r[i]], p.readyTime[r[i]]);
      var c := carrying + Get(p.demands, r[i - 1]);
      var due := p.dueDate[r[i]];
      t == ArriveAt(p.matrix, p.readyTime, r, p.traveled, i) && c == Load(p.demands, r, p.carrying, i)
      && CapTerm(p, r, i) == (if c > p.capacity then c - p.capacity else 0)
      && TwTerm(p, r, i) == (if (due != 0 && due < t) || p.readyTime[r[i]] > t then t - due else 0)
    ensures var q := PartsUpTo(p, r, i);
      PartsUpTo(p, r, i + 1) == Parts(q.tw + TwTerm(p, r, i), q.pd + PdTerm(p, r, i), q.cap + CapTerm(p, r, i))
  {
  }

  /** The precedence searches of Penalty at position i. */
  method PdAt(s: Solution, i: int) returns (pd: int)
    requires s.Valid() && s.tsp.numNodes <= s.route.Length && 1 <= i < s.route.Length
    ensures pd == PdTerm(s.tsp, s.route[..], i)
  {
    pd := 0;
    if s.route[i] in s.tsp.precedence {
      var value := s.tsp.precedence[s.route[i]];
      var hasNode := SearchBack(s.route, i, value);
      if !hasNode {
        pd := SearchForward(s.route, i, s.tsp.numNodes, value);
      }
    }
  }

  /** The forward search of Penalty: the first index from i up to n - 1
      that holds value, or 0 when there is none. */
  method SearchForward(a: array<int>, i: int, n: int, value: int) returns (pd: int)
    requires 1 <= i < a.Length && n <= a.Length
    ensures pd == if i < n && value in a[i..n] then i + FirstIndex(a[i..n], value) else 0
  {
    ghost var r := a[..];
    var j := i;
    while j < n
      invariant i <= j <= Max(n, i)
      invariant value !in r[i..j]
    {
      if value == a[j] {
        assert r[i..n][j - i] == value;
        assert r[i..n][..j - i] == r[i..j];
        FirstIndexAt(r[i..n], value, j - i);
        return j;
      }
      assert r[i..j + 1] == r[i..j] + [r[j]];
      j := j + 1;
    }
    return 0;
  }

  /** Each of the three sums is a sum of non-negative terms, and it is zero
      exactly when every one of its terms is. */
  lemma {:induction false} PartsNonNegative(p: Pdptw, r: seq<int>, k: nat)
    requires PenaltyOk(p, r) && k <= |r|
    ensures var q := PartsUpTo(p, r, k); q.tw >= 0 && q.pd >= 0 && q.cap >= 0
    ensures PartsUpTo(p, r, k).tw == 0 <==> forall i :: 1 <= i < k ==> TwTerm(p, r, i) == 0
    ensures PartsUpTo(p, r, k).pd == 0 <==> forall i :: 1 <= i < k ==> PdTerm(p, r, i) == 0
    ensures PartsUpTo(p, r, k).cap == 0 <==> forall i :: 1 <= i < k ==> CapTerm(p, r, i) == 0
  {
    if k > 1 {
      PartsNonNegative(p, r, k - 1);
      assert TwTerm(p, r, k - 1) >= 0 && PdTerm(p, r, k - 1) >= 0 && CapTerm(p, r, k - 1) >= 0;
    }
  }

  lemma {:induction false} WeightedNonNegative(w: Weights, q: Parts)
    requires NonNegative(w) && q.tw >= 0 && q.pd >= 0 && q.cap >= 0
    ensures Weighted(w, q) >= 0
    ensures Positive(w) ==> (Weighted(w, q) == 0 <==> q.tw == 0 && q.pd == 0 && q.cap == 0)
  {
    MulNonNegative(w.timeWindows, q.tw);
    MulNonNegative(w.pickupDelivery, q.pd);
    MulNonNegative(w.capacity, q.cap);
  }

  /** With non-negative weights the penalty is never negative. */
  lemma {:induction false} PenaltyNonNegative(w: Weights, p: Pdptw, r: seq<int>)
    requires NonNegative(w) && PenaltyOk(p, r)
    ensures PenaltyOf(w, p, r) >= 0
  {
    PartsNonNegative(p, r, |r|);
    WeightedNonNegative(w, PartsUpTo(p, r, |r|));
  }

  // A floor under the penalty of every route of a given length, whatever
  // the signs of the weights: every term is bounded by the magnitudes of
  // the instance's numbers, so a strictly falling penalty cannot fall for
  // ever.

  ghost function Mag(x: int): nat
  {
    if x < 0 then -x else x
  }

  /** The magnitudes of a slice's entries, summed. */
  ghost function SeqMag(s: seq<int>): nat
  {
    if |s| == 0 then 0 else SeqMag(s[..|s| - 1]) + Mag(s[|s| - 1])
  }

  /** The magnitudes of a matrix's entries, summed. */
  ghost function MatrixMag(m: seq<seq<int>>): nat
  {
    if |m| == 0 then 0 else MatrixMag(m[..|m| - 1]) + SeqMag(m[|m| - 1])
  }

  /** The magnitudes of the demands of nodes 0..n-1, summed. */
  ghost function DemandMag(d: map<int, int>, n: nat): nat
  {
    if n == 0 then 0 else DemandMag(d, n - 1) + Mag(Get(d, n - 1))
  }

  lemma {:induction false} SeqMagBounds(s: seq<int>, i: int)
    requires 0 <= i < |s|
    ensures Mag(s[i]) <= SeqMag(s)
  {
    if i < |s| - 1 {
      SeqMagBounds(s[..|s| - 1], i);
    }
  }

  lemma {:induction false} MatrixMagBounds(m: seq<seq<int>>, a: int, b: int)
    requires 0 <= a < |m| && 0 <= b < |m[a]|
    ensures Mag(m[a][b]) <= MatrixMag(m)
  {
    if a < |m| - 1 {
      MatrixMagBounds(m[..|m| - 1], a, b);
    } else {
      SeqMagBounds(m[a], b);
    }
  }

  lemma {:induction false} DemandMagBounds(d: map<int, int>, n: nat, x: int)
    requires 0 <= x < n
    ensures Mag(Get(d, x)) <= DemandMag(d, n)
  {
    if x < n - 1 {
      DemandMagBounds(d, n - 1, x);
    }
  }

  /** How much the clock's magnitude can grow on one edge. */
  ghost function ClockSlope(p: Pdptw): nat
  {
    MatrixMag(p.matrix) + SeqMag(p.readyTime)
  }

  lemma {:induction false} ArriveBound(p: Pdptw, r: seq<int>, k: nat)
    requires RouteOk(p, r) && k < |r|
    ensures Mag(ArriveAt(p.matrix, p.readyTime, r, p.traveled, k)) <= Mag(p.traveled) + k * ClockSlope(p)
  {
    if k > 0 {
      ArriveBound(p, r, k - 1);
      MatrixMagBounds(p.matrix, r[k - 1], r[k]);
      SeqMagBounds(p.readyTime, r[k]);
      assert k * ClockSlope(p) == (k - 1) * ClockSlope(p) + ClockSlope(p);
    }
  }

  lemma {:induction false} LoadBound(p: Pdptw, r: seq<int>, k: nat)
    requires RouteOk(p, r) && k <= |r|
    ensures Mag(Load(p.demands, r, p.carrying, k)) <= Mag(p.carrying) + k * DemandMag(p.demands, |p.matrix|)
  {
    if k > 0 {
      LoadBound(p, r, k - 1);
      DemandMagBounds(p.demands, |p.matrix|, r[k - 1]);
      assert k * DemandMag(p.demands, |p.matrix|) == (k - 1) * DemandMag(p.demands, |p.matrix|) + DemandMag(p.demands, |p.matrix|);
    }
  }

  /** A bound on every penalty term of a route of n positions. */
  ghost function TermCap(p: Pdptw, n: nat): nat
  {
    Mag(p.traveled) + n * ClockSlope(p) + SeqMag(p.dueDate)
    + Mag(p.carrying) + n * DemandMag(p.demands, |p.matrix|) + Mag(p.capacity) + n
  }

  lemma {:induction false} MulMonotone(a: int, b: int, c: int)
    requires 0 <= a <= b && c >= 0
    ensures a * c <= b * c
  {
    MulNonNegative(b - a, c);
  }

  lemma {:induction false} TwTermBounded(p: Pdptw, r: seq<int>, i: nat)
    requires PenaltyOk(p, r) && 1 <= i < |r|
    ensures TwTerm(p, r, i) <= TermCap(p, |r|)
  {
    var t := ArriveAt(p.matrix, p.readyTime, r, p.traveled, i);
    var due := p.dueDate[r[i]];
    ArriveBound(p, r, i);
    SeqMagBounds(p.dueDate, r[i]);
    MulMonotone(i, |r|, ClockSlope(p));
    var slope := |r| * ClockSlope(p);
    assert Mag(t) <= Mag(p.traveled) + slope;
    assert TwTerm(p, r, i) == (if (due != 0 && due < t) || p.readyTime[r[i]] > t then t - due else 0);
    assert TwTerm(p, r, i) <= Mag(p.traveled) + slope + SeqMag(p.dueDate);
    MulNonNegative(|r|, DemandMag(p.demands, |p.matrix|));
  }

  lemma {:induction false} CapTermBounded(p: Pdptw, r: seq<int>, i: nat)
    requires PenaltyOk(p, r) && 1 <= i < |r|
    ensures CapTerm(p, r, i) <= TermCap(p, |r|)
  {
    var load := Load(p.demands, r, p.carrying, i);
    LoadBound(p, r, i);
    MulMonotone(i, |r|, DemandMag(p.demands, |p.matrix|));
    var slope := |r| * DemandMag(p.demands, |p.matrix|);
    assert Mag(load) <= Mag(p.carrying) + slope;
    assert CapTerm(p, r, i) <= Mag(p.carrying) + slope + Mag(p.capacity);
    MulNonNegative(|r|, ClockSlope(p));
  }

  lemma {:induction false} TermsBounded(p: Pdptw, r: seq<int>, i: nat)
    requires PenaltyOk(p, r) && 1 <= i < |r|
    ensures TwTerm(p, r, i) <= TermCap(p, |r|)
    ensures PdTerm(p, r, i) <= TermCap(p, |r|)
    ensures CapTerm(p, r, i) <= TermCap(p, |r|)
  {
    TwTermBounded(p, r, i);
    CapTermBounded(p, r, i);
    MulNonNegative(|r|, ClockSlope(p));
    MulNonNegative(|r|, DemandMag(p.demands, |p.matrix|));
    assert PdTerm(p, r, i) <= |r|;
  }

  lemma {:induction false} PartsBounded(p: Pdptw, r: seq<int>, k: nat)
    requires PenaltyOk(p, r) && k <= |r|
    ensures var q := PartsUpTo(p, r, k);
      q.tw <= k * TermCap(p, |r|) && q.pd <= k * TermCap(p, |r|) && q.cap <= k * TermCap(p, |r|)
  {
    MulNonNegative(k, TermCap(p, |r|));
    if k > 1 {
      PartsBounded(p, r, k - 1);
      TermsBounded(p, r, k - 1);
      assert k * TermCap(p, |r|) == (k - 1) * TermCap(p, |r|) + TermCap(p, |r|);
    }
  }

  /** A weighted term over 0..b is at least minus the weight's magnitude times b. */
  lemma {:induction false} WeightFloor(a: int, q: int, b: int)
    requires 0 <= q <= b
    ensures a * q >= -(Mag(a) * b)
  {
    if a >= 0 {
      MulNonNegative(a, q);
      MulNonNegative(a, b);
    } else {
      MulNonNegative(-a, b - q);
    }
  }

  /** The floor: no route of n positions has a lower penalty. */
  ghost function PenaltyFloor(w: Weights, p: Pdptw, n: nat): int
  {
    -((Mag(w.timeWindows) + Mag(w.pickupDelivery) + Mag(w.capacity)) * (n * TermCap(p, n)))
  }

  lemma {:induction false} PenaltyAboveFloor(w: Weights, p: Pdptw, r: seq<int>)
    requires PenaltyOk(p, r)
    ensures PenaltyOf(w, p, r) >= PenaltyFloor(w, p, |r|)
  {
    var q := PartsUpTo(p, r, |r|);
    var b := |r| * TermCap(p, |r|);
    PartsNonNegative(p, r, |r|);
    PartsBounded(p, r, |r|);
    WeightFloor(w.timeWindows, q.tw, b);
    WeightFloor(w.pickupDelivery, q.pd, b);
    WeightFloor(w.capacity, q.cap, b);
    assert (Mag(w.timeWindows) + Mag(w.pickupDelivery) + Mag(w.capacity)) * b
        == Mag(w.timeWindows) * b + Mag(w.pickupDelivery) * b + Mag(w.capacity) * b;
  }

  /** No node of the route is paired with itself. */
  ghost predicate NoSelfPrecedence(p: Pdptw, r: seq<int>)
  {
    forall i :: 0 <= i < |r| && r[i] in p.precedence ==> p.precedence[r[i]] != r[i]
  }

  /** The first index of x is at or before any position holding x. */
  lemma {:induction false} FirstIndexBefore(s: seq<int>, x: int, j: int)
    requires 0 <= j < |s| && s[j] == x
    ensures 0 <= FirstIndex(s, x) <= j
  {
    assert x in s;
  }

  /** The first index of x lies before i exactly when x is missing or occurs
      among the first i entries. */
  lemma {:induction false} FirstIndexBelow(s: seq<int>, x: int, i: int)
    requires 0 <= i <= |s|
    ensures FirstIndex(s, x) < i <==> x !in s || x in s[..i]
  {
    var f := FirstIndex(s, x);
    if x in s[..i] {
      var j :| 0 <= j < i && s[..i][j] == x;
      FirstIndexBefore(s, x, j);
    }
    if 0 <= f < i {
      assert s[..i][f] == x;
    }
  }

  /** Where x can occur in a route split at i. */
  lemma {:induction false} MemberSplit(r: seq<int>, x: int, i: int)
    requires 1 <= i < |r|
    ensures x in r <==> x in r[..i] || x in r[i..]
    ensures x in r[..i] <==> x == r[0] || x in r[1..i]
    ensures x in r[1..i + 1] <==> x in r[1..i] || x == r[i]
  {
    assert r == r[..i] + r[i..];
    assert r[..i] == [r[0]] + r[1..i];
    assert r[1..i + 1] == r[1..i] + [r[i]];
  }

  /** The start node of a route without repetitions does not occur again. */
  lemma {:induction false} StartNotLater(r: seq<int>, i: int)
    requires Distinct(r) && 1 <= i < |r|
    ensures r[0] !in r[i..]
  {
    forall j | 0 <= j < |r[i..]|
      ensures r[i..][j] != r[0]
    {
      assert r[i..][j] == r[i + j];
    }
  }

  /** The pickup/delivery term vanishes exactly where IsFeasible's
      precedence test passes. */
  lemma {:induction false} PdTermZeroIff(p: Pdptw, r: seq<int>, i: nat)
    requires PenaltyOk(p, r) && p.numNodes == |r| && 1 <= i < |r|
    requires Distinct(r) && NoSelfPrecedence(p, r)
    ensures PdTerm(p, r, i) == 0 <==> !PredAfter(p, r, i)
  {
    if r[i] in p.precedence {
      var v := p.precedence[r[i]];
      assert r[i..p.numNodes] == r[i..];
      FirstIndexBelow(r, v, i);
      MemberSplit(r, v, i);
      StartNotLater(r, i);
      assert v != r[i];
    }
  }

  /** Position by position, the penalty terms vanish exactly where the
      IsFeasible tests pass: the time and capacity terms always, the
      pickup/delivery term on a route that repeats no node and pairs no node
      with itself. */
  lemma {:induction false} TermsZeroIffStepOk(p: Pdptw, r: seq<int>, i: nat)
    requires PenaltyOk(p, r) && p.numNodes == |r| && 1 <= i < |r|
    requires Distinct(r) && NoSelfPrecedence(p, r)
    ensures TwTerm(p, r, i) == 0 && PdTerm(p, r, i) == 0 && CapTerm(p, r, i) == 0 <==> StepOk(p, r, i)
  {
    PdTermZeroIff(p, r, i);
  }

  /** On a route of numNodes distinct nodes where no node is its own
      predecessor, positive weights make the penalty vanish exactly when
      every step of IsFeasible passes; IsFeasible then only adds the closing
      load. So a route with penalty 0 and closing load 0 is feasible, and a
      feasible route has penalty 0. */
  lemma {:induction false} PenaltyZeroIffFeasibleSteps(w: Weights, p: Pdptw, r: seq<int>)
    requires Positive(w) && PenaltyOk(p, r) && p.numNodes == |r| && 0 < |r|
    requires Distinct(r) && NoSelfPrecedence(p, r)
    ensures PenaltyOf(w, p, r) == 0 <==> forall i :: 1 <= i < p.numNodes ==> StepOk(p, r, i)
    ensures Feasible(p, r) <==> PenaltyOf(w, p, r) == 0 && ClosingLoad(p, r) == 0
  {
    PartsNonNegative(p, r, |r|);
    WeightedNonNegative(w, PartsUpTo(p, r, |r|));
    forall i | 1 <= i < p.numNodes
      ensures TwTerm(p, r, i) == 0 && PdTerm(p, r, i) == 0 && CapTerm(p, r, i) == 0 <==> StepOk(p, r, i)
    {
      TermsZeroIffStepOk(p, r, i);
    }
  }

  /** shifting(s, direction, setType): pick random candidate positions (the
      set is shuffled by moving a failed pick behind the live count), try each
      relocation of the node in the given direction until an arc is missing,
      undo every trial that does not strictly lower the penalty. After a kept
      move the candidate set is recomputed; a kept move reaching penalty 0
      returns at once, with the penalty result still the value before it and
      `improved` not set by it. */
  method Shifting(c: Construction, s: Solution, direction: Direction, setType: SetType)
    returns (penalty: int, improved: bool)
    requires s.Valid() && s.tsp.numNodes <= s.route.Length
    modifies s.route
    ensures s.Valid() && SameNodes(s.route[..], old(s.route[..]))
    ensures PenaltyOf(c.penalty, s.tsp, s.route[..]) <= PenaltyOf(c.penalty, s.tsp, old(s.route[..]))
    ensures improved ==> PenaltyOf(c.penalty, s.tsp, s.route[..]) < PenaltyOf(c.penalty, s.tsp, old(s.route[..]))
    ensures penalty == PenaltyOf(c.penalty, s.tsp, s.route[..])
            || (PenaltyOf(c.penalty, s.tsp, s.route[..]) == 0 && penalty > 0)
    ensures penalty <= PenaltyOf(c.penalty, s.tsp, old(s.route[..]))
  {
    ghost var r0 := s.route[..];
    ghost var w := c.penalty;
    var cands := s.GetSet(setType);
    PositionsOf(cands, s.route.Length);
    penalty := Penalty(c, s);
    ghost var floor := PenaltyFloor(w, s.tsp, s.route.Length);
    PenaltyAboveFloor(w, s.tsp, r0);
    var pointer := |cands|;
    improved := false;
    while pointer > 0
      invariant s.Valid() && SameNodes(s.route[..], r0)
      invariant penalty == PenaltyOf(w, s.tsp, s.route[..]) && floor <= penalty <= PenaltyOf(w, s.tsp, r0)
      invariant improved ==> penalty < PenaltyOf(w, s.tsp, r0)
      invariant 0 <= pointer <= |cands|
      invariant Positions(cands, s.route.Length)
      decreases penalty - floor, pointer
    {
      var pos :| 0 <= pos < pointer;
      var improvement, newPenalty := ShiftNode(c, s, cands[pos], direction, penalty);
      if improvement {
        PenaltyAboveFloor(w, s.tsp, s.route[..]);
        if newPenalty == 0 {
          return;
        }
        penalty := newPenalty;
        cands := s.GetSet(setType);
        PositionsOf(cands, s.route.Length);
        pointer := |cands|;
        improved := true;
      } else {
        pointer := pointer - 1;
        cands := Swapped(cands, pos, pointer);
      }
    }
  }

  /** One pick of shifting: move the node at npos one position further at a
      time (backward down to position 1, forward up to the last but one)
      while the arc to its new neighbour exists. The first move that lowers
      the penalty below `penalty` is kept; every other one is undone. */
  method ShiftNode(c: Construction, s: Solution, npos: int, direction: Direction, penalty: int)
    returns (improvement: bool, newPenalty: int)
    requires s.Valid() && s.tsp.numNodes <= s.route.Length && 1 <= npos < s.route.Length
    modifies s.route
    ensures s.Valid() && SameNodes(s.route[..], old(s.route[..]))
    ensures improvement ==> newPenalty == PenaltyOf(c.penalty, s.tsp, s.route[..]) < penalty
    ensures !improvement ==> s.route[..] == old(s.route[..])
  {
    ghost var cur := s.route[..];
    var n := s.route[npos];
    improvement := false;
    newPenalty := 0;
    if direction == Backward {
      var i := npos - 1;
      while i > 0
        invariant 0 <= i < npos
        invariant s.route[..] == cur
      {
        if !Arc(s.tsp.arcs, n, s.route[i]) {
          break;
        }
        s.Exchange(npos, i);
        RelocatedSameNodes(cur, cur, npos, i, s.tsp.numNodes);
        newPenalty := Penalty(c, s);
        if newPenalty < penalty {
          improvement := true;
          return;
        }
        s.Exchange(i, npos);
        RelocatedUndo(cur, npos, i);
        i := i - 1;
      }
    } else {
      var i := npos + 1;
      while i < s.route.Length - 1
        invariant npos < i
        invariant s.route[..] == cur
      {
        if !Arc(s.tsp.arcs, s.route[i], n) {
          break;
        }
        s.Exchange(npos, i);
        RelocatedSameNodes(cur, cur, npos, i, s.tsp.numNodes);
        newPenalty := Penalty(c, s);
        if newPenalty < penalty {
          improvement := true;
          return;
        }
        s.Exchange(i, npos);
        RelocatedUndo(cur, npos, i);
        i := i + 1;
      }
    }
  }

  /** Every entry of a candidate set is a position 1..n-1. */
  ghost predicate Positions(cands: seq<int>, n: int)
  {
    forall k :: 0 <= k < |cands| ==> 1 <= cands[k] < n
  }

  lemma {:induction false} PositionsOf(cands: seq<int>, n: int)
    requires forall x :: x in cands ==> 1 <= x < n
    ensures Positions(cands, n)
  {
    forall k | 0 <= k < |cands| ensures 1 <= cands[k] < n {
      assert cands[k] in cands;
    }
  }

  /** localSearch: the four shifting passes in a fixed order, repeated while
      any of them improved, leaving as soon as one reports penalty 0. */
  method LocalSearch(c: Construction, s: Solution)
    requires s.Valid() && s.tsp.numNodes <= s.route.Length
    modifies s.route
    ensures s.Valid() && SameNodes(s.route[..], old(s.route[..]))
    ensures PenaltyOf(c.penalty, s.tsp, s.route[..]) <= PenaltyOf(c.penalty, s.tsp, old(s.route[..]))
  {
    ghost var r0 := s.route[..];
    var penalty := 1;
    var i1, i2, i3, i4 := true, true, true, true;
    ghost var floor := PenaltyFloor(c.penalty, s.tsp, s.route.Length);
    PenaltyAboveFloor(c.penalty, s.tsp, r0);
    while i1 || i2 || i3 || i4
      invariant s.Valid() && SameNodes(s.route[..], r0)
      invariant floor <= PenaltyOf(c.penalty, s.tsp, s.route[..]) <= PenaltyOf(c.penalty, s.tsp, r0)
      decreases PenaltyOf(c.penalty, s.tsp, s.route[..]) - floor, if i1 || i2 || i3 || i4 then 1 else 0
    {
      ghost var before := PenaltyOf(c.penalty, s.tsp, s.route[..]);
      penalty, i1 := Shifting(c, s, Backward, UnfeasibleSet);
      PenaltyAboveFloor(c.penalty, s.tsp, s.route[..]);
      if penalty == 0 {
        break;
      }
      penalty, i2 := Shifting(c, s, Forward, FeasibleSet);
      PenaltyAboveFloor(c.penalty, s.tsp, s.route[..]);
      if penalty == 0 {
        break;
      }
      penalty, i3 := Shifting(c, s, Forward, UnfeasibleSet);
      PenaltyAboveFloor(c.penalty, s.tsp, s.route[..]);
      if penalty == 0 {
        break;
      }
      penalty, i4 := Shifting(c, s, Backward, FeasibleSet);
      PenaltyAboveFloor(c.penalty, s.tsp, s.route[..]);
      if penalty == 0 {
        break;
      }
      assert i1 || i2 || i3 || i4 ==> PenaltyOf(c.penalty, s.tsp, s.route[..]) < before;
    }
  }

  /** disturb(s, level): level random relocations among positions 1.. on a
      copy; the receiver is not changed. */
  method Disturb(c: Construction, s: Solution, level: int) returns (x: Solution)
    requires s.Valid() && s.tsp.numNodes == s.route.Length
    requires level > 0 ==> s.route.Length > 1
    ensures fresh(x) && fresh(x.route) && x.tsp == s.tsp && x.Valid()
    ensures SameNodes(x.route[..], s.route[..])
  {
    x := s.Copy();
    assert s.route[..s.tsp.numNodes] == s.route[..];
    var i := 0;
    while i < level
      invariant fresh(x) && fresh(x.route) && x.tsp == s.tsp && x.Valid()
      invariant SameNodes(x.route[..], s.route[..])
    {
      var n1 := Random(1, s.route.Length);
      var n2 := Random(1, s.route.Length);
      RelocatedSameNodes(x.route[..], s.route[..], n1, n2, s.tsp.numNodes);
      x.Exchange(n1, n2);
      i := i + 1;
    }
  }

  /** strategy.getSolution: the four strategies are not part of this model;
      the repair loop is proved for any route of numNodes nodes of the
      instance that one of them hands back. */
  method GetSolution(strategy: Strategy, tsp: Pdptw) returns (x: Solution)
    requires WellFormed(tsp)
    ensures fresh(x) && fresh(x.route) && x.tsp == tsp && x.Valid()
    ensures x.route.Length == tsp.numNodes
  {
    var a := new int[tsp.numNodes];
    var i := 0;
    while i < a.Length
      invariant 0 <= i <= a.Length
      invariant forall k :: 0 <= k < i ==> 0 <= a[k] < tsp.numNodes
    {
      var v :| 0 <= v < tsp.numNodes;
      a[i] := v;
      i := i + 1;
    }
    x := new Solution(tsp, a);
  }

  /** process copies an improved route into x from position 1 on. */
  method CopyTail(x: Solution, x2: Solution)
    requires x.route.Length == x2.route.Length && x.route != x2.route
    requires 0 < x.route.Length ==> x.route[0] == x2.route[0]
    modifies x.route
    ensures x.route[..] == x2.route[..]
  {
    var i := 1;
    while i < x.route.Length
      invariant 1 <= i <= Max(x.route.Length, 1)
      invariant forall k :: 1 <= k < i && k < x.route.Length ==> x.route[k] == x2.route[k]
      invariant 0 < x.route.Length ==> x.route[0] == x2.route[0]
    {
      x.route[i] := x2.route[i];
      i := i + 1;
    }
  }

  /** process: repair until feasible. A disturbed and searched copy that is
      feasible is returned at once; one with strictly lower penalty is copied
      into x from position 1 on and resets the level; otherwise the level
      grows and, past levelMax, restarts from a fresh strategy route. The
      loop need not terminate; fuel bounds the number of rounds and `done`
      says whether it ended on its own. */
  method Process(c: Construction, tsp: Pdptw, fuel: nat) returns (x: Solution, done: bool)
    requires WellFormed(tsp) && tsp.numNodes > 1
    ensures fresh(x) && x.tsp == tsp && x.Valid() && x.route.Length == tsp.numNodes
    ensures done ==> Feasible(tsp, x.route[..]) || PenaltyOf(c.penalty, tsp, x.route[..]) == 0
  {
    var level := 1;
    x := GetSolution(c.strategy, tsp);
    var rounds := fuel;
    var feasible := x.IsFeasible();
    while !feasible
      invariant fresh(x) && fresh(x.route) && x.tsp == tsp && x.Valid() && x.route.Length == tsp.numNodes
      invariant feasible == Feasible(tsp, x.route[..])
      invariant 1 <= level <= Max(c.levelMax, 1)
      decreases rounds
    {
      if rounds == 0 {
        return x, false;
      }
      rounds := rounds - 1;
      var x2 := Disturb(c, x, level);
      LocalSearch(c, x2);
      var ok2 := x2.IsFeasible();
      if ok2 {
        return x2, true;
      }
      var p2 := Penalty(c, x2);
      var p1 := Penalty(c, x);
      if p2 < p1 {
        CopyTail(x, x2);
        level := 1;
        p1 := Penalty(c, x);
        if p1 == 0 {
          return x, true;
        }
      } else {
        level := level + 1;
        if c.levelMax < level {
          level := 1;
          x := GetSolution(c.strategy, tsp);
        }
      }
      feasible := x.IsFeasible();
    }
    done := true;
  }
}
