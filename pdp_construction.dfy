// pdp/construction.go: repair of a random route of the pdp package until
// every pickup precedes its delivery. local1shift moves single nodes and
// keeps a move only when the penalty drops; disturb wraps the route slice it
// is given instead of copying it, so the disturbed solution and its input
// share one route.
module PdpConstruction {
  import opened Utils
  import opened Schedule
  import opened Routes
  import opened PdpSolution
  import opened PdpRandom

  /** levelMax of Process: the disturbance levels before a restart. */
  const LevelMax := 8

  /** The lists and live sizes local1shift works with: the lists of the
      last calcSets, shuffled in place, and how many of each are still to
      be tried. */
  datatype Pool = Pool(feasible: seq<int>, unfeasible: seq<int>, feasibleSize: int, unfeasibleSize: int)

  /** Every listed position is one of 1..hi-1. */
  ghost predicate Positions(list: seq<int>, hi: int)
  {
    forall k :: 0 <= k < |list| ==> 1 <= list[k] < hi
  }

  ghost predicate PoolOk(pool: Pool, numNodes: int)
  {
    0 <= pool.feasibleSize <= |pool.feasible| && 0 <= pool.unfeasibleSize <= |pool.unfeasible|
    && Positions(pool.feasible, numNodes - 1) && Positions(pool.unfeasible, numNodes - 1)
  }

  /** The live size of one of the two lists. */
  function Size(pool: Pool, unfeasiblePass: bool): int
  {
    if unfeasiblePass then pool.unfeasibleSize else pool.feasibleSize
  }

  /** calcSets with both sizes set to the list lengths. */
  method CalcPool(s: Solution) returns (pool: Pool)
    requires s.tsp.numNodes <= s.route.Length
    ensures PoolOk(pool, s.tsp.numNodes)
    ensures (pool.feasible, pool.unfeasible) == CalcSetsOf(s.tsp, s.route[..])
    ensures pool.feasibleSize == |pool.feasible| && pool.unfeasibleSize == |pool.unfeasible|
  {
    var f, u := s.CalcSets();
    SetsInside(s.tsp, s.route[..], Max(s.tsp.numNodes - 1, 0));
    assert forall k :: 0 <= k < |f| ==> f[k] in f;
    assert forall k :: 0 <= k < |u| ==> u[k] in u;
    pool := Pool(f, u, |f|, |u|);
  }

  /** The trial moves of one pick: move the node at npos to position i,
      for i going down from npos-1 to 1 (backward) or up from npos+1 to
      below bound (forward). The first move whose penalty is below
      `penalty` is kept and its penalty returned; every other move is
      undone with exchange(i, npos). */
  method Shift(s: Solution, npos: int, backward: bool, bound: int, penalty: int)
    returns (improvement: bool, penaltyAux: int)
    requires s.Valid() && s.tsp.numNodes <= s.route.Length
    requires 1 <= npos < s.route.Length && bound <= s.route.Length
    modifies s.route
    ensures s.Valid() && SameNodes(s.route[..], old(s.route[..]))
    ensures improvement ==> penaltyAux == PenaltyOf(s.tsp, s.route[..]) < penalty
    ensures !improvement ==> s.route[..] == old(s.route[..])
  {
    ghost var cur := s.route[..];
    improvement := false;
    penaltyAux := 0;
    if backward {
      var i := npos - 1;
      while i > 0
        invariant 0 <= i < npos
        invariant s.route[..] == cur
      {
        s.Exchange(npos, i);
        RelocatedSameNodes(cur, cur, npos, i, s.tsp.numNodes);
        penaltyAux := s.Penalty();
        if penaltyAux < penalty {
          improvement := true;
          return;
        }
        s.Exchange(i, npos);
        RelocatedUndo(cur, npos, i);
        i := i - 1;
      }
    } else {
      var i := npos + 1;
      while i < bound
        invariant npos < i
        invariant s.route[..] == cur
      {
        s.Exchange(npos, i);
        RelocatedSameNodes(cur, cur, npos, i, s.tsp.numNodes);
        penaltyAux := s.Penalty();
        if penaltyAux < penalty {
          improvement := true;
          return;
        }
        s.Exchange(i, npos);
        RelocatedUndo(cur, npos, i);
        i := i + 1;
      }
    }
  }

  /** One of the four inner loops of local1shift, on the unfeasible or the
      feasible list: pick a position of the list (from its whole length,
      or from its live size when fromSize), try its moves; a kept move
      recomputes both lists, a failed pick swaps it behind the live size.
      stop says that a kept move reached penalty 0 and local1shift returns.
      Otherwise the list of the pass has no live entries left, and without
      a kept move the other list is as it was. */
  method Pass(s: Solution, pool: Pool, penalty: int, unfeasiblePass: bool, backward: bool, fromSize: bool, bound: int)
    returns (pool': Pool, penalty': int, stop: bool, ghost improved: bool)
    requires s.Valid() && s.tsp.numNodes <= s.route.Length && bound <= s.route.Length
    requires PoolOk(pool, s.tsp.numNodes) && penalty == PenaltyOf(s.tsp, s.route[..])
    modifies s.route
    ensures s.Valid() && SameNodes(s.route[..], old(s.route[..])) && PoolOk(pool', s.tsp.numNodes)
    ensures penalty' == PenaltyOf(s.tsp, s.route[..]) <= penalty
    ensures improved ==> penalty' < penalty
    ensures stop ==> penalty' == 0
    ensures !stop ==> Size(pool', unfeasiblePass) == 0
    ensures !improved && unfeasiblePass ==> pool'.feasibleSize == pool.feasibleSize
    ensures !improved && !unfeasiblePass ==> pool'.unfeasibleSize == pool.unfeasibleSize
  {
    ghost var r0 := s.route[..];
    pool' := pool;
    penalty' := penalty;
    stop := false;
    improved := false;
    while Size(pool', unfeasiblePass) > 0
      invariant s.Valid() && SameNodes(s.route[..], r0) && PoolOk(pool', s.tsp.numNodes)
      invariant penalty' == PenaltyOf(s.tsp, s.route[..]) <= penalty
      invariant improved ==> penalty' < penalty
      invariant !improved && unfeasiblePass ==> pool'.feasibleSize == pool.feasibleSize
      invariant !improved && !unfeasiblePass ==> pool'.unfeasibleSize == pool.unfeasibleSize
      decreases penalty', Size(pool', unfeasiblePass)
    {
      var improvement;
      pool', penalty', improvement, stop := Pick(s, pool', penalty', unfeasiblePass, backward, fromSize, bound);
      improved := improved || improvement;
      if stop {
        return;
      }
    }
  }

  /** One round of a pass: pick a position of the list (from its whole
      length, or from its live size when fromSize) and try its moves. A kept
      move lowers the penalty and, unless it reached 0 (stop), recomputes
      both lists; a failed pick swaps it behind the live size, which drops
      by one while the route, the penalty and the other list stay. */
  method Pick(s: Solution, pool: Pool, penalty: int, unfeasiblePass: bool, backward: bool, fromSize: bool, bound: int)
    returns (pool': Pool, penalty': int, improvement: bool, stop: bool)
    requires s.Valid() && s.tsp.numNodes <= s.route.Length && bound <= s.route.Length
    requires PoolOk(pool, s.tsp.numNodes) && penalty == PenaltyOf(s.tsp, s.route[..])
    requires Size(pool, unfeasiblePass) > 0
    modifies s.route
    ensures s.Valid() && SameNodes(s.route[..], old(s.route[..])) && PoolOk(pool', s.tsp.numNodes)
    ensures penalty' == PenaltyOf(s.tsp, s.route[..]) <= penalty
    ensures improvement ==> penalty' < penalty
    ensures stop <==> improvement && penalty' == 0
    ensures !improvement ==> Size(pool', unfeasiblePass) == Size(pool, unfeasiblePass) - 1
    ensures !improvement && unfeasiblePass ==> pool'.feasibleSize == pool.feasibleSize
    ensures !improvement && !unfeasiblePass ==> pool'.unfeasibleSize == pool.unfeasibleSize
  {
    pool' := pool;
    penalty' := penalty;
    stop := false;
    var list := if unfeasiblePass then pool.unfeasible else pool.feasible;
    var size := Size(pool, unfeasiblePass);
    var pos;
    if fromSize {
      pos := Random(0, size);
    } else {
      pos := Random(0, |list|);
    }
    var npos := list[pos];
    var penaltyAux;
    improvement, penaltyAux := Shift(s, npos, backward, bound, penalty);
    if improvement {
      penalty' := penaltyAux;
      if penalty' == 0 {
        stop := true;
        return;
      }
      pool' := CalcPool(s);
    } else {
      size := size - 1;
      list := Swapped(list, pos, size);
      if unfeasiblePass {
        pool' := pool.(unfeasible := list, unfeasibleSize := size);
      } else {
        pool' := pool.(feasible := list, feasibleSize := size);
      }
    }
  }

  /** local1shift: while the penalty is positive and a list has live
      entries, recompute the lists and run the four passes (backward on
      the unfeasible list, forward below numNodes-1 on the feasible list,
      forward below len(route)-1 on the unfeasible list picking within the
      live size, backward on the feasible list), returning as soon as the
      penalty reaches 0. The route keeps its nodes and its penalty never
      grows. */
  method Local1Shift(s: Solution)
    requires s.Valid() && s.tsp.numNodes <= s.route.Length
    modifies s.route
    ensures s.Valid() && SameNodes(s.route[..], old(s.route[..]))
    ensures PenaltyOf(s.tsp, s.route[..]) <= PenaltyOf(s.tsp, old(s.route[..]))
  {
    ghost var r0 := s.route[..];
    var penalty := s.Penalty();
    var pool := CalcPool(s);
    while penalty > 0 && (pool.unfeasibleSize > 0 || pool.feasibleSize > 0)
      invariant s.Valid() && SameNodes(s.route[..], r0) && PoolOk(pool, s.tsp.numNodes)
      invariant penalty == PenaltyOf(s.tsp, s.route[..]) <= PenaltyOf(s.tsp, r0)
      decreases penalty, if pool.unfeasibleSize > 0 || pool.feasibleSize > 0 then 1 else 0
    {
      ghost var start := penalty;
      pool := CalcPool(s);
      var stop;
      ghost var i1, i2, i3, i4;
      pool, penalty, stop, i1 := Pass(s, pool, penalty, true, true, false, 0);
      if stop {
        return;
      }
      pool, penalty, stop, i2 := Pass(s, pool, penalty, false, false, false, s.tsp.numNodes - 1);
      if stop {
        return;
      }
      pool, penalty, stop, i3 := Pass(s, pool, penalty, true, false, true, s.route.Length - 1);
      if stop {
        return;
      }
      ghost var before4 := penalty;
      pool, penalty, stop, i4 := Pass(s, pool, penalty, false, true, false, 0);
      if stop {
        return;
      }
      assert pool.unfeasibleSize > 0 ==> i4;
      assert pool.unfeasibleSize > 0 || pool.feasibleSize > 0 ==> penalty < start;
    }
  }

  /** disturb(s, level): a new Solution over the SAME route slice, then
      level+1 rounds, each relocating a random position of calcSets'
      feasible list to a random position of its unfeasible list, but only
      when both lists (computed once, on the input route) are non-empty.
      The moves change the input's route. */
  method Disturb(s: Solution, level: int) returns (x: Solution, ghost moves: nat)
    requires s.Valid() && s.tsp.numNodes <= s.route.Length
    modifies s.route
    ensures fresh(x) && x.route == s.route && x.tsp == s.tsp && x.Valid()
    ensures SameNodes(s.route[..], old(s.route[..]))
    ensures var sets := CalcSetsOf(s.tsp, old(s.route[..]));
      moves == if 0 < |sets.0| && 0 < |sets.1| then Max(level + 1, 0) else 0
    ensures moves == 0 ==> s.route[..] == old(s.route[..])
  {
    ghost var r0 := s.route[..];
    x := new Solution(s.tsp, s.route);
    var pool := CalcPool(s);
    var feasibleSet, unfeasibleSet := pool.feasible, pool.unfeasible;
    var feasibleSize, unfeasibleSize := |feasibleSet|, |unfeasibleSet|;
    moves := 0;
    var i := 0;
    while i <= level
      invariant x.route == s.route && x.tsp == s.tsp && x.Valid() && SameNodes(s.route[..], r0)
      invariant 0 <= i <= Max(level + 1, 0)
      invariant moves == if 0 < feasibleSize && 0 < unfeasibleSize then i else 0
      invariant moves == 0 ==> s.route[..] == r0
    {
      if feasibleSize > 0 && unfeasibleSize > 0 {
        var f := Random(0, feasibleSize);
        var u := Random(0, unfeasibleSize);
        RelocatedSameNodes(s.route[..], r0, feasibleSet[f], unfeasibleSet[u], s.tsp.numNodes);
        x.Exchange(feasibleSet[f], unfeasibleSet[u]);
        moves := moves + 1;
      }
      i := i + 1;
    }
  }

  /** The start of Process: a random route, rewritten by PenaltySort, then
      shifted. */
  method Start(tsp: Pdp) returns (x: Solution)
    requires WellFormed(tsp) && 2 <= tsp.numNodes
    ensures fresh(x) && fresh(x.route) && x.tsp == tsp && x.Valid()
    ensures x.route.Length == tsp.numNodes && EachOnce(x.route[..], 0, tsp.numNodes)
  {
    x := GetRandom(tsp);
    x.PenaltySort();
    EachOnceWithin(x.route[..], tsp.numNodes);
    Local1Shift(x);
  }

  /** Process: repair until feasible. Each round disturbs x (in place,
      through the shared route) and shifts it. The test x2.Penalty() <
      x.Penalty() compares a route with itself, so the copy-back, the level
      reset and the return it guards never happen: the level grows every
      round and, past levelMax 8, restarts from a fresh GetRandom route
      (neither sorted nor shifted). The loop ends only on a feasible route
      and need not terminate; fuel bounds the number of rounds and `done`
      says whether it ended on its own. Every route it holds has each node
      once. */
  method Process(tsp: Pdp, fuel: nat) returns (x: Solution, done: bool)
    requires WellFormed(tsp) && 2 <= tsp.numNodes
    ensures fresh(x) && fresh(x.route) && x.tsp == tsp && x.Valid()
    ensures x.route.Length == tsp.numNodes && EachOnce(x.route[..], 0, tsp.numNodes)
    ensures done ==> Feasible(tsp, x.route[..])
  {
    var level := 1;
    x := Start(tsp);
    var rounds := fuel;
    var feasible := x.IsFeasible();
    while !feasible
      invariant fresh(x) && fresh(x.route) && x.tsp == tsp && x.Valid()
      invariant x.route.Length == tsp.numNodes && EachOnce(x.route[..], 0, tsp.numNodes)
      invariant feasible == Feasible(tsp, x.route[..])
      invariant 1 <= level <= LevelMax
      decreases rounds
    {
      if rounds == 0 {
        return x, false;
      }
      rounds := rounds - 1;
      var x2, moves := Disturb(x, level);
      Local1Shift(x2);
      var p2 := x2.Penalty();
      var p1 := x.Penalty();
      if p2 < p1 {
        // x2 wraps x's own route: the penalties are equal, and the copy of
        // x2 into x from position 1 with the level reset is never reached.
        assert false;
      } else {
        level := level + 1;
        if LevelMax < level {
          level := 1;
          x := GetRandom(tsp);
        }
      }
      feasible := x.IsFeasible();
    }
    done := true;
  }
}
