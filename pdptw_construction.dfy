// pdptw/construction.go: the penalty-driven repair of the pdptw package.
// Penalty and calcSets are called on pdptw.Solution but defined nowhere in
// the package, so the model takes them as given functions of the route
// (an Evaluator). disturb wraps the route slice it is given instead of
// copying it, so the disturbed solution and its input share one route.
module PdptwConstruction {
  import opened Utils
  import opened Instance
  import opened Schedule
  import opened Routes
  import opened PdptwSolution
  import PdptwGenerate
  import CoreConstruction

  /** The two strategies the pdptw package knows, and the nil strategy of
      a zero Construction value. */
  datatype Strategy = RandomStrategy | GreedyStrategy | NoStrategy

  /** The Construction struct: never changed after NewCons. */
  datatype Construction = Construction(levelMax: int, strategy: Strategy)

  /** NewCons: "greedy" selects the nearest-neighbour tour; "random" and
      every other name select the random permutation. */
  function NewCons(strategy: string, levelMax: int): (c: Construction)
    ensures c.levelMax == levelMax
    ensures c.strategy == GreedyStrategy <==> strategy == "greedy"
    ensures c.strategy == RandomStrategy <==> strategy != "greedy"
  {
    var s := match strategy
      case "random" => RandomStrategy
      case "greedy" => GreedyStrategy
      case _ => RandomStrategy;
    Construction(levelMax, s)
  }

  /** Penalty and calcSets of a pdptw Solution, which the package calls but
      does not define: a penalty of each route, and the feasible and
      unfeasible position lists. */
  datatype Evaluator = Evaluator(
    penalty: (Pdptw, seq<int>) -> nat,
    calcSets: (Pdptw, seq<int>) -> (seq<int>, seq<int>))

  /** Both lists of calcSets name positions 1..len-1, as getSet's do. */
  ghost predicate SetsInRange(ev: Evaluator)
  {
    forall t: Pdptw, r: seq<int> ::
      CoreConstruction.Positions(ev.calcSets(t, r).0, |r|) && CoreConstruction.Positions(ev.calcSets(t, r).1, |r|)
  }

  /** The penalty of a solution's current route. */
  function PenaltyOf(ev: Evaluator, s: Solution): nat
    reads s, s.route
  {
    ev.penalty(s.tsp, s.route[..])
  }

  /** One pick of shifting: move the node at npos one position further at a
      time (backward down to position 1, forward up to the last but one)
      while the arc to its new neighbour exists. The first move whose
      penalty is below `penalty` is kept and its penalty returned; every
      other move is undone. */
  method ShiftNode(ev: Evaluator, s: Solution, npos: int, direction: CoreConstruction.Direction, penalty: int)
    returns (improvement: bool, penaltyAux: int)
    requires s.Valid() && 1 <= npos < s.route.Length
    modifies s.route
    ensures s.Valid() && SameNodes(s.route[..], old(s.route[..]))
    ensures improvement ==> penaltyAux == ev.penalty(s.tsp, s.route[..]) < penalty
    ensures !improvement ==> s.route[..] == old(s.route[..])
  {
    ghost var cur := s.route[..];
    var n := s.route[npos];
    improvement := false;
    penaltyAux := 0;
    if direction == CoreConstruction.Backward {
      var i := npos - 1;
      while i > 0
        invariant 0 <= i < npos
        invariant s.route[..] == cur
      {
        if !Arc(s.tsp.arcs, n, s.route[i]) {
          break;
        }
        s.Exchange(npos, i);
        RelocatedSameNodes(cur, cur, npos, i, s.tsp.numNodes);
        penaltyAux := ev.penalty(s.tsp, s.route[..]);
        if penaltyAux < penalty {
          improvement := true;
          return;
        }
        s.Exchange(i, npos);
        RelocatedUndo(cur, npos, i);
        i := i - 1;
      }
    } else {
      var i := npos + 1;
      while i < s.route.Length - 1
        invariant npos < i
        invariant s.route[..] == cur
      {
        if !Arc(s.tsp.arcs, s.route[i], n) {
          break;
        }
        s.Exchange(npos, i);
        RelocatedSameNodes(cur, cur, npos, i, s.tsp.numNodes);
        penaltyAux := ev.penalty(s.tsp, s.route[..]);
        if penaltyAux < penalty {
          improvement := true;
          return;
        }
        s.Exchange(i, npos);
        RelocatedUndo(cur, npos, i);
        i := i + 1;
      }
    }
  }

  /** shifting(s, direction, setType): pick random positions of getSet's
      list (a failed pick is swapped behind the live count), shift each as
      ShiftNode does, recompute the list after every kept move. The penalty
      is stored before a kept move that reaches 0 returns, so the result is
      always the penalty of the final route; `improved` is not set by that
      last move. */
  method Shifting(ev: Evaluator, s: Solution, direction: CoreConstruction.Direction, setType: SetType)
    returns (penalty: int, improved: bool)
    requires s.Valid()
    modifies s.route
    ensures s.Valid() && SameNodes(s.route[..], old(s.route[..]))
    ensures penalty == ev.penalty(s.tsp, s.route[..]) <= ev.penalty(s.tsp, old(s.route[..]))
    ensures improved ==> penalty < ev.penalty(s.tsp, old(s.route[..]))
  {
    ghost var r0 := s.route[..];
    var positions := s.GetSet(setType);
    CoreConstruction.PositionsOf(positions, s.route.Length);
    penalty := ev.penalty(s.tsp, s.route[..]);
    var pointer := |positions|;
    var improvement := false;
    improved := false;
    while pointer > 0
      invariant s.Valid() && SameNodes(s.route[..], r0)
      invariant penalty == ev.penalty(s.tsp, s.route[..]) <= ev.penalty(s.tsp, r0)
      invariant improved ==> penalty < ev.penalty(s.tsp, r0)
      invariant 0 <= pointer <= |positions|
      invariant CoreConstruction.Positions(positions, s.route.Length)
      decreases penalty, pointer
    {
      var pos := Random(0, pointer);
      var npos := positions[pos];
      var penaltyAux;
      improvement, penaltyAux := ShiftNode(ev, s, npos, direction, penalty);
      if improvement {
        penalty := penaltyAux;
        if penalty == 0 {
          return;
        }
        positions := s.GetSet(setType);
        CoreConstruction.PositionsOf(positions, s.route.Length);
        pointer := |positions|;
        improved := true;
      } else {
        pointer := pointer - 1;
        positions := Swapped(positions, pos, pointer);
      }
    }
  }

  /** localSearch: the four shifting passes (backward on the unfeasible
      positions, forward on the feasible positions, forward on the unfeasible positions,
      backward on the feasible positions), repeated while any of them improved,
      leaving as soon as one reports penalty 0. */
  method LocalSearch(ev: Evaluator, s: Solution)
    requires s.Valid()
    modifies s.route
    ensures s.Valid() && SameNodes(s.route[..], old(s.route[..]))
    ensures ev.penalty(s.tsp, s.route[..]) <= ev.penalty(s.tsp, old(s.route[..]))
  {
    ghost var r0 := s.route[..];
    var penalty := 1;
    var i1, i2, i3, i4 := true, true, true, true;
    while i1 || i2 || i3 || i4
      invariant s.Valid() && SameNodes(s.route[..], r0)
      invariant ev.penalty(s.tsp, s.route[..]) <= ev.penalty(s.tsp, r0)
      decreases ev.penalty(s.tsp, s.route[..]), if i1 || i2 || i3 || i4 then 1 else 0
    {
      ghost var before := ev.penalty(s.tsp, s.route[..]);
      penalty, i1 := Shifting(ev, s, CoreConstruction.Backward, UnfeasibleSet);
      if penalty == 0 {
        break;
      }
      penalty, i2 := Shifting(ev, s, CoreConstruction.Forward, FeasibleSet);
      if penalty == 0 {
        break;
      }
      penalty, i3 := Shifting(ev, s, CoreConstruction.Forward, UnfeasibleSet);
      if penalty == 0 {
        break;
      }
      penalty, i4 := Shifting(ev, s, CoreConstruction.Backward, FeasibleSet);
      if penalty == 0 {
        break;
      }
      assert i1 || i2 || i3 || i4 ==> ev.penalty(s.tsp, s.route[..]) < before;
    }
  }

  /** disturb(s, level): a new Solution over the SAME route slice, then
      level+1 rounds, each relocating a random position of calcSets'
      feasible list to a random position of its unfeasible list, but only
      when both lists (computed once, on the input route) are non-empty.
      The moves change the input's route. */
  method Disturb(ev: Evaluator, s: Solution, level: int) returns (x: Solution, ghost moves: nat)
    requires s.Valid() && SetsInRange(ev)
    modifies s.route
    ensures fresh(x) && x.route == s.route && x.tsp == s.tsp && x.Valid()
    ensures SameNodes(s.route[..], old(s.route[..]))
    ensures var sets := ev.calcSets(s.tsp, old(s.route[..]));
      moves == if 0 < |sets.0| && 0 < |sets.1| then Max(level + 1, 0) else 0
    ensures moves == 0 ==> s.route[..] == old(s.route[..])
  {
    ghost var r0 := s.route[..];
    x := new Solution(s.tsp, s.route);
    var sets := ev.calcSets(s.tsp, s.route[..]);
    var feasibleSet, unfeasibleSet := sets.0, sets.1;
    var feasibleSize, unfeasibleSize := |feasibleSet|, |unfeasibleSet|;
    moves := 0;
    var i := 0;
    while i <= level
      invariant x.route == s.route && x.tsp == s.tsp && x.Valid() && SameNodes(s.route[..], r0)
      invariant 0 <= i <= Max(level + 1, 0)
      invariant moves == if 0 < feasibleSize && 0 < unfeasibleSize then i else 0
      invariant moves == 0 ==> s.route[..] == r0
    {
      if feasibleSize > 0 && unfeasibleSize > 0 {
        var f := Random(0, feasibleSize);
        var u := Random(0, unfeasibleSize);
        RelocatedSameNodes(s.route[..], r0, feasibleSet[f], unfeasibleSet[u], s.tsp.numNodes);
        x.Exchange(feasibleSet[f], unfeasibleSet[u]);
        moves := moves + 1;
      }
      i := i + 1;
    }
  }

  /** The length of the routes a strategy builds: the random permutation
      has numNodes positions, the greedy tour returns to 0 at numNodes+1. */
  function RouteLength(strategy: Strategy, numNodes: int): int
  {
    if strategy == GreedyStrategy then numNodes + 1 else numNodes
  }

  /** The instance a strategy can build a route of nodes for; the nil
      strategy builds none. */
  ghost predicate Buildable(strategy: Strategy, tsp: Pdptw)
  {
    strategy != NoStrategy && WellFormed(tsp) && 0 < tsp.numNodes
    && (strategy == RandomStrategy ==> 0 <= tsp.startNode < tsp.numNodes)
  }

  /** The random strategy's routes, and every repair of them, hold each
      node exactly once. */
  ghost predicate Visits(strategy: Strategy, tsp: Pdptw, r: seq<int>)
  {
    strategy == RandomStrategy ==> PdptwGenerate.EachNodeOnce(r, tsp.numNodes)
  }

  /** strategy.getSolution. */
  method GetSolution(strategy: Strategy, tsp: Pdptw) returns (x: Solution)
    requires Buildable(strategy, tsp)
    ensures fresh(x) && fresh(x.route) && x.tsp == tsp && x.Valid()
    ensures x.route.Length == RouteLength(strategy, tsp.numNodes)
    ensures Visits(strategy, tsp, x.route[..])
  {
    match strategy
    case RandomStrategy =>
      x := PdptwGenerate.GetRandom(tsp);
    case GreedyStrategy =>
      x := PdptwGenerate.Greedy(tsp);
    case NoStrategy =>
      assert false;
  }

  /** process: repair until feasible. Each round disturbs x (in place,
      through the shared route) and shifts it; a feasible result is
      returned at once. The test x2.Penalty() < x.Penalty() compares a
      route with itself, so the copy-back and level reset it guards never
      happen: the level grows every round and, past levelMax, restarts from
      a fresh strategy route. The loop need not terminate; fuel bounds the
      number of rounds and `done` says whether it ended on its own, which
      it does only on a feasible route. */
  method Process(ev: Evaluator, c: Construction, tsp: Pdptw, fuel: nat) returns (x: Solution, done: bool)
    requires Buildable(c.strategy, tsp) && SetsInRange(ev)
    ensures fresh(x) && fresh(x.route) && x.tsp == tsp && x.Valid()
    ensures x.route.Length == RouteLength(c.strategy, tsp.numNodes)
    ensures Visits(c.strategy, tsp, x.route[..])
    ensures done ==> Feasible(tsp, x.route[..])
  {
    var level := 1;
    x := GetSolution(c.strategy, tsp);
    var rounds := fuel;
    var feasible := x.IsFeasible();
    while !feasible
      invariant fresh(x) && fresh(x.route) && x.tsp == tsp && x.Valid()
      invariant x.route.Length == RouteLength(c.strategy, tsp.numNodes)
      invariant Visits(c.strategy, tsp, x.route[..])
      invariant feasible == Feasible(tsp, x.route[..])
      invariant 1 <= level <= Max(c.levelMax, 1)
      decreases rounds
    {
      if rounds == 0 {
        return x, false;
      }
      rounds := rounds - 1;
      var x2, moves := Disturb(ev, x, level);
      LocalSearch(ev, x2);
      var ok2 := x2.IsFeasible();
      if ok2 {
        return x2, true;
      }
      if PenaltyOf(ev, x2) < PenaltyOf(ev, x) {
        // x2 wraps x's own route: the penalties are equal, and the copy of
        // x2 into x from position 1 with the level reset is never reached.
        assert false;
      } else {
        level := level + 1;
        if c.levelMax < level {
          level := 1;
          x := GetSolution(c.strategy, tsp);
        }
      }
      feasible := x.IsFeasible();
    }
    done := true;
  }

  /** The zero Construction value: levelMax 0 and a nil strategy. */
  function ZeroConstruction(): (c: Construction)
    ensures c.levelMax == 0 && c.strategy == NoStrategy
    ensures forall tsp: Pdptw :: !Buildable(c.strategy, tsp)
  {
    Construction(0, NoStrategy)
  }

  /** process on a Construction of any strategy. With the nil strategy the
      first getSolution call panics, which null stands for; otherwise it is
      Process. */
  method ProcessOrPanic(ev: Evaluator, c: Construction, tsp: Pdptw, fuel: nat) returns (x: Solution?, done: bool)
    requires c.strategy != NoStrategy ==> Buildable(c.strategy, tsp)
    requires SetsInRange(ev)
    ensures x == null <==> c.strategy == NoStrategy
    ensures x != null ==> fresh(x) && x.tsp == tsp && x.Valid() && Visits(c.strategy, tsp, x.route[..])
    ensures x != null ==> x.route.Length == RouteLength(c.strategy, tsp.numNodes)
    ensures x != null && done ==> Feasible(tsp, x.route[..])
  {
    if c.strategy == NoStrategy {
      return null, false;
    }
    var s;
    s, done := Process(ev, c, tsp, fuel);
    x := s;
  }
}
