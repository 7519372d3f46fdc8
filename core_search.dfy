// core/localSearch.go, core/vnd.go, core/vns.go and core/gvns.go: picking a
// local search, the variable neighbourhood descent that chains the two
// core searches, and the two VNS drivers with their level counters.
module CoreSearch {
  import opened Utils
  import opened Instance
  import opened Schedule
  import opened Routes
  import opened CoreSolution
  import opened CoreObjective
  import CoreLocal2Opt
  import CoreLocalShifting

  /** The three local searches, each carrying its objective. */
  datatype Search =
    | VndSearch(objective: Objective)
    | ShiftingSearch(objective: Objective)
    | TwoOptSearch(objective: Objective)

  /** getLocalSearch: "vnd" and "shifting" select those searches; every
      other name, "2opt" included, selects local 2-opt. */
  function GetLocalSearch(local: string, objective: Objective): (s: Search)
    ensures s.objective == objective
    ensures s.VndSearch? <==> local == "vnd"
    ensures s.ShiftingSearch? <==> local == "shifting"
    ensures s.TwoOptSearch? <==> local != "vnd" && local != "shifting"
  {
    match local
    case "vnd" => VndSearch(objective)
    case "shifting" => ShiftingSearch(objective)
    case _ => TwoOptSearch(objective)
  }

  /** What every search may assume of the solution it improves. */
  ghost predicate Searchable(s: Solution)
    reads s, s.route
  {
    s.Valid() && s.route.Length == s.tsp.numNodes >= 3
  }

  /** search.process(s): run the chosen search on s in place. */
  method RunSearch(search: Search, s: Solution, fuel: nat)
    requires Searchable(s)
    modifies s.route
    ensures Searchable(s) && SameNodes(s.route[..], old(s.route[..]))
    ensures search.TwoOptSearch? && CoreLocal2Opt.Improving(search.objective, s.tsp)
      ==> Cost(search.objective, s.tsp, s.route[..]) <= Cost(search.objective, s.tsp, old(s.route[..]))
    ensures search.ShiftingSearch?
      ==> Span(s.tsp.matrix, s.tsp.readyTime, s.route[..], s.tsp.traveled) <= Span(s.tsp.matrix, s.tsp.readyTime, old(s.route[..]), s.tsp.traveled)
  {
    match search
    case TwoOptSearch(o) =>
      var l := new CoreLocal2Opt.Local2Opt(o);
      l.Process(s, fuel);
    case ShiftingSearch(o) =>
      var l := new CoreLocalShifting.LocalShifting(o);
      l.Process(s);
    case VndSearch(o) =>
      var rounds := VndProcess(o, s, fuel);
  }

  /** vnd.process(x): shift, then 2-opt, on x2, and repeat while x2 is
      better than x. x2 refers to x itself, so the comparison reads one
      solution twice, is never true, and the body runs exactly once. */
  method VndProcess(objective: Objective, x: Solution, fuel: nat) returns (rounds: nat)
    requires Searchable(x)
    modifies x.route
    ensures Searchable(x) && SameNodes(x.route[..], old(x.route[..]))
    ensures rounds == 1
  {
    var x2 := x;
    var cur := x;
    rounds := 0;
    var going := true;
    while going
      invariant x2 == x && cur == x && Searchable(x)
      invariant SameNodes(x.route[..], old(x.route[..]))
      invariant going <==> rounds == 0
      invariant rounds <= 1
      decreases going
    {
      var shifting := new CoreLocalShifting.LocalShifting(objective);
      shifting.Process(x2);
      var twoOpt := new CoreLocal2Opt.Local2Opt(objective);
      twoOpt.Process(x2, fuel);
      rounds := rounds + 1;
      var after := CoreObjective.Get(objective, x2);
      var before := CoreObjective.Get(objective, cur);
      if after < before {
        cur := x2;
      } else {
        going := false;
      }
    }
  }

  /** A VNS driver's two counters. */
  datatype Levels = Levels(level: int, iterLevel: int)

  /** The counter update that ends each round of vns and gvns: a strict
      improvement restarts at level 1; otherwise the level goes up once
      iterLevel has passed iterMax. Either way iterLevel then grows by one. */
  function Advance(c: Levels, improved: bool, iterMax: int): (c': Levels)
    ensures improved ==> c' == Levels(1, 1)
    ensures !improved && c.iterLevel > iterMax ==> c' == Levels(c.level + 1, 1)
    ensures !improved && c.iterLevel <= iterMax ==> c' == Levels(c.level, c.iterLevel + 1)
  {
    var c1 := if improved then Levels(1, 0)
              else if c.iterLevel > iterMax then Levels(c.level + 1, 0)
              else c;
    c1.(iterLevel := c1.iterLevel + 1)
  }

  /** The counters a driver holds at the top of its loop. */
  ghost predicate InRange(c: Levels, iterMax: int, levelMax: int)
  {
    1 <= c.level < levelMax && 0 <= c.iterLevel <= Max(iterMax, 0) + 1
  }

  /** After any round the level stays within [1, levelMax] and iterLevel
      within [1, max(iterMax, 0) + 1]; only reaching levelMax ends the loop. */
  lemma {:induction false} AdvanceInRange(c: Levels, improved: bool, iterMax: int, levelMax: int)
    requires InRange(c, iterMax, levelMax)
    ensures var c' := Advance(c, improved, iterMax);
      1 <= c'.level <= levelMax && 1 <= c'.iterLevel <= Max(iterMax, 0) + 1
      && (c'.level < levelMax ==> InRange(c', iterMax, levelMax))
  {
  }

  /** How many non-improving rounds can still follow before the level
      reaches levelMax. */
  function Stalls(c: Levels, iterMax: int, levelMax: int): (n: nat)
    requires InRange(c, iterMax, levelMax)
    ensures n >= 1
  {
    var width := Max(iterMax, 0) + 2;
    MulNonNegative(levelMax - c.level - 1, width);
    (levelMax - c.level - 1) * width + (width - c.iterLevel)
  }

  /** A non-improving round uses up one of the remaining stalls: without
      improvements the loop ends within (levelMax - 1) * (iterMax + 2)
      rounds. */
  lemma {:induction false} AdvanceStalls(c: Levels, iterMax: int, levelMax: int)
    requires InRange(c, iterMax, levelMax)
    ensures var c' := Advance(c, false, iterMax);
      c'.level == levelMax || (InRange(c', iterMax, levelMax) && Stalls(c', iterMax, levelMax) < Stalls(c, iterMax, levelMax))
  {
    var c' := Advance(c, false, iterMax);
    var width := Max(iterMax, 0) + 2;
    if c.iterLevel > iterMax {
      assert c.iterLevel == width - 1 || iterMax < 0;
      if c'.level < levelMax {
        assert (levelMax - c.level - 1) * width == (levelMax - c.level - 2) * width + width;
        calc {
          Stalls(c', iterMax, levelMax);
          (levelMax - c.level - 2) * width + (width - 1);
        <  (levelMax - c.level - 1) * width + (width - c.iterLevel);
          Stalls(c, iterMax, levelMax);
        }
      }
    }
  }

  /** A VNS driver: the search, both bounds and the objective. */
  datatype Vns = Vns(search: Search, levelMax: int, iterMax: int, objective: Objective)

  /** NewVNS: the configured local search with the driver's objective. */
  function NewVns(localSearch: string, levelMax: int, iterMax: int, objective: Objective): (v: Vns)
    ensures v.search == GetLocalSearch(localSearch, objective) && v.search.objective == objective
    ensures v.levelMax == levelMax && v.iterMax == iterMax && v.objective == objective
  {
    Vns(GetLocalSearch(localSearch, objective), levelMax, iterMax, objective)
  }

  /** NewGVNS: the 2-opt search with the driver's objective. */
  function NewGvns(levelMax: int, iterMax: int, objective: Objective): (v: Vns)
    ensures v.search == TwoOptSearch(objective)
    ensures v.levelMax == levelMax && v.iterMax == iterMax && v.objective == objective
  {
    Vns(TwoOptSearch(objective), levelMax, iterMax, objective)
  }

  /** vns.process(x): search a copy of x, then repeatedly disturb the best
      solution at the current level and search the result, keeping it only
      when it is strictly better. Every solution worked on is fresh, so x
      itself is never changed (the method modifies nothing it was given).
      The best objective never goes up after the first search. At most fuel
      improvements are adopted; a further one ends the search. */
  method VnsProcess(v: Vns, x: Solution, fuel: nat) returns (best: Solution, ghost first: int)
    requires Searchable(x)
    ensures fresh(best) && fresh(best.route) && best.tsp == x.tsp
    ensures Searchable(best) && SameNodes(best.route[..], x.route[..])
    ensures Cost(v.objective, best.tsp, best.route[..]) <= first
  {
    best := x.Copy();
    assert x.route[..x.tsp.numNodes] == x.route[..];
    RunSearch(v.search, best, fuel);
    first := Cost(v.objective, best.tsp, best.route[..]);
    best := Rounds(v, best, first, fuel);
  }

  /** One round of gvns.process: disturb best at the level into a fresh
      solution, search it, and compare both costs; improved tells whether
      the searched candidate costs strictly less than best. */
  method Round(v: Vns, best: Solution, level: int, fuel: nat) returns (x2: Solution, improved: bool)
    requires Searchable(best) && level >= 1
    ensures fresh(x2) && fresh(x2.route)
    ensures x2.tsp == best.tsp && Searchable(x2) && SameNodes(x2.route[..], best.route[..])
    ensures improved <==> Cost(v.objective, x2.tsp, x2.route[..]) < Cost(v.objective, best.tsp, best.route[..])
  {
    x2 := best.Disturb(level);
    RunSearch(v.search, x2, fuel);
    var a := CoreObjective.Get(v.objective, x2);
    var b := CoreObjective.Get(v.objective, best);
    improved := a < b;
  }

  /** The loop of vns.process and gvns.process, from the solution x the
      first search produced: every round disturbs x at the current level
      (1 .. levelMax-1), searches the disturbed copy, and adopts it on a
      strict improvement. */
  method Rounds(v: Vns, x: Solution, ghost first: int, fuel: nat) returns (best: Solution)
    requires Searchable(x) && Cost(v.objective, x.tsp, x.route[..]) <= first
    ensures best == x || (fresh(best) && fresh(best.route))
    ensures best.tsp == x.tsp && Searchable(best) && SameNodes(best.route[..], x.route[..])
    ensures Cost(v.objective, best.tsp, best.route[..]) <= first
  {
    best := x;
    var c := Levels(1, 0);
    var budget := fuel;
    while c.level < v.levelMax
      invariant best == x || (fresh(best) && fresh(best.route))
      invariant best.tsp == x.tsp && Searchable(best) && SameNodes(best.route[..], x.route[..])
      invariant Cost(v.objective, best.tsp, best.route[..]) <= first
      invariant 1 <= c.level && 0 <= c.iterLevel <= Max(v.iterMax, 0) + 1
      decreases budget, v.levelMax - c.level, Max(v.iterMax, 0) + 1 - c.iterLevel
    {
      var x2, improved := Round(v, best, c.level, fuel);
      if improved {
        best := x2;
        if budget == 0 {
          return;
        }
        budget := budget - 1;
      }
      AdvanceInRange(c, improved, v.iterMax, v.levelMax);
      c := Advance(c, improved, v.iterMax);
    }
  }

  /** gvns.process(x): search x itself in place, then run the same rounds;
      the result is x (searched) or a fresh, strictly better solution. */
  method GvnsProcess(v: Vns, x: Solution, fuel: nat) returns (best: Solution, ghost first: int)
    requires Searchable(x)
    modifies x.route
    ensures best == x || (fresh(best) && fresh(best.route))
    ensures best.tsp == x.tsp && Searchable(best) && SameNodes(best.route[..], old(x.route[..]))
    ensures Cost(v.objective, best.tsp, best.route[..]) <= first
    ensures Searchable(x) && first == Cost(v.objective, x.tsp, x.route[..])
  {
    RunSearch(v.search, x, fuel);
    first := Cost(v.objective, x.tsp, x.route[..]);
    best := Rounds(v, x, first, fuel);
  }
}
