// pdp/local2opt.go: 2-opt of the pdp package. Every exchange works on a
// fresh copy of the route and is kept only when it is strictly shorter and
// still feasible, so no search ever changes the solution it is given.
module PdpLocal2Opt {
  import opened Utils
  import opened Schedule
  import opened Routes
  import opened PdpSolution
  import CoreSearch

  /** levelMax and iterMax of Process. */
  const LevelMax := 8
  const IterMax := 5

  /** r2 is a feasible route strictly shorter than r over the first
      numNodes positions. */
  ghost predicate Better(p: Pdp, r: seq<int>, r2: seq<int>)
  {
    WellFormed(p) && p.numNodes <= |r| && p.numNodes <= |r2| && Within(r, p.numNodes) && Within(r2, p.numNodes)
    && TotalDistanceOf(p, r2) < TotalDistanceOf(p, r) && Feasible(p, r2)
  }

  /** What a search may hand back for s: s itself, or a fresh solution of
      numNodes positions over the same nodes as s's first numNodes, that
      is feasible and strictly shorter. */
  ghost predicate Improves(s: Solution, x: Solution)
    reads s, s.route, x, x.route
  {
    x == s
    || (x.tsp == s.tsp && x.Valid() && x.route.Length == s.tsp.numNodes <= s.route.Length
        && SameNodes(x.route[..], s.route[..s.tsp.numNodes]) && Better(s.tsp, s.route[..], x.route[..]))
  }

  /** A kept move after a kept move is still an improvement. */
  lemma {:induction false} ImprovesTrans(s: Solution, y: Solution, x: Solution)
    requires s.Valid() && Improves(s, y) && Improves(y, x) && y.route.Length == s.tsp.numNodes
    ensures Improves(s, x)
  {
    if y != s && x != y {
      assert y.route[..y.tsp.numNodes] == y.route[..];
      assert x.route[..x.tsp.numNodes] == x.route[..];
      assert s.route[..s.tsp.numNodes][..s.tsp.numNodes] == s.route[..s.tsp.numNodes];
    }
  }

  class Local2Opt {
    /** The inc slice of the struct; no method of the pdp package reads it. */
    const inc: array<int>

    constructor (inc: array<int>)
      ensures this.inc == inc
    {
      this.inc := inc;
    }

    /** exchange(s, iaux, jaux): reverse positions iaux+1..jaux of a fresh
        copy of s's first numNodes positions (the median swap loop, which
        leaves the copy as it is when jaux <= iaux); return the copy with
        true when it is strictly shorter than s and feasible, and s itself
        with false otherwise. */
    method Exchange(s: Solution, iaux: int, jaux: int) returns (x: Solution, ok: bool)
      requires s.Valid() && 2 <= s.tsp.numNodes <= s.route.Length
      requires 0 <= iaux && (iaux < jaux ==> jaux < s.tsp.numNodes)
      ensures var rev := ReversedSpan(s.route[..s.tsp.numNodes], iaux + 1, jaux);
        ok <==> Better(s.tsp, s.route[..], rev)
      ensures ok ==> (fresh(x) && fresh(x.route)
        && x.route[..] == ReversedSpan(s.route[..s.tsp.numNodes], iaux + 1, jaux))
      ensures !ok ==> x == s
      ensures Improves(s, x)
      ensures jaux <= iaux ==> !ok
    {
      var start := iaux + 1;
      var end := jaux;
      ghost var head := s.route[..s.tsp.numNodes];
      var prev := s.TotalDistance();
      x := s.Copy();
      ReverseSpan(x.route, start, end);
      if start <= end {
        ReversedWithin(head, start, end, s.tsp.numNodes);
        SameNodesRefl(head);
        ReversedSameNodes(head, head, start, end, s.tsp.numNodes);
      } else {
        ReversedSpanShort(head, start, end);
      }
      assert x.route[..] == x.route[..x.tsp.numNodes];
      var d := x.TotalDistance();
      var feasible := x.IsFeasible();
      if prev > d && feasible {
        ok := true;
        return;
      }
      x := s;
      ok := false;
    }

    /** local2Opt(s): candidate positions 1..numNodes-2; pick one at
        random, and for each later position i try the exchange of the
        edges after npos and after i whenever it shortens them; a kept
        exchange rebinds s and refills the candidates, a pick without one
        is swapped behind the live size. Only the local s is rebound, so
        the caller's solution is untouched; found is what s ends as. At
        most fuel exchanges are kept; a further one ends the search. */
    method Local2OptSearch(s: Solution, fuel: nat) returns (found: Solution)
      requires s.Valid() && 2 <= s.tsp.numNodes <= s.route.Length
      ensures Improves(s, found) && (found != s ==> fresh(found) && fresh(found.route))
    {
      var numNodes := s.tsp.numNodes;
      var setSize := numNodes - 2;
      var candidates := new int[setSize];
      var i := 0;
      while i < setSize
        invariant 0 <= i <= setSize
        invariant forall k :: 0 <= k < i ==> candidates[k] == k + 1
      {
        candidates[i] := i + 1;
        i := i + 1;
      }
      found := s;
      var budget := fuel;
      while setSize > 0
        invariant 0 <= setSize <= numNodes - 2 && candidates.Length == numNodes - 2
        invariant forall k :: 0 <= k < candidates.Length ==> 1 <= candidates[k] <= numNodes - 2
        invariant Improves(s, found) && (found != s ==> fresh(found) && fresh(found.route))
        invariant found.Valid() && numNodes <= found.route.Length && found.tsp == s.tsp
        decreases budget, setSize
      {
        var pos := Random(0, setSize);
        var npos := candidates[pos];
        var improvement := TryPosition(s, found, npos);
        if improvement.1 {
          found := improvement.0;
          if budget == 0 {
            return;
          }
          budget := budget - 1;
          setSize := numNodes - 2;
        } else {
          candidates[pos], candidates[setSize - 1] := candidates[setSize - 1], npos;
          setSize := setSize - 1;
        }
      }
    }

    /** The inner loop of local2Opt at the picked position npos: n1 -> n2
        ... n3 -> n4 becomes n1 -> n3 ... n2 -> n4 (n4 is 0 past the last
        position) when e1 + e2 > e3 + e4 and exchange accepts it. */
    method TryPosition(ghost s: Solution, cur: Solution, npos: int) returns (res: (Solution, bool))
      requires s.Valid() && cur.tsp == s.tsp && cur.Valid() && 2 <= s.tsp.numNodes <= cur.route.Length
      requires 1 <= npos <= s.tsp.numNodes - 2
      requires Improves(s, cur)
      ensures Improves(s, res.0) && (res.0 == cur || (fresh(res.0) && fresh(res.0.route)))
      ensures res.0.Valid() && s.tsp.numNodes <= res.0.route.Length && res.0.tsp == s.tsp
      ensures !res.1 ==> res.0 == cur
    {
      var numNodes := cur.tsp.numNodes;
      var m := cur.tsp.matrix;
      var n1 := cur.route[npos];
      var n2 := cur.route[npos + 1];
      var e1 := m[n1][n2];
      var i := npos + 2;
      while i < numNodes
        invariant npos + 2 <= i
      {
        var n3 := cur.route[i];
        var n4 := 0;
        if i < numNodes - 1 {
          n4 := cur.route[i + 1];
        }
        var e2 := m[n3][n4];
        var e3 := m[n1][n3];
        var e4 := m[n2][n4];
        if e1 + e2 > e3 + e4 {
          var x, ok := Exchange(cur, npos, i);
          if ok {
            if cur != s {
              ImprovesTrans(s, cur, x);
            }
            return (x, true);
          }
        }
        i := i + 1;
      }
      return (cur, false);
    }

    /** disturb(s, level): 2*level rounds; each takes a random position n1
        and tries exchange(n1, i) for i from n1+1 below len-1, keeping the
        first accepted one, then for i from n1-1 down to 2, where the
        reversal is empty and nothing is ever accepted. The result is s or
        an improvement of it. */
    method Disturb(s: Solution, level: int) returns (x: Solution)
      requires s.Valid() && 2 <= s.tsp.numNodes == s.route.Length
      ensures Improves(s, x) && (x != s ==> fresh(x) && fresh(x.route))
      ensures x.Valid() && x.tsp == s.tsp && x.route.Length == s.tsp.numNodes
    {
      var j := 0;
      x := s;
      while j < level * 2
        invariant Improves(s, x) && (x != s ==> fresh(x) && fresh(x.route))
        invariant x.Valid() && x.tsp == s.tsp && x.route.Length == s.tsp.numNodes
        decreases level * 2 - j
      {
        var n1 := Random(0, x.route.Length);
        var i := n1;
        while i < x.route.Length - 1
          invariant Improves(s, x) && (x != s ==> fresh(x) && fresh(x.route))
          invariant x.Valid() && x.tsp == s.tsp && x.route.Length == s.tsp.numNodes
        {
          if i != n1 {
            var y, imp := Exchange(x, n1, i);
            if y != x {
              ImprovesTrans(s, x, y);
            }
            x := y;
            if imp {
              break;
            }
          }
          i := i + 1;
        }
        i := n1;
        while i > 1
          invariant Improves(s, x) && (x != s ==> fresh(x) && fresh(x.route))
          invariant x.Valid() && x.tsp == s.tsp && x.route.Length == s.tsp.numNodes
        {
          if i != n1 {
            var y, imp := Exchange(x, n1, i);
            if y != x {
              ImprovesTrans(s, x, y);
            }
            x := y;
            if imp {
              break;
            }
          }
          i := i - 1;
        }
        j := j + 1;
      }
    }

    /** Process(x): local2Opt(x), whose result is dropped, then the level
        loop: disturb the best, 2-opt the disturbed copy (dropped again),
        adopt it on a strictly smaller TotalDistance and restart at level
        1, else raise the level once iterLevel has passed iterMax; stop at
        level 8. At most fuel improvements are taken; a further one ends
        the loop. */
    method Process(x: Solution, fuel: nat) returns (best: Solution)
      requires x.Valid() && 2 <= x.tsp.numNodes == x.route.Length
      ensures Improves(x, best) && (best != x ==> fresh(best) && fresh(best.route))
      ensures best.Valid() && best.tsp == x.tsp && best.route.Length == x.tsp.numNodes
    {
      var dropped := Local2OptSearch(x, fuel);
      var c := CoreSearch.Levels(1, 0);
      best := x;
      var budget := fuel;
      while c.level < LevelMax
        invariant 1 <= c.level && 0 <= c.iterLevel <= IterMax + 1
        invariant Improves(x, best) && (best != x ==> fresh(best) && fresh(best.route))
        invariant best.Valid() && best.tsp == x.tsp && best.route.Length == x.tsp.numNodes
        decreases budget, LevelMax - c.level, IterMax + 1 - c.iterLevel
      {
        var x2 := Disturb(best, c.level);
        dropped := Local2OptSearch(x2, fuel);
        var a := x2.TotalDistance();
        var b := best.TotalDistance();
        var improved := a < b;
        if improved {
          if best != x {
            ImprovesTrans(x, best, x2);
          }
          best := x2;
          if budget == 0 {
            return;
          }
          budget := budget - 1;
        }
        CoreSearch.AdvanceInRange(c, improved, IterMax, LevelMax);
        c := CoreSearch.Advance(c, improved, IterMax);
      }
    }
  }

  lemma {:induction false} SameNodesRefl(r: seq<int>)
    ensures SameNodes(r, r)
  {
  }
}
