// The nearest-neighbour construction that gvns/greedy.go, pdptw/greedy.go
// and pdptw/generate.go each repeat word for word: from node 0, append the
// unvisited node closest to the current one, numNodes-1 times, then return
// to 0. The scan of one matrix row, getMinIndex and the facts about the
// tours it builds are stated here once.
module Nearest {
  import opened Utils
  import opened Schedule
  import opened Routes

  /** math.MaxInt64, the initial minimum of every scan. */
  const MaxInt64: int := 0x7fff_ffff_ffff_ffff

  /** getMinIndex: the first index holding the smallest value. */
  method GetMinIndex(values: seq<int>) returns (minIndex: int)
    requires |values| > 0
    ensures 0 <= minIndex < |values|
    ensures forall k :: 0 <= k < |values| ==> values[minIndex] <= values[k]
    ensures forall k :: 0 <= k < minIndex ==> values[k] > values[minIndex]
  {
    minIndex := 0;
    var min := values[minIndex];
    var index := 0;
    while index < |values|
      invariant 0 <= index <= |values| && 0 <= minIndex < |values| && min == values[minIndex]
      invariant minIndex <= index || (index == 0 && minIndex == 0)
      invariant forall k :: 0 <= k < index ==> min <= values[k]
      invariant forall k :: 0 <= k < minIndex ==> values[k] > min
    {
      if values[index] < min {
        min := values[index];
        minIndex := index;
      }
      index := index + 1;
    }
  }

  /** The nodes a nodes map marks visited (HasNode). */
  function Marked(nodes: map<int, bool>): set<int>
  {
    set k | k in nodes && nodes[k]
  }

  /** Index k of the row may be picked: not yet visited, and its distance
      beats the initial minimum MaxInt64. */
  ghost predicate Candidate(row: seq<int>, visited: set<int>, k: int)
  {
    0 <= k < |row| && k !in visited && row[k] < MaxInt64
  }

  /** The pick of one greedy step: the first candidate at the smallest
      distance, or index 0 when there is no candidate at all. */
  ghost predicate IsNearest(row: seq<int>, visited: set<int>, m: int)
  {
    if exists k :: Candidate(row, visited, k) then
      Candidate(row, visited, m)
      && (forall k :: Candidate(row, visited, k) ==> row[m] <= row[k])
      && (forall k :: 0 <= k < m && Candidate(row, visited, k) ==> row[k] > row[m])
    else m == 0
  }

  /** The inner loop of Greedy over one matrix row: strict < against the
      running minimum, so ties go to the lowest index; minIndex stays 0 when
      no unvisited index beats MaxInt64. */
  method NearestNode(row: seq<int>, nodes: map<int, bool>) returns (minIndex: int)
    ensures IsNearest(row, Marked(nodes), minIndex)
    ensures 0 <= minIndex && (0 < |row| ==> minIndex < |row|)
  {
    ghost var visited := Marked(nodes);
    minIndex := 0;
    var min := MaxInt64;
    var index := 0;
    ghost var found := false;
    while index < |row|
      invariant 0 <= index <= |row| && 0 <= minIndex && (0 < |row| ==> minIndex < |row|)
      invariant found <==> exists k :: 0 <= k < index && Candidate(row, visited, k)
      invariant found ==>
        Candidate(row, visited, minIndex) && min == row[minIndex] && minIndex < index
        && (forall k :: 0 <= k < index && Candidate(row, visited, k) ==> row[minIndex] <= row[k])
        && (forall k :: 0 <= k < minIndex && Candidate(row, visited, k) ==> row[k] > row[minIndex])
      invariant !found ==> minIndex == 0 && min == MaxInt64
    {
      var hasNode := index in nodes && nodes[index];
      assert hasNode <==> index in visited;
      assert Candidate(row, visited, index) <==> !hasNode && row[index] < MaxInt64;
      if !hasNode && row[index] < min {
        min := row[index];
        minIndex := index;
        found := true;
      }
      index := index + 1;
    }
  }

  /** The first n steps of r are greedy: each appends the pick of the row
      of the node just reached against the nodes visited up to it. */
  ghost predicate NearestSteps(matrix: seq<seq<int>>, r: seq<int>, n: int)
  {
    forall i :: 0 <= i < n && i + 1 < |r| ==>
      0 <= r[i] < |matrix| && IsNearest(matrix[r[i]], ValueSet(r[..i + 1]), r[i + 1])
  }

  /** What Greedy builds over `steps` greedy steps: it starts at node 0, each
      step appends the pick of the row of the node just reached against the
      nodes visited so far, and it ends by returning to 0. */
  ghost predicate NearestTour(matrix: seq<seq<int>>, steps: int, r: seq<int>)
  {
    |r| == Max(steps, 0) + 2 && r[0] == 0 && r[|r| - 1] == 0 && NearestSteps(matrix, r, steps)
  }

  /** Appending anything keeps the greedy steps already taken. */
  lemma {:induction false} NearestStepsExtend(matrix: seq<seq<int>>, r: seq<int>, n: int, x: int)
    requires NearestSteps(matrix, r, n) && n < |r|
    ensures NearestSteps(matrix, r + [x], n)
  {
    forall i | 0 <= i < n && i + 1 < |r| + 1
      ensures 0 <= (r + [x])[i] < |matrix|
      ensures IsNearest(matrix[(r + [x])[i]], ValueSet((r + [x])[..i + 1]), (r + [x])[i + 1])
    {
      assert (r + [x])[..i + 1] == r[..i + 1];
    }
  }

  /** Appending the pick of the last node's row is one more greedy step. */
  lemma {:induction false} NearestStepsAppend(matrix: seq<seq<int>>, r: seq<int>, x: int)
    requires 0 < |r| && NearestSteps(matrix, r, |r| - 1) && 0 <= r[|r| - 1] < |matrix|
    requires IsNearest(matrix[r[|r| - 1]], ValueSet(r), x)
    ensures NearestSteps(matrix, r + [x], |r|)
  {
    NearestStepsExtend(matrix, r, |r| - 1, x);
    assert (r + [x])[..|r|] == r;
  }

  /** Marking a node visited adds it to the visited set. */
  lemma {:induction false} MarkedAdd(nodes: map<int, bool>, x: int)
    ensures Marked(nodes[x := true]) == Marked(nodes) + {x}
  {
  }

  /** Every distance is below MaxInt64. */
  ghost predicate Bounded(matrix: seq<seq<int>>)
  {
    forall a, b :: 0 <= a < |matrix| && 0 <= b < |matrix[a]| ==> matrix[a][b] < MaxInt64
  }

  /** The numbers 0..n-1. */
  function Range(n: nat): (s: set<int>)
    ensures forall k :: k in s <==> 0 <= k < n
  {
    if n == 0 then {} else Range(n - 1) + {n - 1}
  }

  /** The numbers 0..n-1 form a set of n elements. */
  lemma {:induction false} RangeSize(n: nat)
    ensures |Range(n)| == n
  {
    if n == 0 {
      assert Range(0) == {};
    } else {
      RangeSize(n - 1);
      var rest := Range(n - 1);
      assert n - 1 !in rest;
      assert Range(n) == rest + {n - 1};
      assert |rest + {n - 1}| == |rest| + 1;
    }
  }

  /** A subset is no larger than its superset. */
  lemma {:induction false} SubsetSize(a: set<int>, b: set<int>)
    requires a <= b
    ensures |a| <= |b|
  {
    var rest := b - a;
    assert b == a + rest && a !! rest;
  }

  /** A set of fewer than n numbers misses some number of 0..n-1. */
  lemma {:induction false} SomeUnvisited(visited: set<int>, n: nat) returns (k: int)
    requires |visited| < n
    ensures 0 <= k < n && k !in visited
  {
    RangeSize(n);
    if Range(n) <= visited {
      SubsetSize(Range(n), visited);
      assert false;
    }
    k :| k in Range(n) && k !in visited;
  }

  /** A greedy pick against the values of a duplicate-free prefix that is
      shorter than its row of distances below MaxInt64 extends the prefix
      by a new column of the row. */
  lemma {:induction false} PickExtends(row: seq<int>, s: seq<int>, x: int)
    requires forall b :: 0 <= b < |row| ==> row[b] < MaxInt64
    requires Distinct(s) && |ValueSet(s)| == |s| < |row| && IsNearest(row, ValueSet(s), x)
    ensures 0 <= x < |row| && Distinct(s + [x]) && |ValueSet(s + [x])| == |s| + 1
  {
    var k := SomeUnvisited(ValueSet(s), |row|);
    assert Candidate(row, ValueSet(s), k);
    assert x !in ValueSet(s);
    SnocFresh(s, x);
  }

  /** With every distance below MaxInt64 a pick is unvisited as long as
      fewer nodes than the matrix has are visited: a greedy tour of
      |matrix|-1 steps visits every node exactly once before returning to 0. */
  lemma {:induction false} NearestTourVisitsAll(matrix: seq<seq<int>>, r: seq<int>, i: nat)
    requires Square(matrix) && Bounded(matrix) && 0 < |matrix| && i < |matrix|
    requires NearestTour(matrix, |matrix| - 1, r)
    ensures Distinct(r[..i + 1]) && |ValueSet(r[..i + 1])| == i + 1
    ensures forall k :: 0 <= k <= i ==> 0 <= r[k] < |matrix|
  {
    if i == 0 {
      assert r[..1] == [r[0]];
      assert ValueSet(r[..1]) == {0};
    } else {
      NearestTourVisitsAll(matrix, r, i - 1);
      assert NearestSteps(matrix, r, |matrix| - 1) && i - 1 < |matrix| - 1 && i < |r|;
      assert 0 <= r[i - 1] < |matrix| && IsNearest(matrix[r[i - 1]], ValueSet(r[..i]), r[i]);
      var row := matrix[r[i - 1]];
      assert |row| == |matrix|;
      PickExtends(row, r[..i], r[i]);
      assert r[..i + 1] == r[..i] + [r[i]];
    }
  }
}
