// Helpers of the utils package: element-wise maps, slice equality, a random
// draw in a half-open range and a linear search.
module Utils {

  function Max(a: int, b: int): (m: int)
    ensures m >= a && m >= b && (m == a || m == b)
  {
    if a >= b then a else b
  }

  /** Products of non-negative numbers. */
  lemma {:induction false} MulNonNegative(a: int, b: int)
    requires a >= 0 && b >= 0
    ensures a * b >= 0
    ensures a > 0 && b > 0 ==> a * b > 0
    ensures a * b == 0 <==> a == 0 || b == 0
  {
  }

  /** A Go map lookup: a missing key reads the zero value. */
  function Get(m: map<int, int>, key: int): (v: int)
    ensures key !in m ==> v == 0
    ensures key in m ==> v == m[key]
  {
    if key in m then m[key] else 0
  }

  /** Position of the first occurrence of x in s, or -1 when x does not occur. */
  function FirstIndex(s: seq<int>, x: int): (k: int)
    ensures -1 <= k < |s|
    ensures k == -1 <==> x !in s
    ensures 0 <= k ==> s[k] == x && x !in s[..k]
  {
    if |s| == 0 then -1
    else if s[0] == x then 0
    else
      var k := FirstIndex(s[1..], x);
      assert s == [s[0]] + s[1..];
      assert 0 <= k ==> s[..k + 1] == [s[0]] + s[1..][..k];
      if k == -1 then -1 else k + 1
  }

  /** IndexOf: the linear scan that returns at the first match. */
  method IndexOf(element: int, data: seq<int>) returns (k: int)
    ensures k == FirstIndex(data, element)
    ensures k == -1 || (0 <= k < |data| && data[k] == element)
  {
    var i := 0;
    while i < |data|
      invariant 0 <= i <= |data|
      invariant element !in data[..i]
    {
      if data[i] == element {
        FirstIndexAt(data, element, i);
        return i;
      }
      assert data[..i + 1] == data[..i] + [data[i]];
      i := i + 1;
    }
    assert data[..i] == data;
    k := -1;
  }

  /** A position holding x with no earlier occurrence is the first index. */
  lemma {:induction false} FirstIndexAt(s: seq<int>, x: int, i: int)
    requires 0 <= i < |s| && s[i] == x && x !in s[..i]
    ensures FirstIndex(s, x) == i
  {
    var k := FirstIndex(s, x);
    assert forall j :: 0 <= j < i ==> s[..i][j] == s[j];
    assert forall j :: 0 <= j < k ==> s[..k][j] == s[j];
  }

  /** Equal: same length and the same element at every index. */
  method Equal(a: seq<int>, b: seq<int>) returns (eq: bool)
    ensures eq <==> |a| == |b| && forall i :: 0 <= i < |a| ==> a[i] == b[i]
    ensures eq <==> a == b
  {
    if |a| != |b| {
      return false;
    }
    var i := 0;
    while i < |a|
      invariant 0 <= i <= |a|
      invariant forall k :: 0 <= k < i ==> a[k] == b[k]
    {
      if a[i] != b[i] {
        return false;
      }
      i := i + 1;
    }
    return true;
  }

  /** Map: a fresh slice of the same length holding f of each element. */
  method Map(vs: seq<string>, f: string -> int) returns (vsm: seq<int>)
    ensures |vsm| == |vs|
    ensures forall i :: 0 <= i < |vs| ==> vsm[i] == f(vs[i])
  {
    var a := new int[|vs|];
    var i := 0;
    while i < |vs|
      invariant 0 <= i <= |vs|
      invariant forall k :: 0 <= k < i ==> a[k] == f(vs[k])
    {
      a[i] := f(vs[i]);
      i := i + 1;
    }
    vsm := a[..];
  }

  /** MapIntToStr: the same element-wise map from ints to strings. */
  method MapIntToStr(vs: seq<int>, f: int -> string) returns (vsm: seq<string>)
    ensures |vsm| == |vs|
    ensures forall i :: 0 <= i < |vs| ==> vsm[i] == f(vs[i])
  {
    var a := new string[|vs|];
    var i := 0;
    while i < |vs|
      invariant 0 <= i <= |vs|
      invariant forall k :: 0 <= k < i ==> a[k] == f(vs[k])
    {
      a[i] := f(vs[i]);
      i := i + 1;
    }
    vsm := a[..];
  }

  /** Random(min, max): any value of [min, max); the draw itself is not modelled. */
  method Random(min: int, max: int) returns (r: int)
    requires max > min
    ensures min <= r < max
  {
    var d :| 0 <= d < max - min;
    r := d + min;
  }
}
