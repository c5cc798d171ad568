/** Tensor shapes, row-major indexing and the broadcast relation between shapes. */
module Shapes {
  import opened Arith

  type Shape = seq<int>

  function Numel(s: Shape): (n: int) {
    if s == [] then 1 else s[0] * Numel(s[1..])
  }

  predicate Positive(s: Shape) {
    forall i :: 0 <= i < |s| ==> s[i] > 0
  }

  predicate NonNegative(s: Shape) {
    forall i :: 0 <= i < |s| ==> s[i] >= 0
  }

  function Reverse<T>(s: seq<T>): (r: seq<T>)
    ensures |r| == |s|
    ensures forall i :: 0 <= i < |s| ==> r[i] == s[|s| - 1 - i]
  {
    seq(|s|, i requires 0 <= i < |s| => s[|s| - 1 - i])
  }

  function Ones(n: nat): (s: Shape)
    ensures |s| == n && forall i :: 0 <= i < n ==> s[i] == 1
  {
    seq(n, _ => 1)
  }

  function Max(a: int, b: int): (m: int) {
    if a > b then a else b
  }

  // ----- row-major indexing -----

  /** The digits of flat index n in the row-major mixed radix of s. */
  function Unravel(s: Shape, n: int): (d: seq<int>)
    requires Positive(s)
    ensures |d| == |s|
  {
    if s == [] then [] else
      NumelPositive(s[1..]);
      [(n / Numel(s[1..])) % s[0]] + Unravel(s[1..], n)
  }

  /** The flat index of the digits d in a tensor of shape s. */
  function Ravel(s: Shape, d: seq<int>): (n: int)
    requires |d| == |s|
  {
    if s == [] then 0 else d[0] * Numel(s[1..]) + Ravel(s[1..], d[1..])
  }

  // ----- broadcasting, right-aligned -----

  /** Dimension i of s once s is extended on the left with ones to rank r. */
  function Dim(s: Shape, r: nat, i: int): (d: int)
    requires |s| <= r && 0 <= i < r
  {
    if i < r - |s| then 1 else s[i - (r - |s|)]
  }

  function Rank(x: Shape, y: Shape): (r: nat)
    ensures r >= |x| && r >= |y| && (r == |x| || r == |y|)
  {
    if |x| > |y| then |x| else |y|
  }

  predicate DimsCompatible(a: int, b: int) {
    a == b || a == 1 || b == 1
  }

  predicate Compatible(x: Shape, y: Shape) {
    forall i :: 0 <= i < Rank(x, y) ==> DimsCompatible(Dim(x, Rank(x, y), i), Dim(y, Rank(x, y), i))
  }

  function OutDim(a: int, b: int): (o: int) {
    if a == 1 then b else a
  }

  function OutShape(x: Shape, y: Shape): (o: Shape)
    ensures |o| == Rank(x, y)
  {
    seq(Rank(x, y), i requires 0 <= i < Rank(x, y) =>
      OutDim(Dim(x, Rank(x, y), i), Dim(y, Rank(x, y), i)))
  }

  /** Digits of the output element seen by an input dimension: a dimension of
      size one always reads position zero. */
  function Clamp(s: Shape, d: seq<int>): (c: seq<int>)
    requires |d| == |s|
    ensures |c| == |s|
  {
    seq(|s|, i requires 0 <= i < |s| => if s[i] == 1 then 0 else d[i])
  }

  /** The element of an input of shape x that broadcasting pairs with element n
      of an output of shape o. */
  function NaiveIndex(x: Shape, o: Shape, n: int): (k: int)
    requires Positive(o) && |x| <= |o|
  {
    Ravel(x, Clamp(x, Unravel(o, n)[|o| - |x|..]))
  }

  // ----- facts -----

  lemma {:induction false} NumelPositive(s: Shape)
    requires Positive(s)
    ensures Numel(s) > 0
  {
    if s != [] {
      NumelPositive(s[1..]);
      MulPositive(s[0], Numel(s[1..]));
    }
  }

  /** A shape of non-negative dimensions with an element has no empty dimension. */
  lemma {:induction false} NonEmptyIsPositive(s: Shape)
    requires NonNegative(s) && Numel(s) > 0
    ensures Positive(s)
  {
    if s != [] {
      if Numel(s[1..]) <= 0 {
        MulMonotone(Numel(s[1..]), 0, s[0]);
      }
      NonEmptyIsPositive(s[1..]);
      assert s[0] != 0;
      assert s == [s[0]] + s[1..];
    }
  }

  lemma {:induction false} NumelAppend(a: Shape, b: Shape)
    ensures Numel(a + b) == Numel(a) * Numel(b)
  {
    if a == [] {
      assert a + b == b;
    } else {
      assert (a + b)[1..] == a[1..] + b;
      NumelAppend(a[1..], b);
      assert a[0] * (Numel(a[1..]) * Numel(b)) == a[0] * Numel(a[1..]) * Numel(b);
    }
  }

  lemma {:induction false} NumelReverse(s: Shape)
    ensures Numel(Reverse(s)) == Numel(s)
  {
    if s != [] {
      assert Reverse(s) == Reverse(s[1..]) + [s[0]];
      NumelAppend(Reverse(s[1..]), [s[0]]);
      NumelReverse(s[1..]);
      assert Numel([s[0]]) == s[0];
    } else {
      assert Reverse(s) == s;
    }
  }

  /** Row-major digits determine the flat index, and are in range. */
  lemma {:induction false} RavelUnravel(s: Shape, n: int)
    requires Positive(s) && 0 <= n
    ensures Numel(s) > 0
    ensures Ravel(s, Unravel(s, n)) == n % Numel(s)
    ensures forall i :: 0 <= i < |s| ==> 0 <= Unravel(s, n)[i] < s[i]
  {
    NumelPositive(s);
    if s != [] {
      RavelUnravel(s[1..], n);
      UnravelCons(s, n);
      assert forall i :: 0 < i < |s| ==> Unravel(s, n)[i] == Unravel(s[1..], n)[i - 1];
    }
  }

  /** The leading digit and what it adds to the flat index. */
  lemma UnravelCons(s: Shape, n: int)
    requires s != [] && Positive(s) && 0 <= n
    ensures Numel(s) > 0 && Numel(s[1..]) > 0
    ensures var d := (n / Numel(s[1..])) % s[0];
      && 0 <= d < s[0] && Unravel(s, n) == [d] + Unravel(s[1..], n)
      && n % Numel(s) == d * Numel(s[1..]) + n % Numel(s[1..])
  {
    NumelPositive(s);
    NumelPositive(s[1..]);
    DigitSplit(n, Numel(s[1..]), s[0]);
  }

  /** Digits in range give an index inside the tensor. */
  lemma {:induction false} RavelInRange(s: Shape, d: seq<int>)
    requires Positive(s) && |d| == |s|
    requires forall i :: 0 <= i < |s| ==> 0 <= d[i] < s[i]
    ensures 0 <= Ravel(s, d) < Numel(s)
  {
    if s != [] {
      RavelInRange(s[1..], d[1..]);
      var m := Numel(s[1..]);
      MulMonotone(d[0], s[0] - 1, m);
      MulMonotone(0, d[0], m);
      assert (s[0] - 1) * m == s[0] * m - m;
    }
  }

  /** The digits repeat with the period of the shape. */
  lemma {:induction false} UnravelPeriodic(s: Shape, n: int, j: int)
    requires Positive(s) && n >= 0 && j >= 0
    ensures Unravel(s, j * Numel(s) + n) == Unravel(s, n)
  {
    if s != [] {
      NumelPositive(s[1..]);
      DigitPeriodic(n, j, s[0], Numel(s[1..]));
      UnravelPeriodic(s[1..], n, j * s[0]);
    }
  }

  /** The digits of a flat index are the ones it was made of. */
  lemma {:induction false} UnravelRavel(s: Shape, d: seq<int>)
    requires Positive(s) && |d| == |s|
    requires forall i :: 0 <= i < |s| ==> 0 <= d[i] < s[i]
    ensures Unravel(s, Ravel(s, d)) == d
  {
    if s != [] {
      var m, r := Numel(s[1..]), Ravel(s[1..], d[1..]);
      UnravelRavel(s[1..], d[1..]);
      RavelInRange(s[1..], d[1..]);
      DivModUnique(d[0] * m + r, d[0], m, r);
      DivModUnique(d[0], 0, s[0], d[0]);
      UnravelPeriodic(s[1..], r, d[0]);
    }
  }

  /** What NaiveIndex means: the digits of the element are the output digits aligned to
      the right, with zero for every dimension of size one, and no other element of
      the input has these digits. */
  lemma NaiveIndexMeaning(x: Shape, o: Shape, n: int)
    requires Positive(x) && Positive(o) && |x| <= |o| && n >= 0
    requires forall i :: 0 <= i < |x| ==> x[i] == 1 || x[i] == o[|o| - |x| + i]
    ensures 0 <= NaiveIndex(x, o, n) < Numel(x)
    ensures Unravel(x, NaiveIndex(x, o, n)) == Clamp(x, Unravel(o, n)[|o| - |x|..])
    ensures forall k :: 0 <= k < Numel(x) && Unravel(x, k) == Clamp(x, Unravel(o, n)[|o| - |x|..]) ==>
      k == NaiveIndex(x, o, n)
  {
    RavelUnravel(o, n);
    var c := Clamp(x, Unravel(o, n)[|o| - |x|..]);
    RavelInRange(x, c);
    UnravelRavel(x, c);
    forall k | 0 <= k < Numel(x) && Unravel(x, k) == c ensures k == NaiveIndex(x, o, n) {
      RavelUnravel(x, k);
      DivModUnique(k, 0, Numel(x), k);
    }
  }
}
