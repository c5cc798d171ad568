/** Addresses as sums of digits times strides, with stride zero along every dimension
    that is broadcast. */
module Strides {
  import opened Arith
  import opened Shapes
  import opened BroadcastIndex

  function Dot(d: seq<int>, s: seq<int>): (n: int)
    requires |d| == |s|
  {
    if d == [] then 0 else d[0] * s[0] + Dot(d[1..], s[1..])
  }

  lemma {:induction false} DotAppend(a: seq<int>, b: seq<int>, s: seq<int>, t: seq<int>)
    requires |a| == |s| && |b| == |t|
    ensures Dot(a + b, s + t) == Dot(a, s) + Dot(b, t)
  {
    if a == [] {
      assert a + b == b && s + t == t;
    } else {
      assert (a + b)[1..] == a[1..] + b && (s + t)[1..] == s[1..] + t;
      DotAppend(a[1..], b, s[1..], t);
    }
  }

  lemma DotSnoc(d: seq<int>, s: seq<int>, k: nat)
    requires |d| == |s| && k < |d|
    ensures Dot(d[..k + 1], s[..k + 1]) == Dot(d[..k], s[..k]) + d[k] * s[k]
  {
    DotAppend(d[..k], [d[k]], s[..k], [s[k]]);
    assert d[..k + 1] == d[..k] + [d[k]] && s[..k + 1] == s[..k] + [s[k]];
  }

  /** No dimension of x is empty or larger than that of o. */
  predicate Within(x: Shape, o: Shape) {
    |x| == |o| && forall i :: 0 <= i < |x| ==> 1 <= x[i] <= o[i]
  }

  /** The strides of a tensor of shape x read as a tensor of shape o. */
  function BroadcastStrides(x: Shape, o: Shape): (s: seq<int>)
    requires |x| == |o|
    ensures |s| == |x|
  {
    if x == [] then [] else
      [if x[0] == 1 && o[0] != 1 then 0 else Numel(x[1..])] + BroadcastStrides(x[1..], o[1..])
  }

  lemma {:induction false} BroadcastStridesFrom(x: Shape, o: Shape, i: nat)
    requires |x| == |o| && i <= |x|
    ensures BroadcastStrides(x, o)[i..] == BroadcastStrides(x[i..], o[i..])
  {
    if i > 0 {
      BroadcastStridesFrom(x[1..], o[1..], i - 1);
      assert x[1..][i - 1..] == x[i..] && o[1..][i - 1..] == o[i..];
      assert BroadcastStrides(x, o)[1..][i - 1..] == BroadcastStrides(x, o)[i..];
    }
  }

  /** The strided address of output element n is the broadcast index. */
  lemma {:induction false} DotIsFlat(x: Shape, o: Shape, n: int)
    requires |x| == |o| && Positive(o) && n >= 0
    ensures Dot(Unravel(o, n), BroadcastStrides(x, o)) == FlatIndex(x, o, n)
  {
    if x != [] {
      DotIsFlat(x[1..], o[1..], n);
      UnravelCons(o, n);
      assert Unravel(o, n)[1..] == Unravel(o[1..], n);
      assert BroadcastStrides(x, o)[1..] == BroadcastStrides(x[1..], o[1..]);
    }
  }

  /** A shape read as itself: the address of the digits is the flat index. */
  lemma {:induction false} DotIsRavel(o: Shape, d: seq<int>)
    requires |d| == |o|
    ensures Dot(d, BroadcastStrides(o, o)) == Ravel(o, d)
  {
    if o != [] {
      DotIsRavel(o[1..], d[1..]);
      assert BroadcastStrides(o, o)[1..] == BroadcastStrides(o[1..], o[1..]);
    }
  }

  // ----- the broadcast index from the fastest dimension -----

  /** The index after a fastest dimension of size a, read along w output elements, joins
      dimensions that address element k. */
  function Joined(k: int, a: int, w: int, n: int): (i: int)
    requires w > 0
  {
    k * a + if a == 1 then 0 else n % w
  }

  /** The broadcast index with one more fastest dimension. */
  lemma {:induction false} FlatSnoc(x: Shape, o: Shape, a: int, w: int, n: int)
    requires |x| == |o| && Positive(o) && w > 0 && n >= 0
    ensures Positive(o + [w]) && n / w >= 0
    ensures FlatIndex(x + [a], o + [w], n) == Joined(FlatIndex(x, o, n / w), a, w, n)
  {
    hide FlatIndex, Joined;
    if x == [] {
      FlatOne(a, w, n);
      assert x + [a] == [a] && o + [w] == [w];
    } else {
      assert (x + [a])[1..] == x[1..] + [a] && (o + [w])[1..] == o[1..] + [w];
      FlatSnoc(x[1..], o[1..], a, w, n);
      FlatSnocStep(x, o, a, w, n);
    }
  }

  lemma FlatOne(a: int, w: int, n: int)
    requires w > 0 && n >= 0
    ensures Positive([w]) && n / w >= 0 && FlatIndex([a], [w], n) == Joined(FlatIndex([], [], n / w), a, w, n)
  {
    assert Numel([a][1..]) == 1 && Numel([w][1..]) == 1;
  }

  lemma FlatSnocStep(x: Shape, o: Shape, a: int, w: int, n: int)
    requires |x| == |o| > 0 && Positive(o) && w > 0 && n >= 0 && n / w >= 0
    requires FlatIndex(x[1..] + [a], o[1..] + [w], n) == Joined(FlatIndex(x[1..], o[1..], n / w), a, w, n)
    ensures Positive(o + [w]) && FlatIndex(x + [a], o + [w], n) == Joined(FlatIndex(x, o, n / w), a, w, n)
  {
    hide Numel, FlatIndex, Joined;
    var x', o' := x[1..], o[1..];
    assert (x + [a])[1..] == x' + [a] && (o + [w])[1..] == o' + [w];
    assert (x + [a])[0] == x[0] && (o + [w])[0] == o[0];
    NumelSnoc(x', a);
    NumelSnoc(o', w);
    NumelPositive(o');
    NestedQuotient(n, w, Numel(o'));
    FlatStep(x, o, n / w);
    FlatStep(x + [a], o + [w], n);
    JoinedSum(if x[0] == 1 then 0 else (n / w / Numel(o')) % o[0], Numel(x'), FlatIndex(x', o', n / w), a, w, n);
  }

  lemma JoinedSum(d: int, m: int, f: int, a: int, w: int, n: int)
    requires w > 0
    ensures Joined(d * m + f, a, w, n) == d * (m * a) + Joined(f, a, w, n)
  {
    assert (d * m + f) * a == d * m * a + f * a;
    MulAssociates(d, m, a);
  }
}
