/** The broadcast index engine: stride-based lookup on collapsed shapes, and the
    table builder that needs no strides. */
module Bcast {
  import opened Arith
  import opened Shapes
  import opened BroadcastIndex
  import opened BcastTables

  // ----- what the constructor computes -----

  /** The collapsed dimensions of two shapes, most significant first. */
  function GroupsOf(x: Shape, y: Shape): (gs: seq<Group>)
    ensures gs != []
  {
    if x == y then [Group(Same, Numel(x))] else
      var r := Rank(x, y);
      var c := Collapse(Reverse(Pad(x, r)), Reverse(Pad(y, r)));
      if c == [] then [Group(Same, 1)] else Reverse(c)
  }

  lemma ReverseReverse<T>(s: seq<T>)
    ensures Reverse(Reverse(s)) == s
  {}

  lemma ReverseViews(gs: seq<Group>)
    ensures XDims(Reverse(gs)) == Reverse(XDims(gs)) && YDims(Reverse(gs)) == Reverse(YDims(gs))
    ensures Results(Reverse(gs)) == Reverse(Results(gs))
    ensures XTimes(Reverse(gs)) == Reverse(XTimes(gs)) && YTimes(Reverse(gs)) == Reverse(YTimes(gs))
  {}

  lemma PaddedCompatible(x: Shape, y: Shape)
    ensures Compatible(x, y) <==> AllCompatible(Reverse(Pad(x, Rank(x, y))), Reverse(Pad(y, Rank(x, y))))
    ensures Reverse(OutDims(Reverse(Pad(x, Rank(x, y))), Reverse(Pad(y, Rank(x, y))))) == OutShape(x, y)
  {
    var r := Rank(x, y);
    var px, py := Reverse(Pad(x, r)), Reverse(Pad(y, r));
    forall i | 0 <= i < r
      ensures px[i] == Dim(x, r, r - 1 - i) && py[i] == Dim(y, r, r - 1 - i)
    {}
    if Compatible(x, y) {
      forall i | 0 <= i < r ensures DimsCompatible(px[i], py[i]) {
        assert DimsCompatible(Dim(x, r, r - 1 - i), Dim(y, r, r - 1 - i));
      }
    }
    if AllCompatible(px, py) {
      forall i | 0 <= i < r ensures DimsCompatible(Dim(x, r, i), Dim(y, r, i)) {
        assert DimsCompatible(px[r - 1 - i], py[r - 1 - i]);
      }
    }
  }

  /** What the constructor computes from the padded, reversed shapes. */
  lemma PaddedGroups(x: Shape, y: Shape)
    requires x != y
    ensures |Pad(x, Rank(x, y))| == |Pad(y, Rank(x, y))|
    ensures var rx, ry := Reverse(Pad(x, Rank(x, y))), Reverse(Pad(y, Rank(x, y)));
      && (Compatible(x, y) <==> AllCompatible(rx, ry))
      && OutDims(rx, ry) == Reverse(OutShape(x, y))
      && GroupsOf(x, y) == if Collapse(rx, ry) == [] then [Group(Same, 1)] else Reverse(Collapse(rx, ry))
  {
    var rx, ry := Reverse(Pad(x, Rank(x, y))), Reverse(Pad(y, Rank(x, y)));
    PaddedCompatible(x, y);
    ReverseReverse(OutDims(rx, ry));
  }

  lemma EqualShapes(x: Shape)
    ensures Compatible(x, x) && OutShape(x, x) == x
  {}

  lemma OutShapeSymmetric(x: Shape, y: Shape)
    requires Compatible(x, y)
    ensures Compatible(y, x) && OutShape(y, x) == OutShape(x, y)
  {
    var r := Rank(x, y);
    forall i | 0 <= i < r
      ensures DimsCompatible(Dim(y, r, i), Dim(x, r, i)) && OutShape(y, x)[i] == OutShape(x, y)[i]
    {
      assert DimsCompatible(Dim(x, r, i), Dim(y, r, i));
    }
  }

  /** An output with an element comes only from inputs without empty dimensions. */
  lemma ElementsNeedPositive(x: Shape, y: Shape)
    requires Compatible(x, y) && NonNegative(x) && NonNegative(y) && Numel(OutShape(x, y)) > 0
    ensures Positive(OutShape(x, y)) && Positive(x) && Positive(y)
  {
    var r, o := Rank(x, y), OutShape(x, y);
    NonEmptyIsPositive(o);
    forall i | 0 <= i < |x| ensures x[i] > 0 {
      var k := i + (r - |x|);
      assert x[i] == Dim(x, r, k) && o[k] > 0 && DimsCompatible(Dim(x, r, k), Dim(y, r, k));
    }
    forall i | 0 <= i < |y| ensures y[i] > 0 {
      var k := i + (r - |y|);
      assert y[i] == Dim(y, r, k) && o[k] > 0 && DimsCompatible(Dim(x, r, k), Dim(y, r, k));
    }
  }

  /** Flipping the inputs flips the groups. */
  lemma GroupsFlip(x: Shape, y: Shape)
    requires Compatible(x, y)
    ensures XDims(GroupsOf(y, x)) == YDims(GroupsOf(x, y))
    ensures Results(GroupsOf(y, x)) == Results(GroupsOf(x, y))
  {
    if x != y {
      var r := Rank(x, y);
      PaddedCompatible(x, y);
      var px, py := Reverse(Pad(x, r)), Reverse(Pad(y, r));
      CollapseFlip(px, py);
      FlipViews(Collapse(px, py));
      ReverseViews(Collapse(px, py));
      ReverseViews(Collapse(py, px));
    }
  }

  /** The collapse keeps every element count, each group broadcasts each input to
      the group's result, and neighbouring groups differ in kind. */
  lemma GroupsConserve(x: Shape, y: Shape)
    requires Compatible(x, y)
    ensures Numel(XDims(GroupsOf(x, y))) == Numel(x)
    ensures Numel(YDims(GroupsOf(x, y))) == Numel(y)
    ensures Numel(Results(GroupsOf(x, y))) == Numel(OutShape(x, y))
    ensures Maximal(GroupsOf(x, y))
    ensures forall i :: 0 <= i < |GroupsOf(x, y)| ==>
      var g := GroupsOf(x, y)[i]; g.XDim() * g.XTimes() == g.size == g.YDim() * g.YTimes()
  {
    hide Numel, GroupsOf, Compatible, OutShape, Maximal;
    GroupsNumel(x, y);
    OutShapeSymmetric(x, y);
    GroupsNumel(y, x);
    GroupsFlip(x, y);
    GroupsMaximal(x, y);
  }

  lemma GroupsMaximal(x: Shape, y: Shape)
    ensures Maximal(GroupsOf(x, y))
  {
    hide Numel, Collapse;
    if x != y {
      var px, py := Reverse(Pad(x, Rank(x, y))), Reverse(Pad(y, Rank(x, y)));
      CollapseMaximal(px, py);
      MaximalReverse(Collapse(px, py));
    }
  }

  lemma MaximalReverse(gs: seq<Group>)
    requires Maximal(gs)
    ensures Maximal(Reverse(gs))
  {}

  lemma GroupsNumel(x: Shape, y: Shape)
    requires Compatible(x, y)
    ensures Numel(XDims(GroupsOf(x, y))) == Numel(x)
    ensures Numel(Results(GroupsOf(x, y))) == Numel(OutShape(x, y))
  {
    if x == y {
      EqualShapes(x);
      SingleGroup(Group(Same, Numel(x)));
    } else {
      var r := Rank(x, y);
      var px, py := Reverse(Pad(x, r)), Reverse(Pad(y, r));
      var c := Collapse(px, py);
      PaddedCompatible(x, y);
      CollapseNumelReversed(px, py);
      ReverseReverse(Pad(x, r));
      NumelPad(x, r);
      ReverseViews(c);
      SingleGroup(Group(Same, 1));
      if c == [] {
        assert Reverse(XDims(c)) == [] && Reverse(Results(c)) == [];
      }
    }
  }

  lemma SingleGroup(g: Group)
    ensures Numel(XDims([g])) == g.XDim() && Numel(Results([g])) == g.size
    ensures XDims([g]) == [g.XDim()] && Results([g]) == [g.size]
  {}

  /** On the collapsed shapes, output element n reads the x element that naive
      right-aligned broadcasting reads, and that element exists. */
  lemma GroupsXIndex(x: Shape, y: Shape, n: int)
    requires Compatible(x, y) && NonNegative(x) && NonNegative(y) && 0 <= n < Numel(OutShape(x, y))
    ensures Positive(OutShape(x, y)) && Positive(Results(GroupsOf(x, y)))
    ensures FlatIndex(XDims(GroupsOf(x, y)), Results(GroupsOf(x, y)), n) == NaiveIndex(x, OutShape(x, y), n)
    ensures 0 <= NaiveIndex(x, OutShape(x, y), n) < Numel(x)
  {
    hide Numel, FlatIndex, NaiveIndex, GroupsOf, OutShape, Compatible;
    ElementsNeedPositive(x, y);
    NaiveInRange(x, y, n);
    if x == y {
      SameShapeIndex(x, n);
    } else {
      PaddedIndex(x, y, n);
    }
  }

  /** Equal shapes: the flat index is the index. */
  lemma SameShapeIndex(x: Shape, n: int)
    requires Positive(x) && 0 <= n < Numel(OutShape(x, x))
    ensures Positive(OutShape(x, x)) && Positive(Results(GroupsOf(x, x)))
    ensures FlatIndex(XDims(GroupsOf(x, x)), Results(GroupsOf(x, x)), n) == NaiveIndex(x, OutShape(x, x), n)
  {
    hide FlatIndex, NaiveIndex;
    EqualShapes(x);
    var g := Group(Same, Numel(x));
    SingleGroup(g);
    assert GroupsOf(x, x) == [g];
    NaiveIsFlat(x, x, n);
    assert Pad(x, |x|) == x;
    FlatIdentity(x, n);
    SingleIdentity(g.size, n);
  }

  lemma SingleIdentity(w: int, n: int)
    requires 0 <= n < w
    ensures FlatIndex([w], [w], n) == n && n % w == n
  {}

  /** Different shapes: collapsing does not change the index. */
  lemma PaddedIndex(x: Shape, y: Shape, n: int)
    requires x != y && Compatible(x, y) && Positive(x) && Positive(y) && Positive(OutShape(x, y)) && n >= 0
    ensures Positive(Results(GroupsOf(x, y)))
    ensures FlatIndex(XDims(GroupsOf(x, y)), Results(GroupsOf(x, y)), n) == NaiveIndex(x, OutShape(x, y), n)
  {
    hide Numel, FlatIndex, NaiveIndex, Collapse, GroupsOf, Pad, Compatible, AllCompatible, OutShape, OutDims, Dim, Rank;
    var r, o := Rank(x, y), OutShape(x, y);
    var px, py := Reverse(Pad(x, r)), Reverse(Pad(y, r));
    OutRank(x, y);
    NaiveIsFlat(x, o, n);
    PadPositive(x, r);
    PadPositive(y, r);
    PaddedGroups(x, y);
    CollapseIndex(px, py, n);
    ReverseReverse(Pad(x, r));
    ReverseReverse(o);
    var c := Collapse(px, py);
    ReverseViews(c);
    if c == [] {
      UnitIndex(c, n);
    }
  }

  lemma OutRank(x: Shape, y: Shape)
    ensures |OutShape(x, y)| == Rank(x, y) && |x| <= Rank(x, y) && |y| <= Rank(x, y)
  {}

  lemma PadPositive(s: Shape, r: nat)
    requires |s| <= r && Positive(s)
    ensures |Pad(s, r)| == r && Positive(Reverse(Pad(s, r)))
  {}

  lemma UnitIndex(c: seq<Group>, n: int)
    requires c == []
    ensures GroupIndex(c, n) == 0
    ensures Positive(Results([Group(Same, 1)])) && FlatIndex(XDims([Group(Same, 1)]), Results([Group(Same, 1)]), n) == 0
  {}

  lemma NaiveInRange(x: Shape, y: Shape, n: int)
    requires Compatible(x, y) && Positive(x) && Positive(y) && n >= 0
    ensures Positive(OutShape(x, y))
    ensures 0 <= NaiveIndex(x, OutShape(x, y), n) < Numel(x)
  {
    var r, o := Rank(x, y), OutShape(x, y);
    forall i | 0 <= i < |x| ensures x[i] == 1 || x[i] == o[r - |x| + i] {
      var k := r - |x| + i;
      assert DimsCompatible(Dim(x, r, k), Dim(y, r, k)) && Dim(x, r, k) == x[i];
    }
    NaiveIndexMeaning(x, o, n);
  }

  lemma GroupsYIndex(x: Shape, y: Shape, n: int)
    requires Compatible(x, y) && NonNegative(x) && NonNegative(y) && 0 <= n < Numel(OutShape(x, y))
    ensures Positive(OutShape(x, y)) && Positive(Results(GroupsOf(x, y)))
    ensures FlatIndex(YDims(GroupsOf(x, y)), Results(GroupsOf(x, y)), n) == NaiveIndex(y, OutShape(x, y), n)
    ensures 0 <= NaiveIndex(y, OutShape(x, y), n) < Numel(y)
  {
    OutShapeSymmetric(x, y);
    GroupsFlip(x, y);
    GroupsXIndex(y, x, n);
  }

  // ----- strides -----

  predicate RowMajor(strides: seq<int>, dims: Shape) {
    |strides| == |dims| && forall i :: 0 <= i < |dims| ==> strides[i] == Numel(dims[i + 1..])
  }

  /** Strides from the last dimension upwards. */
  method StridesOf(dims: Shape) returns (strides: seq<int>)
    requires |dims| > 0
    ensures RowMajor(strides, dims)
  {
    strides := Ones(|dims|);
    assert dims[|dims|..] == [];
    var i := |dims| - 1;
    while i > 0
      invariant 0 <= i < |dims| == |strides|
      invariant forall k :: i <= k < |dims| ==> strides[k] == Numel(dims[k + 1..])
    {
      assert dims[i..][1..] == dims[i + 1..];
      i := i - 1;
      strides := strides[i := strides[i + 1] * dims[i + 1]];
    }
  }

  /** The index of a repeated dimension: the output digit modulo the input size. */
  function TileIndex(x: Shape, o: Shape, n: int): (k: int)
    requires |x| == |o| && Positive(x) && Positive(o)
  {
    if x == [] then 0 else
      NumelPositive(o[1..]);
      ((n / Numel(o[1..])) % o[0]) % x[0] * Numel(x[1..]) + TileIndex(x[1..], o[1..], n)
  }

  /** Repeating a dimension of size one, or not at all, is broadcasting. */
  lemma {:induction false} TileIsFlat(x: Shape, o: Shape, n: int)
    requires |x| == |o| && Positive(x) && Positive(o)
    requires forall i :: 0 <= i < |x| ==> x[i] == 1 || x[i] == o[i]
    ensures TileIndex(x, o, n) == FlatIndex(x, o, n)
  {
    if x != [] {
      TileIsFlat(x[1..], o[1..], n);
      NumelPositive(o[1..]);
      var d := (n / Numel(o[1..])) % o[0];
      DivModUnique(d, 0, o[0], d);
    }
  }

  lemma {:induction false} TilePeriodic(x: Shape, o: Shape, n: int, j: int)
    requires |x| == |o| && Positive(x) && Positive(o) && n >= 0 && j >= 0
    ensures TileIndex(x, o, j * Numel(o) + n) == TileIndex(x, o, n)
  {
    if x != [] {
      NumelPositive(o[1..]);
      DigitPeriodic(n, j, o[0], Numel(o[1..]));
      TilePeriodic(x[1..], o[1..], n, j * o[0]);
    }
  }

  /** The lookup loop shared by the x and the y side. */
  method StridedIndex(result: Shape, reshape: Shape, bcast: Shape, inStrides: seq<int>, outStrides: seq<int>, n: int)
      returns (k: int)
    requires |result| == |reshape| == |bcast| > 0 && Positive(result) && Positive(reshape)
    requires forall i :: 0 <= i < |result| ==> reshape[i] * bcast[i] == result[i]
    requires |result| > 1 ==> RowMajor(inStrides, reshape) && RowMajor(outStrides, result)
    requires 0 <= n < Numel(result)
    ensures k == TileIndex(reshape, result, n)
  {
    k := 0;
    var index := n;
    var last := |result| - 1;
    assert reshape[0..] == reshape && result[0..] == result;
    for i := 0 to last
      invariant 0 <= index < Numel(result[i..])
      invariant k + TileIndex(reshape[i..], result[i..], index) == TileIndex(reshape, result, n)
    {
      StrideStep(reshape[i..], result[i..], bcast[i], index);
      assert reshape[i..][1..] == reshape[i + 1..] && result[i..][1..] == result[i + 1..];
      var idx := index / outStrides[i];
      if bcast[i] == 1 {
        k := k + idx * inStrides[i];
      } else {
        if reshape[i] != 1 {
          k := k + (idx % reshape[i]) * inStrides[i];
        }
      }
      index := index - idx * outStrides[i];
    }
    assert reshape[last..] == [reshape[last]] && result[last..] == [result[last]];
    LastDim(reshape[last], result[last], bcast[last], index);
    if bcast[last] == 1 {
      k := k + index;
    } else {
      if reshape[last] != 1 {
        k := k + index % reshape[last];
      }
    }
  }

  /** Peeling the leading digit off an in-range index. */
  lemma StrideStep(x: Shape, o: Shape, t: int, n: int)
    requires |x| == |o| > 0 && Positive(x) && Positive(o) && 0 <= n < Numel(o)
    requires x[0] * t == o[0]
    ensures Numel(o[1..]) > 0
    ensures var s := Numel(o[1..]);
      && 0 <= n - n / s * s < s
      && TileIndex(x, o, n)
         == (if t == 1 then n / s else if x[0] == 1 then 0 else (n / s) % x[0]) * Numel(x[1..])
            + TileIndex(x[1..], o[1..], n - n / s * s)
  {
    var s := Numel(o[1..]);
    NumelPositive(o[1..]);
    QuotientBound(n, s, o[0]);
    var q := n / s;
    DivModUnique(q, 0, o[0], q);
    assert n - q * s == n % s;
    TilePeriodic(x[1..], o[1..], n - q * s, q);
  }

  lemma LastDim(x: int, o: int, t: int, n: int)
    requires o > 0 && x > 0 && 0 <= n < Numel([o]) && x * t == o
    ensures TileIndex([x], [o], n) == if t == 1 then n else if x == 1 then 0 else n % x
  {
    assert Numel([o]) == o && [x][1..] == [] && [o][1..] == [];
    DivModUnique(n, 0, o, n);
  }

  // ----- the class -----

  function AppendedOrScaled(s: seq<int>, scale: bool, d: int): (r: seq<int>)
    requires scale ==> s != []
    ensures |r| == if scale then |s| else |s| + 1
  {
    if scale then s[|s| - 1 := s[|s| - 1] * d] else s + [d]
  }

  lemma StartCollapse(x: Shape, y: Shape)
    requires |x| == |y|
    ensures Collapse(x[..0], y[..0]) == [] && OutDims(x[..0], y[..0]) == [] && AllCompatible(x[..0], y[..0])
  {}

  /** One step of the collapse as updates of the five group vectors. */
  lemma ExtendViews(gs: seq<Group>, a: int, b: int)
    requires DimsCompatible(a, b) && !(a == b && a == 1)
    ensures Extend(gs, a, b) != [] && Extend(gs, a, b)[|Extend(gs, a, b)| - 1].kind == KindOf(a, b)
    ensures var scale := gs != [] && gs[|gs| - 1].kind == KindOf(a, b);
      && Results(Extend(gs, a, b)) == AppendedOrScaled(Results(gs), scale, OutDim(a, b))
      && XDims(Extend(gs, a, b)) == AppendedOrScaled(XDims(gs), scale, a)
      && XTimes(Extend(gs, a, b)) == AppendedOrScaled(XTimes(gs), scale, Times(a, b))
      && YDims(Extend(gs, a, b)) == AppendedOrScaled(YDims(gs), scale, b)
      && YTimes(Extend(gs, a, b)) == AppendedOrScaled(YTimes(gs), scale, Times(b, a))
  {
    hide Results, XDims, YDims, XTimes, YTimes;
    if gs != [] && gs[|gs| - 1].kind == KindOf(a, b) {
      var e := |gs| - 1;
      var g := Group(KindOf(a, b), gs[e].size * OutDim(a, b));
      UpdateViews(gs, e, g);
      assert g.XDim() == gs[e].XDim() * a && g.YDim() == gs[e].YDim() * b;
      assert g.XTimes() == gs[e].XTimes() * Times(a, b) && g.YTimes() == gs[e].YTimes() * Times(b, a);
    } else {
      AppendViews(gs, Group(KindOf(a, b), OutDim(a, b)));
    }
  }

  lemma UpdateViews(gs: seq<Group>, e: nat, g: Group)
    requires e < |gs|
    ensures var r := gs[e := g];
      && |Results(gs)| == |XDims(gs)| == |XTimes(gs)| == |YDims(gs)| == |YTimes(gs)| == |gs|
      && Results(gs)[e] == gs[e].size && XDims(gs)[e] == gs[e].XDim() && XTimes(gs)[e] == gs[e].XTimes()
      && YDims(gs)[e] == gs[e].YDim() && YTimes(gs)[e] == gs[e].YTimes()
      && Results(r) == Results(gs)[e := g.size]
      && XDims(r) == XDims(gs)[e := g.XDim()] && XTimes(r) == XTimes(gs)[e := g.XTimes()]
      && YDims(r) == YDims(gs)[e := g.YDim()] && YTimes(r) == YTimes(gs)[e := g.YTimes()]
  {}

  lemma AppendViews(gs: seq<Group>, g: Group)
    ensures var r := gs + [g];
      && Results(r) == Results(gs) + [g.size]
      && XDims(r) == XDims(gs) + [g.XDim()] && XTimes(r) == XTimes(gs) + [g.XTimes()]
      && YDims(r) == YDims(gs) + [g.YDim()] && YTimes(r) == YTimes(gs) + [g.YTimes()]
  {}

  /** The collapse and the output shape of one more dimension. */
  lemma CollapseNext(x: Shape, y: Shape, i: nat)
    requires |x| == |y| && i < |x|
    ensures Collapse(x[..i + 1], y[..i + 1]) == Extend(Collapse(x[..i], y[..i]), x[i], y[i])
    ensures OutDims(x[..i + 1], y[..i + 1]) == OutDims(x[..i], y[..i]) + [OutDim(x[i], y[i])]
    ensures x[i] == y[i] == 1 ==> Extend(Collapse(x[..i], y[..i]), x[i], y[i]) == Collapse(x[..i], y[..i])
  {
    assert x[..i + 1] == x[..i] + [x[i]] && y[..i + 1] == y[..i] + [y[i]];
    assert x[..i + 1][..i] == x[..i] && y[..i + 1][..i] == y[..i];
  }

  lemma CompatibleNext(x: Shape, y: Shape, i: nat)
    requires |x| == |y| && i < |x|
    ensures AllCompatible(x[..i + 1], y[..i + 1]) <==> AllCompatible(x[..i], y[..i]) && DimsCompatible(x[i], y[i])
  {
    if AllCompatible(x[..i + 1], y[..i + 1]) {
      assert DimsCompatible(x[..i + 1][i], y[..i + 1][i]);
      forall k | 0 <= k < i ensures DimsCompatible(x[..i][k], y[..i][k]) {
        assert DimsCompatible(x[..i + 1][k], y[..i + 1][k]);
      }
    }
  }

  /** How far two reversed shapes stay compatible. */
  function CompatiblePrefix(x: Shape, y: Shape): (k: nat)
    requires |x| == |y|
    ensures k <= |x| && AllCompatible(x[..k], y[..k])
    ensures k < |x| ==> !DimsCompatible(x[k], y[k])
    ensures k == |x| <==> AllCompatible(x, y)
  {
    if x == [] then 0
    else if !DimsCompatible(x[0], y[0]) then 0
    else
      var k := CompatiblePrefix(x[1..], y[1..]);
      assert x[..k + 1] == [x[0]] + x[1..][..k] && y[..k + 1] == [y[0]] + y[1..][..k];
      k + 1
  }

  lemma CompatiblePrefixAt(x: Shape, y: Shape, k: nat)
    requires |x| == |y| && k < |x| && AllCompatible(x[..k], y[..k]) && !DimsCompatible(x[k], y[k])
    ensures CompatiblePrefix(x, y) == k
  {}

  /** Factor by which an input dimension a is repeated to match b. */
  function Times(a: int, b: int): (t: int) {
    if a != b && a == 1 then b else 1
  }

  /** std::vector::resize with one as the fill value. */
  function Resized(s: Shape, n: nat): (r: Shape)
    ensures |r| == n && forall i :: 0 <= i < n ==> r[i] == if i < |s| then s[i] else 1
  {
    seq(n, i requires 0 <= i < n => if i < |s| then s[i] else 1)
  }

  /** The factors of a next to b written over t for the first k dimensions, where a is
      repeated; other entries of t stay. */
  function TimesOver(t: Shape, a: Shape, b: Shape, k: nat): (r: Shape)
    requires |t| == |a| == |b| && k <= |a|
    ensures |r| == |a|
    ensures forall i :: 0 <= i < |a| ==> r[i] == if i < k && a[i] != b[i] && a[i] == 1 then b[i] else t[i]
  {
    seq(|a|, i requires 0 <= i < |a| => if i < k && a[i] != b[i] && a[i] == 1 then b[i] else t[i])
  }

  lemma TimesStart(t: Shape, a: Shape, b: Shape)
    requires |t| == |a| == |b|
    ensures TimesOver(t, a, b, 0) == t
  {}

  lemma TimesStep(t: Shape, a: Shape, b: Shape, i: nat)
    requires |t| == |a| == |b| && i < |a|
    ensures |TimesOver(t, a, b, i)| == |a|
    ensures TimesOver(t, a, b, i + 1) ==
      if a[i] != b[i] && a[i] == 1 then TimesOver(t, a, b, i)[i := b[i]] else TimesOver(t, a, b, i)
  {}

  /** The factors are right exactly when the vector they are written over holds ones
      wherever nothing is repeated, as it does on a fresh object. */
  lemma FactorsRightIff(t: Shape, a: Shape, b: Shape)
    requires |a| == |b|
    ensures var r := TimesOver(Resized(t, |a|), a, b, |a|);
      (forall i :: 0 <= i < |a| ==> r[i] == Times(a[i], b[i]))
      <==> forall i :: 0 <= i < |a| && i < |t| && Times(a[i], b[i]) == 1 ==> t[i] == 1
  {
    var r := TimesOver(Resized(t, |a|), a, b, |a|);
    if forall i :: 0 <= i < |a| ==> r[i] == Times(a[i], b[i]) {
      forall i | 0 <= i < |a| && i < |t| && Times(a[i], b[i]) == 1 ensures t[i] == 1 {
        assert r[i] == Times(a[i], b[i]);
      }
    }
  }

  /** Padded input shapes whose element-wise maximum is the requested output. */
  predicate MaxShape(x: Shape, y: Shape, o: Shape) {
    |o| == Rank(x, y) &&
    forall i :: 0 <= i < |o| ==> o[i] == Max(Pad(x, Rank(x, y))[i], Pad(y, Rank(x, y))[i])
  }

  predicate Accepted(x: Shape, y: Shape, o: Shape) {
    MaxShape(x, y, o) && AllCompatible(Pad(x, Rank(x, y)), Pad(y, Rank(x, y)))
  }

  /** Somewhere a dimension of no elements is aligned with one of a single element. */
  predicate EmptyMeetsOne(x: Shape, y: Shape) {
    exists i :: 0 <= i < Rank(x, y) && ClashAt(Dim(x, Rank(x, y), i), Dim(y, Rank(x, y), i))
  }

  predicate ClashAt(a: int, b: int) {
    (a == 0 && b == 1) || (a == 1 && b == 0)
  }

  /** Without such a clash the check accepts exactly the broadcast of the inputs. */
  lemma AcceptedIffBroadcast(x: Shape, y: Shape, o: Shape)
    requires NonNegative(x) && NonNegative(y) && !EmptyMeetsOne(x, y)
    ensures Accepted(x, y, o) <==> Compatible(x, y) && o == OutShape(x, y)
  {
    var r := Rank(x, y);
    PaddedSame(x, y);
    forall i | 0 <= i < r && DimsCompatible(Dim(x, r, i), Dim(y, r, i))
      ensures Max(Dim(x, r, i), Dim(y, r, i)) == OutDim(Dim(x, r, i), Dim(y, r, i))
    {
      assert !ClashAt(Dim(x, r, i), Dim(y, r, i));
    }
    if Accepted(x, y, o) {
      forall i | 0 <= i < r ensures o[i] == OutShape(x, y)[i] {
        assert DimsCompatible(Dim(x, r, i), Dim(y, r, i));
      }
    }
  }

  lemma PaddedSame(x: Shape, y: Shape)
    ensures var r := Rank(x, y);
      && |Pad(x, r)| == |Pad(y, r)| == r
      && (AllCompatible(Pad(x, r), Pad(y, r)) <==> Compatible(x, y))
  {
    var r := Rank(x, y);
    if AllCompatible(Pad(x, r), Pad(y, r)) {
      forall i | 0 <= i < r ensures DimsCompatible(Dim(x, r, i), Dim(y, r, i)) {
        assert DimsCompatible(Pad(x, r)[i], Pad(y, r)[i]);
      }
    }
  }

  /** Of shapes that broadcast, the check accepts the broadcast exactly without a clash:
      exactly then the two entry points agree on the output shape. */
  lemma EntryPointsAgreeIff(x: Shape, y: Shape)
    requires NonNegative(x) && NonNegative(y) && Compatible(x, y)
    ensures Accepted(x, y, OutShape(x, y)) <==> !EmptyMeetsOne(x, y)
  {
    var r := Rank(x, y);
    if EmptyMeetsOne(x, y) {
      var i :| 0 <= i < r && ClashAt(Dim(x, r, i), Dim(y, r, i));
      assert OutShape(x, y)[i] == 0 && Max(Pad(x, r)[i], Pad(y, r)[i]) == 1;
    } else {
      AcceptedIffBroadcast(x, y, OutShape(x, y));
    }
  }

  /** An input on which they disagree: the check wants one element where broadcasting has
      none, and the table then reads an element that does not exist. */
  lemma EmptyDimensionDisagrees()
    ensures Compatible([0], [1]) && OutShape([0], [1]) == [0]
    ensures !Accepted([0], [1], [0]) && Accepted([0], [1], [1])
    ensures Pad([0], 1) == [0] && Table([0], [1]) == [0] && Numel([0]) == 0
  {
    assert Rank([0], [1]) == 1 && Pad([0], 1) == [0] && Pad([1], 1) == [1];
    assert Dim([0], 1, 0) == 0 && Dim([1], 1, 0) == 1;
    assert Max(Pad([0], 1)[0], Pad([1], 1)[0]) == 1;
    assert Numel([1]) == 1 && FlatIndex([0], [1], 0) == 0;
  }

  ghost predicate Inside(t: seq<int>, m: int) {
    forall n :: 0 <= n < |t| ==> 0 <= t[n] < m
  }

  lemma {:induction false} NumelNonNegative(s: Shape)
    requires NonNegative(s)
    ensures Numel(s) >= 0 && (Numel(s) == 0 <==> !Positive(s))
  {
    if Positive(s) {
      NumelPositive(s);
    } else {
      SomeEmpty(s);
    }
  }

  lemma {:induction false} SomeEmpty(s: Shape)
    requires NonNegative(s) && !Positive(s)
    ensures Numel(s) == 0
  {
    if s[0] != 0 {
      assert s == [s[0]] + s[1..];
      SomeEmpty(s[1..]);
    }
  }

  /** The entries of both tables name existing elements exactly when no input has an
      empty dimension, or the fastest output dimension is empty. */
  lemma TablesInsideIff(x: Shape, y: Shape, o: Shape, xi: seq<int>, yi: seq<int>)
    requires NonNegative(x) && NonNegative(y) && NonNegative(o) && Accepted(x, y, o)
    requires |xi| == |yi| == GrownLength(0, o)
    requires Positive(o) ==> xi == Table(Pad(x, |o|), o) && yi == Table(Pad(y, |o|), o)
    ensures Inside(xi, Numel(x)) && Inside(yi, Numel(y)) <==> (Positive(x) && Positive(y)) || FastestEmpty(o)
  {
    hide Numel, Table, Pad, GrownLength, Accepted, EmptyMeetsOne, Compatible, OutShape;
    TableLengthExact(o);
    NumelNonNegative(x);
    NumelNonNegative(y);
    if Positive(x) && Positive(y) {
      NoClash(x, y);
      AcceptedIffBroadcast(x, y, o);
      TablesInside(x, y, xi, yi);
    } else if !FastestEmpty(o) {
      assert |xi| > 0;
      assert Positive(x) ==> !(0 <= yi[0] < Numel(y));
      assert !Positive(x) ==> !(0 <= xi[0] < Numel(x));
    }
  }

  /** Without empty dimensions every entry names an existing element. */
  lemma TablesInside(x: Shape, y: Shape, xi: seq<int>, yi: seq<int>)
    requires Positive(x) && Positive(y) && Compatible(x, y)
    ensures Positive(OutShape(x, y))
    ensures var o := OutShape(x, y);
      xi == Table(Pad(x, |o|), o) && yi == Table(Pad(y, |o|), o) ==> Inside(xi, Numel(x)) && Inside(yi, Numel(y))
  {
    hide Numel, NaiveIndex, Table, Pad, Compatible, OutShape;
    TableIsNaive(x, y);
    OutShapeSymmetric(x, y);
    OutRank(x, y);
    forall n: nat
      ensures 0 <= NaiveIndex(x, OutShape(x, y), n) < Numel(x) && 0 <= NaiveIndex(y, OutShape(x, y), n) < Numel(y)
    {
      NaiveInRange(x, y, n);
      NaiveInRange(y, x, n);
    }
  }

  lemma NoClash(x: Shape, y: Shape)
    requires Positive(x) && Positive(y)
    ensures !EmptyMeetsOne(x, y)
  {}

  class Engine {
    var valid: bool
    var xReshape: Shape
    var yReshape: Shape
    var shapeOut: Shape
    var xBcast: Shape
    var yBcast: Shape
    var resultShape: Shape
    var xInputStrides: seq<int>
    var yInputStrides: seq<int>
    var xOutputStrides: seq<int>
    var yOutputStrides: seq<int>
    // the shapes this object was built from
    ghost var xs: Shape
    ghost var ys: Shape

    /** The five group vectors hold exactly gs. */
    ghost predicate Holds(gs: seq<Group>)
      reads this
    {
      && resultShape == Results(gs)
      && xReshape == XDims(gs) && xBcast == XTimes(gs)
      && yReshape == YDims(gs) && yBcast == YTimes(gs)
    }

    ghost predicate StridesReady()
      reads this
    {
      && RowMajor(xInputStrides, xReshape) && RowMajor(yInputStrides, yReshape)
      && RowMajor(xOutputStrides, resultShape) && RowMajor(yOutputStrides, resultShape)
    }

    ghost predicate Built()
      reads this
    {
      && valid && Compatible(xs, ys)
      && Holds(GroupsOf(xs, ys))
      && (|resultShape| > 1 ==> StridesReady())
    }

    constructor Fresh()
      ensures valid && xReshape == yReshape == shapeOut == xBcast == yBcast == resultShape == []
    {
      valid := true;
      xReshape, yReshape, shapeOut, xBcast, yBcast, resultShape := [], [], [], [], [], [];
      xInputStrides, yInputStrides, xOutputStrides, yOutputStrides := [], [], [], [];
      xs, ys := [], [];
    }

    constructor (x: Shape, y: Shape)
      ensures xs == x && ys == y
      ensures valid <==> Compatible(x, y)
      ensures valid ==> Built() && shapeOut == if x == y then x else Reverse(OutShape(x, y))
    {
      valid := true;
      xReshape, yReshape, shapeOut, xBcast, yBcast, resultShape := [], [], [], [], [], [];
      xInputStrides, yInputStrides, xOutputStrides, yOutputStrides := [], [], [], [];
      xs, ys := x, y;
      new;
      if x == y {
        InitSame(x);
        EqualShapes(x);
      } else {
        InitPadded(x, y);
      }
    }

    /** Different shapes are reversed, padded with ones, collapsed and reversed back. */
    method InitPadded(x: Shape, y: Shape)
      requires valid && Holds([]) && shapeOut == [] && x != y
      modifies this`valid, this`xReshape, this`yReshape, this`xBcast, this`yBcast, this`resultShape, this`shapeOut,
        this`xInputStrides, this`yInputStrides, this`xOutputStrides, this`yOutputStrides
      ensures valid <==> Compatible(x, y)
      ensures valid ==> Holds(GroupsOf(x, y)) && StridesReady() && shapeOut == Reverse(OutShape(x, y))
    {
      hide Numel, Collapse, Rank, Dim, Pad, Ones, OutDims, OutShape, Compatible, AllCompatible, Reverse, GroupsOf,
        Results, XDims, YDims, XTimes, YTimes;
      var rx, ry := PadReversed(x, y);
      PaddedGroups(x, y);
      var ok := Init(rx, ry);
      if ok {
        ReverseGroups(Collapse(rx, ry));
        MakeStrides();
      }
    }

    /** Puts the groups most significant first; scalars get one group of size one. */
    method ReverseGroups(ghost c: seq<Group>)
      requires Holds(c)
      modifies this`xReshape, this`yReshape, this`xBcast, this`yBcast, this`resultShape
      ensures Holds(if c == [] then [Group(Same, 1)] else Reverse(c))
    {
      if resultShape == [] {
        resultShape, xReshape, xBcast, yReshape, yBcast := [1], [1], [1], [1], [1];
      }
      resultShape := Reverse(resultShape);
      xReshape := Reverse(xReshape);
      xBcast := Reverse(xBcast);
      yReshape := Reverse(yReshape);
      yBcast := Reverse(yBcast);
      ReverseViews(c);
    }

    /** Equal shapes become one flat dimension. */
    method InitSame(x: Shape)
      requires Holds([]) && shapeOut == []
      modifies this`xReshape, this`yReshape, this`xBcast, this`yBcast, this`resultShape, this`shapeOut
      ensures Holds([Group(Same, Numel(x))]) && shapeOut == x
    {
      var elements := 1;
      var i := 0;
      while i < |x|
        invariant 0 <= i <= |x| && shapeOut == x[..i] && elements == Numel(x[..i]) && Holds([])
      {
        assert x[..i + 1] == x[..i] + [x[i]];
        NumelSnoc(x[..i], x[i]);
        elements := elements * x[i];
        shapeOut := shapeOut + [x[i]];
        i := i + 1;
      }
      assert x[..|x|] == x;
      xReshape, yReshape, resultShape := xReshape + [elements], yReshape + [elements], resultShape + [elements];
      xBcast, yBcast := xBcast + [1], yBcast + [1];
    }

    /** Collapses two reversed shapes of equal rank, stopping at the first
        incompatible dimension. */
    method Init(x: Shape, y: Shape) returns (ok: bool)
      requires |x| == |y| && valid && Holds([]) && shapeOut == []
      modifies this`valid, this`xReshape, this`yReshape, this`xBcast, this`yBcast, this`resultShape, this`shapeOut
      ensures ok == valid == AllCompatible(x, y)
      ensures var k := CompatiblePrefix(x, y);
        Holds(Collapse(x[..k], y[..k])) && shapeOut == OutDims(x[..k], y[..k])
      ensures ok ==> Holds(Collapse(x, y)) && shapeOut == OutDims(x, y)
    {
      hide Numel, Collapse, OutDims, AllCompatible, Extend, AppendedOrScaled;
      ghost var gs := Collapse(x[..0], y[..0]);
      StartCollapse(x, y);
      var prev: (bool, Kind) := (false, Same);
      var i := 0;
      while i < |x|
        invariant 0 <= i <= |x| && valid && AllCompatible(x[..i], y[..i])
        invariant gs == Collapse(x[..i], y[..i]) && Holds(gs)
        invariant shapeOut == OutDims(x[..i], y[..i])
        invariant prev.0 == (gs != []) && (gs != [] ==> prev.1 == gs[|gs| - 1].kind)
      {
        CollapseNext(x, y, i);
        CompatibleNext(x, y, i);
        var curr, o, tx, ty;
        if x[i] == y[i] {
          curr, o, tx, ty := Same, x[i], 1, 1;
        } else if x[i] == 1 {
          curr, o, tx, ty := XOne, y[i], y[i], 1;
        } else if y[i] == 1 {
          curr, o, tx, ty := YOne, x[i], 1, x[i];
        } else {
          valid := false;
          CompatiblePrefixAt(x, y, i);
          return false;
        }
        shapeOut := shapeOut + [o];
        prev := AddDim(curr, o, x[i], tx, y[i], ty, prev, gs);
        gs := Extend(gs, x[i], y[i]);
        i := i + 1;
      }
      assert x[..|x|] == x && y[..|y|] == y;
      return true;
    }

    /** One dimension of the loop: skipped, multiplied in, or a group of its own. */
    method AddDim(curr: Kind, o: int, a: int, tx: int, b: int, ty: int, prev: (bool, Kind), ghost gs: seq<Group>)
        returns (next: (bool, Kind))
      requires Holds(gs) && DimsCompatible(a, b) && curr == KindOf(a, b) && o == OutDim(a, b)
      requires tx == Times(a, b) && ty == Times(b, a)
      requires prev.0 == (gs != []) && (gs != [] ==> prev.1 == gs[|gs| - 1].kind)
      modifies this`xReshape, this`yReshape, this`xBcast, this`yBcast, this`resultShape
      ensures Holds(Extend(gs, a, b))
      ensures var gs' := Extend(gs, a, b); next.0 == (gs' != []) && (gs' != [] ==> next.1 == gs'[|gs'| - 1].kind)
    {
      hide AppendedOrScaled;
      if curr == Same && a == 1 {
        next := prev;
      } else {
        hide Extend;
        ExtendViews(gs, a, b);
        AppendOrScale(prev == (true, curr), o, a, tx, b, ty);
        next := (true, curr);
      }
    }

    /** Multiplies into the last group, or opens a new one. */
    method AppendOrScale(scale: bool, o: int, xd: int, tx: int, yd: int, ty: int)
      requires |resultShape| == |xReshape| == |xBcast| == |yReshape| == |yBcast|
      requires scale ==> resultShape != []
      modifies this`xReshape, this`yReshape, this`xBcast, this`yBcast, this`resultShape
      ensures resultShape == AppendedOrScaled(old(resultShape), scale, o)
      ensures xReshape == AppendedOrScaled(old(xReshape), scale, xd)
      ensures xBcast == AppendedOrScaled(old(xBcast), scale, tx)
      ensures yReshape == AppendedOrScaled(old(yReshape), scale, yd)
      ensures yBcast == AppendedOrScaled(old(yBcast), scale, ty)
    {
      if scale {
        var b := |resultShape| - 1;
        resultShape := resultShape[b := resultShape[b] * o];
        xReshape := xReshape[b := xReshape[b] * xd];
        xBcast := xBcast[b := xBcast[b] * tx];
        yReshape := yReshape[b := yReshape[b] * yd];
        yBcast := yBcast[b := yBcast[b] * ty];
      } else {
        resultShape := resultShape + [o];
        xReshape := xReshape + [xd];
        xBcast := xBcast + [tx];
        yReshape := yReshape + [yd];
        yBcast := yBcast + [ty];
      }
    }

    /** Row-major strides of the collapsed shapes. */
    method MakeStrides()
      requires |resultShape| == |xReshape| == |yReshape| > 0
      modifies this`xInputStrides, this`yInputStrides, this`xOutputStrides, this`yOutputStrides
      ensures StridesReady()
    {
      hide RowMajor;
      xInputStrides := StridesOf(xReshape);
      yInputStrides := StridesOf(yReshape);
      xOutputStrides := StridesOf(resultShape);
      yOutputStrides := StridesOf(resultShape);
    }

    method GetBroadcastXIndex(n: int) returns (k: int)
      requires Built() && NonNegative(xs) && NonNegative(ys) && 0 <= n < Numel(OutShape(xs, ys))
      ensures Positive(OutShape(xs, ys)) && k == NaiveIndex(xs, OutShape(xs, ys), n)
      ensures 0 <= k < Numel(xs)
    {
      GroupsXIndex(xs, ys, n);
      GroupsConserve(xs, ys);
      TileIsFlat(xReshape, resultShape, n);
      k := StridedIndex(resultShape, xReshape, xBcast, xInputStrides, xOutputStrides, n);
    }

    method GetBroadcastYIndex(n: int) returns (k: int)
      requires Built() && NonNegative(xs) && NonNegative(ys) && 0 <= n < Numel(OutShape(xs, ys))
      ensures Positive(OutShape(xs, ys)) && k == NaiveIndex(ys, OutShape(xs, ys), n)
      ensures 0 <= k < Numel(ys)
    {
      GroupsYIndex(xs, ys, n);
      GroupsConserve(xs, ys);
      TileIsFlat(yReshape, resultShape, n);
      k := StridedIndex(resultShape, yReshape, yBcast, yInputStrides, yOutputStrides, n);
    }

    /** Checks the requested output shape and records the repeat factors. */
    method GenerateBcastInfo(x: Shape, y: Shape, o: Shape) returns (ok: bool)
      modifies this`xReshape, this`yReshape, this`shapeOut, this`xBcast, this`yBcast
      ensures ok == Accepted(x, y, o)
      ensures xReshape == Pad(x, Rank(x, y)) && yReshape == Pad(y, Rank(x, y)) && shapeOut == o
      ensures var k := CompatiblePrefix(xReshape, yReshape);
        if MaxShape(x, y, o) && o != [] then
          && xBcast == TimesOver(Resized(old(xBcast), |o|), xReshape, yReshape, k)
          && yBcast == TimesOver(Resized(old(yBcast), |o|), yReshape, xReshape, k)
        else xBcast == old(xBcast) && yBcast == old(yBcast)
    {
      PadInputs(x, y);
      shapeOut := o;
      if |x| == 0 && |y| == 0 && |o| == 0 {
        return true;
      }
      var matches := MatchesMax(xReshape, yReshape, o);
      if !matches {
        return false;
      }
      ok := FillFactors(|o|);
    }

    /** Reverses, appends ones and reverses back: both inputs get the larger rank. */
    method PadInputs(x: Shape, y: Shape)
      modifies this`xReshape, this`yReshape
      ensures xReshape == Pad(x, Rank(x, y)) && yReshape == Pad(y, Rank(x, y))
    {
      hide Pad, Ones, Reverse;
      PadByReversing(x, Rank(x, y));
      PadByReversing(y, Rank(x, y));
      xReshape, yReshape := Reverse(x), Reverse(y);
      var r := if |x| > |y| then |x| else |y|;
      if |x| < |y| {
        xReshape := xReshape + Ones(r - |x|);
      } else if |x| > |y| {
        yReshape := yReshape + Ones(r - |y|);
      }
      xReshape, yReshape := Reverse(xReshape), Reverse(yReshape);
    }

    method FillFactors(r: nat) returns (ok: bool)
      requires |xReshape| == |yReshape| == r
      modifies this`xBcast, this`yBcast
      ensures var k := CompatiblePrefix(xReshape, yReshape);
        && xBcast == TimesOver(Resized(old(xBcast), r), xReshape, yReshape, k)
        && yBcast == TimesOver(Resized(old(yBcast), r), yReshape, xReshape, k)
      ensures ok == AllCompatible(xReshape, yReshape)
    {
      hide TimesOver, AllCompatible, Collapse, OutDims;
      xBcast, yBcast := Resized(xBcast, r), Resized(yBcast, r);
      TimesStart(xBcast, xReshape, yReshape);
      TimesStart(yBcast, yReshape, xReshape);
      StartCollapse(xReshape, yReshape);
      ghost var tx, ty := xBcast, yBcast;
      var i := 0;
      while i < r
        invariant 0 <= i <= r && AllCompatible(xReshape[..i], yReshape[..i])
        invariant xBcast == TimesOver(tx, xReshape, yReshape, i) && yBcast == TimesOver(ty, yReshape, xReshape, i)
      {
        CompatibleNext(xReshape, yReshape, i);
        TimesStep(tx, xReshape, yReshape, i);
        TimesStep(ty, yReshape, xReshape, i);
        if xReshape[i] != yReshape[i] {
          if xReshape[i] == 1 {
            xBcast := xBcast[i := yReshape[i]];
          } else if yReshape[i] == 1 {
            yBcast := yBcast[i := xReshape[i]];
          } else {
            CompatiblePrefixAt(xReshape, yReshape, i);
            return false;
          }
        }
        i := i + 1;
      }
      assert xReshape[..r] == xReshape && yReshape[..r] == yReshape;
      return true;
    }

    /** Appends both index tables to the caller's vectors, by replicating what they hold. */
    method BCastIndexes(x0: seq<int>, y0: seq<int>) returns (xIndexes: seq<int>, yIndexes: seq<int>)
      requires |xReshape| == |yReshape| == |shapeOut| && NonNegative(shapeOut) && |x0| == |y0|
      modifies this`xReshape, this`yReshape, this`shapeOut
      ensures xReshape == old(xReshape) && yReshape == old(yReshape) && shapeOut == old(shapeOut)
      ensures x0 <= xIndexes && y0 <= yIndexes && |xIndexes| == |yIndexes| == GrownLength(|x0|, shapeOut)
      ensures x0 == [] && Positive(shapeOut) ==>
        xIndexes == Table(xReshape, shapeOut) && yIndexes == Table(yReshape, shapeOut)
    {
      xReshape, yReshape, shapeOut := Reverse(xReshape), Reverse(yReshape), Reverse(shapeOut);
      xIndexes, yIndexes := BuildTables(xReshape, yReshape, shapeOut, x0, y0);
      xReshape, yReshape, shapeOut := Reverse(xReshape), Reverse(yReshape), Reverse(shapeOut);
      ReverseReverse(old(xReshape));
      ReverseReverse(old(yReshape));
      ReverseReverse(old(shapeOut));
    }
  }

  /** Appending ones to a reversed shape pads it on the left. */
  lemma PadByReversing(s: Shape, r: nat)
    requires |s| <= r
    ensures Reverse(Reverse(s) + Ones(r - |s|)) == Pad(s, r)
    ensures |s| == r ==> Reverse(Reverse(s)) == Pad(s, r)
  {}

  /** Both shapes reversed, the shorter one extended with ones. */
  method PadReversed(x: Shape, y: Shape) returns (rx: Shape, ry: Shape)
    ensures rx == Reverse(Pad(x, Rank(x, y))) && ry == Reverse(Pad(y, Rank(x, y)))
  {
    rx, ry := Reverse(x), Reverse(y);
    if |rx| > |ry| {
      ry := ry + Ones(|rx| - |ry|);
    } else {
      rx := rx + Ones(|ry| - |rx|);
    }
    assert rx == Reverse(Pad(x, Rank(x, y))) && ry == Reverse(Pad(y, Rank(x, y)));
  }

  method MatchesMax(px: Shape, py: Shape, o: Shape) returns (ok: bool)
    requires |px| == |py|
    ensures ok <==> |o| == |px| && forall i :: 0 <= i < |o| ==> o[i] == Max(px[i], py[i])
  {
    if |o| != |px| {
      return false;
    }
    var i := 0;
    while i < |px|
      invariant 0 <= i <= |px| && forall m :: 0 <= m < i ==> o[m] == Max(px[m], py[m])
    {
      if o[i] != Max(px[i], py[i]) {
        return false;
      }
      i := i + 1;
    }
    return true;
  }

  /** Table entries are the naive broadcast indices of the unpadded shapes. */
  lemma TableIsNaive(x: Shape, y: Shape)
    requires Positive(x) && Positive(y) && Compatible(x, y)
    ensures var o := OutShape(x, y);
      && Positive(o)
      && |Table(Pad(x, |o|), o)| == |Table(Pad(y, |o|), o)| == Numel(o)
      && forall n :: 0 <= n < Numel(o) ==>
           Table(Pad(x, |o|), o)[n] == NaiveIndex(x, o, n) && Table(Pad(y, |o|), o)[n] == NaiveIndex(y, o, n)
  {
    NaiveInRange(x, y, 0);
    var o := OutShape(x, y);
    forall n | 0 <= n < Numel(o)
      ensures Table(Pad(x, |o|), o)[n] == NaiveIndex(x, o, n) && Table(Pad(y, |o|), o)[n] == NaiveIndex(y, o, n)
    {
      NaiveIsFlat(x, o, n);
      NaiveIsFlat(y, o, n);
    }
  }

  /** The tables of a fresh builder. */
  method TablesOf(x: Shape, y: Shape) returns (xi: seq<int>, yi: seq<int>)
    requires Positive(x) && Positive(y) && Compatible(x, y)
    ensures Positive(OutShape(x, y)) && |xi| == |yi| == Numel(OutShape(x, y))
    ensures forall n :: 0 <= n < |xi| ==>
      xi[n] == NaiveIndex(x, OutShape(x, y), n) && yi[n] == NaiveIndex(y, OutShape(x, y), n)
  {
    hide Numel, Compatible, GroupsOf, NaiveIndex, Pad, GrownLength, EmptyMeetsOne;
    var o := OutShape(x, y);
    NoClash(x, y);
    AcceptedIffBroadcast(x, y, o);
    TableIsNaive(x, y);
    var builder := new Engine.Fresh();
    var ok := builder.GenerateBcastInfo(x, y, o);
    assert ok;
    xi, yi := builder.BCastIndexes([], []);
  }

  /** Table builder and stride lookup agree: both give the naive broadcast index of every
      output element. */
  method TablesMatchLookup(x: Shape, y: Shape) returns (xi: seq<int>, yi: seq<int>)
    requires Positive(x) && Positive(y) && Compatible(x, y)
    ensures Positive(OutShape(x, y)) && |xi| == |yi| == Numel(OutShape(x, y))
    ensures forall n :: 0 <= n < |xi| ==>
      xi[n] == NaiveIndex(x, OutShape(x, y), n) && yi[n] == NaiveIndex(y, OutShape(x, y), n)
  {
    hide Numel, Compatible, GroupsOf, NaiveIndex;
    var lookup := new Engine(x, y);
    xi, yi := TablesOf(x, y);
    for n := 0 to |xi|
      invariant lookup.Built() && lookup.xs == x && lookup.ys == y
    {
      var kx := lookup.GetBroadcastXIndex(n);
      var ky := lookup.GetBroadcastYIndex(n);
      assert kx == xi[n] && ky == yi[n];
    }
  }

  /** Check and builder on shapes that may have empty dimensions. */
  method CheckAndBuild(x: Shape, y: Shape, o: Shape) returns (ok: bool, xi: seq<int>, yi: seq<int>)
    requires NonNegative(x) && NonNegative(y) && NonNegative(o)
    ensures ok == Accepted(x, y, o)
    ensures ok ==> |xi| == |yi| == GrownLength(0, o)
    ensures ok ==>
      (Inside(xi, Numel(x)) && Inside(yi, Numel(y)) <==> (Positive(x) && Positive(y)) || FastestEmpty(o))
  {
    hide Numel, Pad, GrownLength, Inside;
    var builder := new Engine.Fresh();
    ok := builder.GenerateBcastInfo(x, y, o);
    xi, yi := [], [];
    if ok {
      xi, yi := builder.BCastIndexes([], []);
      TablesInsideIff(x, y, o, xi, yi);
    }
  }
}
