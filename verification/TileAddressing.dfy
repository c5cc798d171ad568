/** Where the elements of a tile lie in the output and in an input. */
module TileAddressing {
  import opened Arith
  import opened AxesIndices
  import BroadcastIndex
  import opened BroadcastTiling
  import opened Shapes
  import opened Strides

  ghost predicate Cut(t: Tiling) {
    && Positive(t.outputDims) && t.ubSplitAxis < |t.outputDims| && 1 <= t.ubTail <= t.ubFormer && 1 <= t.ubOuter
    && (t.ubOuter - 1) * t.ubFormer + t.ubTail == t.outputDims[t.ubSplitAxis]
  }

  function Outer(t: Tiling): (s: Shape)
    requires t.ubSplitAxis < |t.outputDims|
  {
    t.outputDims[..t.ubSplitAxis]
  }

  function Rest(t: Tiling): (s: Shape)
    requires t.ubSplitAxis < |t.outputDims|
  {
    t.outputDims[t.ubSplitAxis + 1..]
  }

  /** The outer position of tile n. */
  function Row(t: Tiling, n: nat): (r: nat)
    requires t.ubOuter > 0
  {
    n / t.ubOuter
  }

  /** The part of the split dimension that tile n covers. */
  function Col(t: Tiling, n: nat): (c: nat)
    requires t.ubOuter > 0
    ensures c < t.ubOuter
  {
    n % t.ubOuter
  }

  /** The size of a tile along the split dimension. */
  function SplitSize(t: Tiling, col: nat): (s: nat) {
    if col == t.ubOuter - 1 then t.ubTail else t.ubFormer
  }

  function TileLength(t: Tiling, n: nat): (l: int)
    requires t.ubSplitAxis < |t.outputDims| && t.ubOuter > 0
  {
    SplitSize(t, Col(t, n)) * Inner(t)
  }

  /** Where tile n starts, in units of the split dimension. */
  function Start(t: Tiling, n: nat): (k: int)
    requires t.ubSplitAxis < |t.outputDims| && t.ubOuter > 0
  {
    Row(t, n) * t.outputDims[t.ubSplitAxis] + Col(t, n) * t.ubFormer
  }

  /** The first output element of tile n. */
  function OutOffset(t: Tiling, n: nat): (o: int)
    requires t.ubSplitAxis < |t.outputDims| && t.ubOuter > 0
  {
    Start(t, n) * Inner(t)
  }

  // ----- tiles follow each other -----

  lemma NextTile(t: Tiling, n: nat)
    requires t.ubOuter > 0
    ensures if Col(t, n) == t.ubOuter - 1 then Col(t, n + 1) == 0 && Row(t, n + 1) == Row(t, n) + 1
            else Col(t, n + 1) == Col(t, n) + 1 && Row(t, n + 1) == Row(t, n)
  {
    var q, r, d := n / t.ubOuter, n % t.ubOuter, t.ubOuter;
    if r == d - 1 {
      assert (q + 1) * d == q * d + d;
      DivModUnique(n + 1, q + 1, d, 0);
    } else {
      DivModUnique(n + 1, q, d, r + 1);
    }
  }

  /** Every tile ends where the next one starts. */
  lemma TilesFollow(t: Tiling, n: nat)
    requires Cut(t)
    ensures Inner(t) > 0 && 0 <= OutOffset(t, n) && TileLength(t, n) > 0
    ensures OutOffset(t, n) + TileLength(t, n) == OutOffset(t, n + 1)
  {
    hide Start, Inner;
    NumelPositive(Rest(t));
    InnerIsRest(t);
    StartFollows(t, n);
    MulPositive(SplitSize(t, Col(t, n)), Inner(t));
    MulMonotone(0, Start(t, n), Inner(t));
    assert Start(t, n + 1) * Inner(t) == Start(t, n) * Inner(t) + SplitSize(t, Col(t, n)) * Inner(t);
  }

  lemma StartFollows(t: Tiling, n: nat)
    requires Cut(t)
    ensures 0 <= Start(t, n) && Start(t, n + 1) == Start(t, n) + SplitSize(t, Col(t, n))
  {
    hide Row, Col;
    var r, c, d, f := Row(t, n), Col(t, n), t.outputDims[t.ubSplitAxis], t.ubFormer;
    NextTile(t, n);
    MulMonotone(0, r, d);
    MulMonotone(0, c, f);
    assert (r + 1) * d == r * d + d && (c + 1) * f == c * f + f;
  }

  lemma InnerIsRest(t: Tiling)
    requires t.ubSplitAxis < |t.outputDims|
    ensures Inner(t) == Numel(Rest(t))
    ensures t.outputDims == (Outer(t) + [t.outputDims[t.ubSplitAxis]]) + Rest(t)
  {}

  /** The first tile starts at zero, and the one behind the last at the end. */
  lemma TilesCover(t: Tiling)
    requires Cut(t)
    ensures OutOffset(t, 0) == 0
    ensures Tiles(t) >= 0 && OutOffset(t, Tiles(t)) == Numel(t.outputDims)
  {
    hide Numel;
    var d, a := t.outputDims[t.ubSplitAxis], Numel(Outer(t));
    DivModUnique(0, 0, t.ubOuter, 0);
    RadicesNumel(t.outputDims, t.ubSplitAxis, t.ubOuter);
    NumelPositive(Outer(t));
    ProductQuotient(a, t.ubOuter);
    MulPositive(t.ubOuter, a);
    DivModUnique(a * t.ubOuter, a, t.ubOuter, 0);
    InnerIsRest(t);
    NumelAppend(Outer(t) + [d], Rest(t));
    BroadcastIndex.NumelSnoc(Outer(t), d);
  }

  lemma {:induction false} OffsetsAscend(t: Tiling, n: nat, m: nat)
    requires Cut(t) && n <= m
    ensures OutOffset(t, n) <= OutOffset(t, m)
    decreases m - n
  {
    hide OutOffset, TileLength;
    if n < m {
      TilesFollow(t, n);
      OffsetsAscend(t, n + 1, m);
    }
  }

  /** A tile lies inside the output. */
  lemma TileInside(t: Tiling, n: nat)
    requires Cut(t) && n < Tiles(t)
    ensures 0 <= OutOffset(t, n) && 0 < TileLength(t, n) && OutOffset(t, n) + TileLength(t, n) <= Numel(t.outputDims)
  {
    hide OutOffset, TileLength, Tiles;
    TilesFollow(t, n);
    OffsetsAscend(t, n + 1, Tiles(t));
    TilesCover(t);
  }

  // ----- addresses -----

  /** What the digits of tile n address in a tensor with these strides. */
  function SourceOffset(t: Tiling, strides: seq<int>, n: nat): (o: int)
    requires t.ubSplitAxis < |t.outputDims| == |strides| && t.ubOuter > 0 && Positive(t.outputDims)
  {
    Dot(Unravel(Outer(t), Row(t, n)), strides[..t.ubSplitAxis]) + Col(t, n) * strides[t.ubSplitAxis] * t.ubFormer
  }

  /** What position p of a tile adds to it. */
  function Position(t: Tiling, strides: seq<int>, p: nat): (o: int)
    requires t.ubSplitAxis < |t.outputDims| == |strides| && Positive(t.outputDims)
  {
    NumelPositive(Rest(t));
    p / Inner(t) * strides[t.ubSplitAxis] + Dot(Unravel(Rest(t), p), strides[t.ubSplitAxis + 1..])
  }

  /** The digits of a tile's element in the output. */
  lemma TileDigits(t: Tiling, n: nat, p: nat)
    requires Cut(t) && p < TileLength(t, n)
    ensures Inner(t) > 0 && OutOffset(t, n) + p >= 0
    ensures Unravel(t.outputDims, OutOffset(t, n) + p)
         == Unravel(Outer(t), Row(t, n)) + [Col(t, n) * t.ubFormer + p / Inner(t)] + Unravel(Rest(t), p)
  {
    hide Row, Col, Unravel, OutOffset, TileLength, Inner;
    var d, m, r := t.outputDims[t.ubSplitAxis], Inner(t), Row(t, n);
    TilesFollow(t, n);
    var k := OffsetParts(t, n, p);
    assert t.outputDims == (Outer(t) + [d]) + Rest(t) && Inner(t) == Numel(Rest(t)) by { InnerIsRest(t); }
    UnravelAppend(Outer(t) + [d], Rest(t), k * m + p);
    UnravelPeriodic(Rest(t), p, k);
    UnravelSnoc(Outer(t), d, k + p / m);
  }

  /** The split position k of a tile's first element, and the quotients of the others. */
  lemma OffsetParts(t: Tiling, n: nat, p: nat) returns (k: nat)
    requires Cut(t) && p < TileLength(t, n) && Inner(t) > 0
    ensures OutOffset(t, n) == k * Inner(t) && (k * Inner(t) + p) / Inner(t) == k + p / Inner(t)
    ensures (k + p / Inner(t)) / t.outputDims[t.ubSplitAxis] == Row(t, n)
    ensures (k + p / Inner(t)) % t.outputDims[t.ubSplitAxis] == Col(t, n) * t.ubFormer + p / Inner(t)
  {
    hide Row, Col, Inner;
    var d, r, c := t.outputDims[t.ubSplitAxis], Row(t, n), Col(t, n) * t.ubFormer;
    StartFollows(t, n);
    k := Start(t, n);
    ShiftedQuotient(k, Inner(t), p);
    PartInside(t, Col(t, n), p, Inner(t));
    DivModUnique(r * d + (c + p / Inner(t)), r, d, c + p / Inner(t));
  }

  lemma ShiftedQuotient(k: nat, m: nat, p: nat)
    requires m > 0
    ensures (k * m + p) / m == k + p / m
  {
    assert (k + p / m) * m == k * m + p / m * m;
    DivModUnique(k * m + p, k + p / m, m, p % m);
  }

  lemma PartInside(t: Tiling, col: nat, p: nat, m: nat)
    requires Cut(t) && col < t.ubOuter && m > 0 && p < SplitSize(t, col) * m
    ensures 0 <= col * t.ubFormer + p / m < t.outputDims[t.ubSplitAxis]
  {
    QuotientBound(p, m, SplitSize(t, col));
    MulMonotone(0, col, t.ubFormer);
    if col < t.ubOuter - 1 {
      MulMonotone(col + 1, t.ubOuter - 1, t.ubFormer);
      assert (col + 1) * t.ubFormer == col * t.ubFormer + t.ubFormer;
    }
  }

  /** The address of a tile's element is that of the output element. */
  lemma TileAddress(t: Tiling, strides: seq<int>, n: nat, p: nat)
    requires Cut(t) && p < TileLength(t, n) && |strides| == |t.outputDims|
    ensures OutOffset(t, n) + p >= 0
    ensures Dot(Unravel(t.outputDims, OutOffset(t, n) + p), strides)
      == SourceOffset(t, strides, n) + Position(t, strides, p)
  {
    hide Row, Col, Unravel, OutOffset, TileLength, Dot;
    TileDigits(t, n, p);
    var a, s := t.ubSplitAxis, strides;
    var x, y, z := Unravel(Outer(t), Row(t, n)), Col(t, n) * t.ubFormer + p / Inner(t), Unravel(Rest(t), p);
    assert s == s[..a] + [s[a]] + s[a + 1..];
    DotAppend(x + [y], z, s[..a] + [s[a]], s[a + 1..]);
    DotAppend(x, [y], s[..a], [s[a]]);
    DotOne(y, s[a]);
    assert (Col(t, n) * t.ubFormer + p / Inner(t)) * s[a] == Col(t, n) * s[a] * t.ubFormer + p / Inner(t) * s[a];
  }

  lemma DotOne(d: int, s: int)
    ensures Dot([d], [s]) == d * s
  {
    assert Dot([d][1..], [s][1..]) == 0;
  }
}
