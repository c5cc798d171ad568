/** Loading one tile of a broadcast input: a strided multi-dimensional copy, several of
    them when a tile has too many dimensions, or a plain copy when nothing is broadcast. */
module NddmaCopy {
  import opened Arith
  import opened AxesIndices
  import opened BroadcastTiling
  import opened KernelMemory
  import opened Shapes
  import opened Strides
  import opened TileAddressing

  /** Dimensions that one copy handles. */
  const NDDMA_MAX_DIMS: nat := 5

  /** Dimensions that the loop around the copies handles. */
  const NDDMA_THROW_DIMS: nat := 3

  /** An input in global memory, with its collapsed dimensions and strides. */
  datatype Input<!V> = Input(mem: int -> V, dims: Shape, strides: seq<int>)

  ghost predicate InputFits<V>(t: Tiling, input: Input<V>) {
    && Cut(t)
    && Within(input.dims, t.outputDims) && input.strides == BroadcastStrides(input.dims, t.outputDims)
  }

  /** The elements of the input that tile n needs, in the order of the output. */
  function TileData<V>(t: Tiling, input: Input<V>, n: nat): (d: seq<V>)
    requires Cut(t) && |input.strides| == |t.outputDims|
    ensures |d| == TileLength(t, n)
  {
    TilesFollow(t, n);
    seq(TileLength(t, n), p requires 0 <= p < TileLength(t, n) =>
      input.mem(SourceOffset(t, input.strides, n) + Position(t, input.strides, p)))
  }

  /** One copy: every index vector of the loops reads its strided address, and writes the
      place that the output's strides give it, which is its row-major position. */
  function MultiCopy<V>(mem: int -> V, offset: int, loopSize: Shape, srcStrides: seq<int>): (d: seq<V>)
    requires Positive(loopSize) && |loopSize| == |srcStrides|
    ensures |d| == Numel(loopSize)
  {
    NumelPositive(loopSize);
    seq(Numel(loopSize), p requires 0 <= p < Numel(loopSize) => mem(offset + Dot(Unravel(loopSize, p), srcStrides)))
  }

  /** A position in a tile, read as digits of the dimensions from the split one on. */
  lemma PositionDigits(t: Tiling, strides: seq<int>, size: nat, p: nat)
    requires Cut(t) && |strides| == |t.outputDims| && size > 0 && p < size * Inner(t)
    ensures Positive([size] + Rest(t))
    ensures Dot(Unravel([size] + Rest(t), p), strides[t.ubSplitAxis..]) == Position(t, strides, p)
  {
    hide Numel, Unravel;
    var s, a := [size] + Rest(t), t.ubSplitAxis;
    InnerIsRest(t);
    NumelPositive(Rest(t));
    assert s[1..] == Rest(t);
    UnravelCons(s, p);
    QuotientBound(p, Inner(t), size);
    DivModUnique(p / Inner(t), 0, size, p / Inner(t));
    assert strides[a..][1..] == strides[a + 1..];
    assert Unravel(s, p)[1..] == Unravel(Rest(t), p);
  }

  /** The strided copy of a tile. */
  lemma CopyIsTile<V>(t: Tiling, input: Input<V>, n: nat)
    requires InputFits(t, input)
    ensures var size := SplitSize(t, Col(t, n));
      && Positive([size] + Rest(t)) && Numel([size] + Rest(t)) == TileLength(t, n)
      && MultiCopy(input.mem, SourceOffset(t, input.strides, n), [size] + Rest(t), input.strides[t.ubSplitAxis..])
         == TileData(t, input, n)
  {
    hide Dot, Unravel, Position, SourceOffset;
    var size := SplitSize(t, Col(t, n));
    InnerIsRest(t);
    assert ([size] + Rest(t))[1..] == Rest(t);
    TilesFollow(t, n);
    forall p: nat | p < TileLength(t, n)
      ensures Positive([size] + Rest(t))
      ensures Dot(Unravel([size] + Rest(t), p), input.strides[t.ubSplitAxis..]) == Position(t, input.strides, p)
    {
      PositionDigits(t, input.strides, size, p);
    }
  }

  /** Shapes of equal element count, one within the other, are equal. */
  lemma {:induction false} EqualNumel(x: Shape, o: Shape)
    requires Within(x, o)
    ensures 0 < Numel(x) <= Numel(o) && (Numel(x) == Numel(o) ==> x == o)
  {
    if x != [] {
      EqualNumel(x[1..], o[1..]);
      ScaledWithin(Numel(x[1..]), Numel(o[1..]), x[0], o[0]);
      assert x == [x[0]] + x[1..] && o == [o[0]] + o[1..];
    }
  }

  /** An input with the output's stride along the split dimension is broadcast nowhere
      behind it, and its tile is a plain range. */
  lemma PlainTile<V>(t: Tiling, input: Input<V>, n: nat, p: nat)
    requires InputFits(t, input) && p < TileLength(t, n)
    requires input.strides[t.ubSplitAxis] == BroadcastStrides(t.outputDims, t.outputDims)[t.ubSplitAxis]
    ensures input.strides[t.ubSplitAxis] == Inner(t) && Position(t, input.strides, p) == p
  {
    hide Numel, Unravel, BroadcastStrides, Dot, TileLength;
    var a, o, x := t.ubSplitAxis, t.outputDims, input.dims;
    InnerIsRest(t);
    NumelPositive(Rest(t));
    StrideAt(o, o, a);
    StrideAt(x, o, a);
    EqualNumel(x[a + 1..], o[a + 1..]);
    BroadcastStridesFrom(x, o, a + 1);
    DotIsRavel(Rest(t), Unravel(Rest(t), p));
    RavelUnravel(Rest(t), p);
  }

  lemma StrideAt(x: Shape, o: Shape, a: nat)
    requires |x| == |o| && a < |x|
    ensures BroadcastStrides(x, o)[a] == if x[a] == 1 && o[a] != 1 then 0 else Numel(x[a + 1..])
  {
    BroadcastStridesFrom(x, o, a);
    assert BroadcastStrides(x, o)[a..][0] == BroadcastStrides(x, o)[a] && x[a..][1..] == x[a + 1..];
  }

  /** DataCopyMoveAlign. */
  method MoveAlign<V>(t: Tiling, input: Input<V>, ubSplitSize: nat, gmOffset: int, buffer: seq<V>, ghost n: nat)
      returns (r: seq<V>)
    requires InputFits(t, input) && |buffer| >= TileLength(t, n)
    requires input.strides[t.ubSplitAxis] == BroadcastStrides(t.outputDims, t.outputDims)[t.ubSplitAxis]
    requires ubSplitSize == SplitSize(t, Col(t, n)) && gmOffset == SourceOffset(t, input.strides, n)
    ensures r == Overwritten(buffer, TileData(t, input, n))
  {
    hide SourceOffset, Position;
    TilesFollow(t, n);
    PlainTile(t, input, n, 0);
    var length := ubSplitSize * input.strides[t.ubSplitAxis];
    var copied := seq(length, p requires 0 <= p < length => input.mem(gmOffset + p));
    forall p: nat | p < length ensures Position(t, input.strides, p) == p {
      PlainTile(t, input, n, p);
    }
    assert copied == TileData(t, input, n);
    r := Overwritten(buffer, copied);
  }

  // ----- tiles with more dimensions than one copy handles -----

  /** The first dimension that one copy handles. */
  function CopyFrom(t: Tiling): (k: int) {
    |t.outputDims| - NDDMA_MAX_DIMS
  }

  /** The dimensions from the split one on that the loop around the copies handles. */
  function Looped(t: Tiling): (s: Shape)
    requires t.ubSplitAxis < CopyFrom(t)
  {
    t.outputDims[t.ubSplitAxis..CopyFrom(t)]
  }

  function Copied(t: Tiling): (s: Shape)
    requires t.ubSplitAxis < CopyFrom(t)
  {
    t.outputDims[CopyFrom(t)..]
  }

  lemma LoopShape(t: Tiling, size: nat)
    requires Cut(t) && t.ubSplitAxis < CopyFrom(t) && size <= t.outputDims[t.ubSplitAxis]
    ensures Positive(Looped(t)) && Positive(Copied(t)) && Numel(Copied(t)) > 0
    ensures [t.outputDims[t.ubSplitAxis]] + Rest(t) == Looped(t) + Copied(t)
    ensures var m := Numel(t.outputDims[t.ubSplitAxis + 1..CopyFrom(t)]);
      && 0 <= m * size <= Numel(Looped(t)) && m * size * Numel(Copied(t)) == size * Inner(t)
  {
    hide Numel;
    var a, k := t.ubSplitAxis, CopyFrom(t);
    var middle := t.outputDims[a + 1..k];
    NumelPositive(middle);
    NumelPositive(Copied(t));
    InnerIsRest(t);
    assert Rest(t) == middle + Copied(t);
    NumelAppend(middle, Copied(t));
    assert Looped(t) == [t.outputDims[a]] + middle && Looped(t)[1..] == middle;
    NumelFrom(Looped(t), 0);
    assert Looped(t)[0..] == Looped(t) && Looped(t)[0 + 1..] == middle;
    LoopCount(Numel(middle), size, t.outputDims[a], Numel(Copied(t)));
  }

  lemma LoopCount(m: nat, size: nat, d: nat, c: nat)
    requires size <= d
    ensures 0 <= m * size <= d * m && m * size * c == size * (m * c)
  {
    MulMonotone(size, d, m);
    assert m * size == size * m;
    MulAssociates(size, m, c);
  }

  /** What copy i of a tile adds to an address. */
  function LoopAddress(t: Tiling, strides: seq<int>, i: nat): (o: int)
    requires t.ubSplitAxis < CopyFrom(t) && Positive(t.outputDims) && |strides| == |t.outputDims|
  {
    Dot(Unravel(Looped(t), i), strides[t.ubSplitAxis..CopyFrom(t)])
  }

  /** What element q of a copy adds to it. */
  function CopyAddress(t: Tiling, strides: seq<int>, q: nat): (o: int)
    requires 0 <= CopyFrom(t) && Positive(t.outputDims) && |strides| == |t.outputDims|
  {
    Dot(Unravel(t.outputDims[CopyFrom(t)..], q), strides[CopyFrom(t)..])
  }

  /** Element q of copy i of a tile. */
  lemma LoopedAddress(t: Tiling, strides: seq<int>, i: nat, q: nat)
    requires Cut(t) && t.ubSplitAxis < CopyFrom(t) && |strides| == |t.outputDims|
    requires q < Numel(Copied(t)) && i * Numel(Copied(t)) + q < t.outputDims[t.ubSplitAxis] * Inner(t)
    ensures i * Numel(Copied(t)) + q >= 0
    ensures Position(t, strides, i * Numel(Copied(t)) + q) == LoopAddress(t, strides, i) + CopyAddress(t, strides, q)
  {
    hide Numel, Unravel, Position, Inner;
    var a, k, m := t.ubSplitAxis, CopyFrom(t), Numel(Copied(t));
    MulMonotone(0, i, m);
    LoopShape(t, 0);
    var p := i * m + q;
    PositionDigits(t, strides, t.outputDims[a], p);
    UnravelAppend(Looped(t), Copied(t), p);
    DivModUnique(p, i, m, q);
    UnravelPeriodic(Copied(t), q, i);
    assert strides[a..] == strides[a..k] + strides[k..];
    DotAppend(Unravel(Looped(t), i), Unravel(Copied(t), q), strides[a..k], strides[k..]);
  }

  lemma {:induction false} ZeroDigits(s: Shape, d: seq<int>)
    requires Positive(s) && |d| == |s|
    ensures Unravel(s, 0) == seq(|s|, _ => 0) && Dot(Unravel(s, 0), d) == 0
  {
    if s != [] {
      ZeroDigits(s[1..], d[1..]);
      UnravelCons(s, 0);
      NumelPositive(s[1..]);
      DivModUnique(0, 0, Numel(s[1..]), 0);
      DivModUnique(0, 0, s[0], 0);
      assert Unravel(s, 0)[1..] == Unravel(s[1..], 0);
    }
  }

  function Placed<V>(b: seq<V>, at: nat, s: seq<V>): (r: seq<V>)
    requires at + |s| <= |b|
    ensures |r| == |b|
    ensures forall k :: 0 <= k < |b| ==> r[k] == if at <= k < at + |s| then s[k - at] else b[k]
  {
    b[..at] + s + b[at + |s|..]
  }

  /** The first elements of a buffer are those of the data, the others unchanged. */
  ghost predicate Filled<V>(r: seq<V>, buffer: seq<V>, data: seq<V>, done: int) {
    && |r| == |buffer| && 0 <= done <= |data| <= |r|
    && forall p :: 0 <= p < |r| ==> r[p] == if p < done then data[p] else buffer[p]
  }

  lemma FilledMore<V>(r: seq<V>, buffer: seq<V>, data: seq<V>, done: nat, m: nat)
    requires Filled(r, buffer, data, done) && done + m <= |data|
    ensures Filled(Placed(r, done, data[done..done + m]), buffer, data, done + m)
  {}

  lemma FilledAll<V>(r: seq<V>, buffer: seq<V>, data: seq<V>)
    requires |data| <= |buffer|
    ensures Filled(buffer, buffer, data, 0)
    ensures Filled(r, buffer, data, |data|) ==> r == Overwritten(buffer, data)
  {}

  /** Copy i of a tile lands behind the copies before it. */
  lemma CopyLands(t: Tiling, n: nat, i: nat)
    requires Cut(t) && t.ubSplitAxis < CopyFrom(t) && (i + 1) * Numel(Copied(t)) <= TileLength(t, n)
    ensures LoopAddress(t, BroadcastStrides(t.outputDims, t.outputDims), i) == i * Numel(Copied(t)) >= 0
  {
    hide Numel, Position, BroadcastStrides, TileLength, LoopAddress;
    var m, o := Numel(Copied(t)), BroadcastStrides(t.outputDims, t.outputDims);
    var input := Input(_ => 0, t.outputDims, o);
    PartBounds(t, n, i, m);
    PlainTile(t, input, n, i * m);
    LoopedAddress(t, o, i, 0);
    ZeroDigits(Copied(t), o[CopyFrom(t)..]);
  }

  /** Copy i of a tile fetches its part. */
  lemma CopyPart<V>(t: Tiling, input: Input<V>, n: nat, i: nat)
    requires InputFits(t, input) && t.ubSplitAxis < CopyFrom(t)
    requires (i + 1) * Numel(Copied(t)) <= TileLength(t, n)
    ensures var m := Numel(Copied(t));
      && 0 <= i * m <= i * m + m <= TileLength(t, n) == |TileData(t, input, n)|
      && MultiCopy(input.mem, SourceOffset(t, input.strides, n) + LoopAddress(t, input.strides, i),
                   Copied(t), input.strides[CopyFrom(t)..])
         == TileData(t, input, n)[i * m..i * m + m]
  {
    hide Numel, Position, SourceOffset, BroadcastStrides, TileLength, LoopAddress, Dot, Unravel;
    var m := Numel(Copied(t));
    PartBounds(t, n, i, m);
    var copied := MultiCopy(input.mem, SourceOffset(t, input.strides, n) + LoopAddress(t, input.strides, i),
                            Copied(t), input.strides[CopyFrom(t)..]);
    forall q: nat | q < m ensures copied[q] == TileData(t, input, n)[i * m + q] {
      LoopedAddress(t, input.strides, i, q);
    }
  }

  lemma PartBounds(t: Tiling, n: nat, i: nat, m: int)
    requires Cut(t) && t.ubSplitAxis < CopyFrom(t) && m == Numel(Copied(t)) && (i + 1) * m <= TileLength(t, n)
    ensures m > 0 && 0 <= i * m && i * m + m <= TileLength(t, n) <= t.outputDims[t.ubSplitAxis] * Inner(t)
  {
    LoopShape(t, 0);
    MulMonotone(0, i, m);
    assert (i + 1) * m == i * m + m;
    TilesFollow(t, n);
    SplitSizeBound(t, Col(t, n));
    MulMonotone(SplitSize(t, Col(t, n)), t.outputDims[t.ubSplitAxis], Inner(t));
  }

  lemma SplitSizeBound(t: Tiling, col: nat)
    requires Cut(t) && col < t.ubOuter
    ensures SplitSize(t, col) <= t.outputDims[t.ubSplitAxis]
  {
    MulMonotone(0, t.ubOuter - 1, t.ubFormer);
    if col < t.ubOuter - 1 {
      MulMonotone(1, t.ubOuter - 1, t.ubFormer);
    }
  }

  /** The copy at the current indices. */
  method CopyOne<V>(t: Tiling, input: Input<V>, outputStrides: seq<int>, nddmaIndices: array<int>, gmOffset: int,
                    buffer: seq<V>, ghost n: nat, ghost i: nat)
      returns (r: seq<V>)
    requires InputFits(t, input) && t.ubSplitAxis < CopyFrom(t) <= t.ubSplitAxis + nddmaIndices.Length
    requires outputStrides == BroadcastStrides(t.outputDims, t.outputDims)
    requires gmOffset == SourceOffset(t, input.strides, n) && |buffer| >= TileLength(t, n)
    requires (i + 1) * Numel(Copied(t)) <= TileLength(t, n)
    requires nddmaIndices[..CopyFrom(t) - t.ubSplitAxis] == Unravel(Looped(t), i)
    ensures var m := Numel(Copied(t));
      && 0 <= i * m <= i * m + m <= TileLength(t, n) == |TileData(t, input, n)|
      && r == Placed(buffer, i * m, TileData(t, input, n)[i * m..i * m + m])
  {
    hide Numel, Unravel, SourceOffset, BroadcastStrides, Dot, TileData, TileLength, MultiCopy;
    var a, k := t.ubSplitAxis, |t.outputDims| - NDDMA_MAX_DIMS;
    var ubOffset := GetNddmaOffset(nddmaIndices, outputStrides, a, k);
    var srcOffset := GetNddmaOffset(nddmaIndices, input.strides, a, k);
    CopyLands(t, n, i);
    CopyPart(t, input, n, i);
    r := Placed(buffer, ubOffset, MultiCopy(input.mem, gmOffset + srcOffset, t.outputDims[k..], input.strides[k..]));
  }

  /** BroadcastNddmaWithLoop: one copy for every position of the outer dimensions. */
  method CopyWithLoop<V>(t: Tiling, input: Input<V>, outputStrides: seq<int>, ubSplitSize: nat, gmOffset: int,
                         buffer: seq<V>, ghost n: nat)
      returns (r: seq<V>)
    requires InputFits(t, input) && |buffer| >= TileLength(t, n)
    requires t.ubSplitAxis < CopyFrom(t) <= t.ubSplitAxis + NDDMA_THROW_DIMS
    requires outputStrides == BroadcastStrides(t.outputDims, t.outputDims)
    requires ubSplitSize == SplitSize(t, Col(t, n)) && gmOffset == SourceOffset(t, input.strides, n)
    ensures r == Overwritten(buffer, TileData(t, input, n))
  {
    hide Numel, Unravel, SourceOffset, BroadcastStrides, Dot, TileData, SplitSize, TileLength, MultiCopy, Filled,
      Placed, Overwritten;
    var a, k, d := t.ubSplitAxis, |t.outputDims| - NDDMA_MAX_DIMS, t.outputDims;
    ghost var data, m, done := TileData(t, input, n), Numel(Copied(t)), 0;
    SplitSizeBound(t, Col(t, n));
    LoopShape(t, ubSplitSize);
    var nddmaIndices := new int[NDDMA_THROW_DIMS](_ => 0);
    ZeroDigits(Looped(t), outputStrides[a..k]);
    assert nddmaIndices[..k - a] == Unravel(Looped(t), 0);
    var product := FuseAxes(d, a + 1, k);
    var nddmaProduct := product * ubSplitSize;
    LengthIs(t, n, nddmaProduct * m);
    FilledAll(buffer, buffer, data);
    r := buffer;
    var i := 0;
    while i < nddmaProduct
      invariant 0 <= i <= nddmaProduct && |r| == |buffer| && 0 <= done == i * m
      invariant nddmaIndices[..k - a] == Unravel(Looped(t), if i == 0 then 0 else i - 1)
      invariant Filled(r, buffer, data, done)
    {
      if i != 0 {
        UpdateNddmaAxesIndices(nddmaIndices, d, a, k - 1 - a, i - 1);
      }
      PartFits(i, nddmaProduct, m, TileLength(t, n));
      FilledMore(r, buffer, data, done, m);
      r := CopyOne(t, input, outputStrides, nddmaIndices, gmOffset, r, n, i);
      i, done := i + 1, done + m;
    }
    FilledAll(r, buffer, data);
  }

  lemma LengthIs(t: Tiling, n: nat, length: int)
    requires Cut(t) && length == SplitSize(t, Col(t, n)) * Inner(t)
    ensures length == TileLength(t, n)
  {}

  lemma PartFits(i: nat, product: nat, m: int, length: int)
    requires i < product && m > 0 && product * m == length
    ensures (i + 1) * m <= length && (i + 1) * m == i * m + m && 0 <= i * m
  {
    MulMonotone(i + 1, product, m);
    MulMonotone(0, i, m);
  }

  // ----- loading a tile -----

  /** The digits of the tile number address the tile. */
  lemma DigitsAddress(t: Tiling, strides: seq<int>, n: nat, axes: seq<int>)
    requires Cut(t) && |strides| == |t.outputDims| && |axes| > t.ubSplitAxis
    requires Positive(Radices(t.outputDims, t.ubSplitAxis, t.ubOuter))
    requires axes[..t.ubSplitAxis + 1] == Unravel(Radices(t.outputDims, t.ubSplitAxis, t.ubOuter), n)
    ensures axes[t.ubSplitAxis] == Col(t, n)
    ensures SourceOffset(t, strides, n)
         == Dot(axes[..t.ubSplitAxis], strides[..t.ubSplitAxis])
            + axes[t.ubSplitAxis] * strides[t.ubSplitAxis] * t.ubFormer
  {
    hide Unravel, Dot;
    UnravelSnoc(Outer(t), t.ubOuter, n);
    assert axes[..t.ubSplitAxis + 1][..t.ubSplitAxis] == axes[..t.ubSplitAxis];
    assert axes[..t.ubSplitAxis + 1][t.ubSplitAxis] == axes[t.ubSplitAxis];
  }

  /** The array holds the digits of tile n. */
  ghost predicate Holds(t: Tiling, axes: array<int>, n: nat)
    requires t.ubSplitAxis < |t.outputDims|
    reads axes
  {
    && t.ubSplitAxis < axes.Length && Positive(Radices(t.outputDims, t.ubSplitAxis, t.ubOuter))
    && axes[..t.ubSplitAxis + 1] == Unravel(Radices(t.outputDims, t.ubSplitAxis, t.ubOuter), n)
  }

  /** Loads tile n to the front of a buffer, with a copy for a broadcast input that fits
      its dimensions. */
  method LoadTile<V>(t: Tiling, input: Input<V>, outputStrides: seq<int>, axes: array<int>, ubSplitSize: nat,
                     buffer: seq<V>, ghost n: nat)
      returns (r: seq<V>)
    requires InputFits(t, input) && |buffer| >= TileLength(t, n)
    requires |t.outputDims| <= NDDMA_MAX_DIMS + NDDMA_THROW_DIMS
    requires outputStrides == BroadcastStrides(t.outputDims, t.outputDims)
    requires Holds(t, axes, n) && ubSplitSize == SplitSize(t, Col(t, n))
    ensures r == Overwritten(buffer, TileData(t, input, n))
  {
    hide SourceOffset, BroadcastStrides, Dot, Unravel, MultiCopy, TileLength, TileData;
    var a := t.ubSplitAxis;
    DigitsAddress(t, input.strides, n, axes[..]);
    assert axes[..][..a + 1] == axes[..a + 1] && axes[..][..a] == axes[..a];
    var gmOffset := GetGmOffset(axes, input.strides, a, t.ubFormer);
    if outputStrides[a] != input.strides[a] {
      if |t.outputDims| - a > NDDMA_MAX_DIMS {
        r := CopyWithLoop(t, input, outputStrides, ubSplitSize, gmOffset, buffer, n);
      } else {
        CopyIsTile(t, input, n);
        r := Overwritten(buffer,
          MultiCopy(input.mem, gmOffset, [ubSplitSize] + t.outputDims[a + 1..], input.strides[a..]));
      }
    } else {
      r := MoveAlign(t, input, ubSplitSize, gmOffset, buffer, n);
    }
  }

  /** With the output's strides, the address of a tile is where its output starts. */
  lemma OutputAddress(t: Tiling, n: nat)
    requires Cut(t) && n < Tiles(t)
    ensures SourceOffset(t, BroadcastStrides(t.outputDims, t.outputDims), n) == OutOffset(t, n)
    ensures BroadcastStrides(t.outputDims, t.outputDims)[t.ubSplitAxis] == Inner(t)
  {
    hide BroadcastStrides, SourceOffset, Position, OutOffset, TileLength, Tiles, Numel, Unravel, Dot;
    var o, d := BroadcastStrides(t.outputDims, t.outputDims), Unravel(t.outputDims, OutOffset(t, n));
    TileInside(t, n);
    TileAddress(t, o, n, 0);
    PlainTile(t, Input(_ => 0, t.outputDims, o), n, 0);
    DotIsRavel(t.outputDims, d);
    RavelUnravel(t.outputDims, OutOffset(t, n));
    DivModUnique(OutOffset(t, n), 0, Numel(t.outputDims), OutOffset(t, n));
  }
}
