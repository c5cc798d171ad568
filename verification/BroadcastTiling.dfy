/** Host tiling of a multi-dimensional broadcast: one dimension of the output is cut so
    that a tile fits the local buffer, and the tiles are dealt to the cores. */
module BroadcastTiling {
  import opened Arith
  import opened AxesIndices
  import BroadcastIndex
  import opened Shapes
  import opened Wrappers

  const BROADCAST_BITS_NUM: nat := 8
  const BROADCAST_REPEAT_BYTES: nat := 256

  /** Dimension ubSplitAxis is cut into ubOuter parts of ubFormer, the last one ubTail; the
      tiles of all outer positions go to blockNum cores, blockFormer each, the last blockTail. */
  datatype Tiling = Tiling(outputDims: Shape, ubSplitAxis: nat, ubFormer: nat, ubOuter: nat, ubTail: nat,
                           blockFormer: nat, blockNum: nat, blockTail: nat,
                           dimProductBeforeUbInner: nat, elemNum: nat)

  /** Elements behind the split dimension. */
  function Inner(t: Tiling): (m: int)
    requires t.ubSplitAxis < |t.outputDims|
  {
    Numel(t.outputDims[t.ubSplitAxis + 1..])
  }

  /** The number of tiles. */
  function Tiles(t: Tiling): (n: int)
    requires t.ubSplitAxis < |t.outputDims|
  {
    Numel(Radices(t.outputDims, t.ubSplitAxis, t.ubOuter))
  }

  /** The parts make up the split dimension, a tile fits the buffer, and the cores'
      shares make up the tiles. */
  ghost predicate Exact(t: Tiling, cores: nat) {
    && Positive(t.outputDims) && t.ubSplitAxis < |t.outputDims|
    && 1 <= t.ubTail <= t.ubFormer && 1 <= t.ubOuter
    && (t.ubOuter - 1) * t.ubFormer + t.ubTail == t.outputDims[t.ubSplitAxis]
    && t.ubFormer * Inner(t) <= t.elemNum && t.dimProductBeforeUbInner == Tiles(t)
    && 1 <= t.blockTail <= t.blockFormer && 1 <= t.blockNum <= cores
    && (t.blockNum - 1) * t.blockFormer + t.blockTail == Tiles(t)
  }

  /** No tile could be larger: neither more of the split dimension nor one more whole
      dimension fits the buffer. */
  ghost predicate Largest(t: Tiling)
    requires t.ubSplitAxis < |t.outputDims|
  {
    && (t.ubFormer + 1) * Inner(t) > t.elemNum
    && (t.ubSplitAxis > 0 ==> Numel(t.outputDims[t.ubSplitAxis..]) > t.elemNum)
  }

  /** The tiles are dealt evenly: with a smaller largest share the cores could not take them all. */
  ghost predicate Balanced(t: Tiling, cores: nat)
    requires t.ubSplitAxis < |t.outputDims|
  {
    (t.blockFormer - 1) * cores < Tiles(t)
  }

  /** A repeat is as many elements as a full vector instruction takes. */
  ghost predicate IsRepeat(repeat: nat, minDtypeBits: nat) {
    repeat >= 1 && repeat * minDtypeBits <= BROADCAST_REPEAT_BYTES * BROADCAST_BITS_NUM < (repeat + 1) * minDtypeBits
  }

  /** Buffers of n elements are whole repeats and fit so many bytes, and one repeat more would not. */
  ghost predicate FillsMemory(n: nat, repeat: nat, bytes: nat, bufferDivisor: nat) {
    && repeat >= 1 && n % repeat == 0
    && n * bufferDivisor <= bytes * BROADCAST_BITS_NUM < (n + repeat) * bufferDivisor
  }

  /** Elements of the smallest type in one repeat. */
  function RepeatElements(minDtypeBits: nat): (n: nat)
    requires 1 <= minDtypeBits <= BROADCAST_REPEAT_BYTES * BROADCAST_BITS_NUM
    ensures IsRepeat(n, minDtypeBits)
  {
    FloorAtLeast(BROADCAST_REPEAT_BYTES * BROADCAST_BITS_NUM, minDtypeBits, 1);
    FloorBounds(BROADCAST_REPEAT_BYTES * BROADCAST_BITS_NUM, minDtypeBits);
    BROADCAST_REPEAT_BYTES * BROADCAST_BITS_NUM / minDtypeBits
  }

  function WholeParts(n: nat, d: nat): (m: nat)
    requires d > 0
  {
    n / d * d
  }

  /** BroadcastGetMaxElemNum: elements per buffer, in whole repeats. */
  function MaxElemNum(ubSize: nat, bufferDivisor: nat, minDtypeBits: nat): (n: nat)
    requires bufferDivisor > 0 && 1 <= minDtypeBits <= BROADCAST_REPEAT_BYTES * BROADCAST_BITS_NUM
  {
    WholeParts(ubSize * BROADCAST_BITS_NUM / bufferDivisor, RepeatElements(minDtypeBits))
  }

  lemma FloorBounds(n: nat, d: nat)
    requires d > 0
    ensures n / d * d <= n < (n / d + 1) * d
  {
    assert (n / d + 1) * d == n / d * d + d;
  }

  /** The buffers fill the memory up to less than one repeat, so there is an element exactly
      if one repeat fits. */
  lemma MaxElemNumFills(bytes: nat, bufferDivisor: nat, minDtypeBits: nat)
    requires bufferDivisor > 0 && 1 <= minDtypeBits <= BROADCAST_REPEAT_BYTES * BROADCAST_BITS_NUM
    ensures var n, repeat := MaxElemNum(bytes, bufferDivisor, minDtypeBits), RepeatElements(minDtypeBits);
      && FillsMemory(n, repeat, bytes, bufferDivisor)
      && (n > 0 <==> repeat * bufferDivisor <= bytes * BROADCAST_BITS_NUM)
  {
    var repeat, bits := RepeatElements(minDtypeBits), bytes * BROADCAST_BITS_NUM;
    var whole := bits / bufferDivisor;
    var k := whole / repeat;
    var n := k * repeat;
    FloorBounds(bits, bufferDivisor);
    FloorBounds(whole, repeat);
    DivModUnique(n, k, repeat, 0);
    assert n <= whole && whole + 1 <= n + repeat;
    MulMonotone(n, whole, bufferDivisor);
    MulMonotone(whole + 1, n + repeat, bufferDivisor);
    if n > 0 {
      MulMonotone(1, k, repeat);
      MulMonotone(repeat, n, bufferDivisor);
    }
  }

  /** The dimension to cut and the number of elements behind it. */
  method SplitAxis(dims: Shape, maxElemNum: nat) returns (axis: nat, inner: nat)
    requires dims != [] && Positive(dims) && maxElemNum > 0
    ensures axis < |dims| && 1 <= inner == Numel(dims[axis + 1..]) <= maxElemNum
    ensures axis > 0 ==> Numel(dims[axis..]) > maxElemNum
  {
    var curProduct, flag := 1, true;
    axis := 0;
    var i := |dims|;
    assert dims[i..] == [];
    while i > 0 && flag
      invariant 0 <= i <= |dims|
      invariant flag ==> axis == 0 && 1 <= curProduct == Numel(dims[i..]) <= maxElemNum
      invariant !flag ==> axis == i < |dims| && 1 <= curProduct == Numel(dims[i + 1..]) <= maxElemNum < Numel(dims[i..])
      decreases i, flag
    {
      i := i - 1;
      NumelFrom(dims, i);
      NumelPositive(dims[i + 1..]);
      MulMonotone(1, dims[i], curProduct);
      curProduct := curProduct * dims[i];
      if curProduct > maxElemNum {
        ProductQuotient(Numel(dims[i + 1..]), dims[i]);
        curProduct := curProduct / dims[i];
        axis := i;
        flag := false;
      }
    }
    if flag {
      NumelFrom(dims, 0);
      NumelPositive(dims[1..]);
      MulMonotone(1, dims[0], Numel(dims[1..]));
      ProductQuotient(Numel(dims[1..]), dims[0]);
      curProduct := curProduct / dims[0];
    }
    inner := curProduct;
  }

  lemma ProductQuotient(a: int, d: int)
    requires d > 0
    ensures a * d / d == a && d * a / d == a
  {
    DivModUnique(a * d, a, d, 0);
  }

  /** Rounding up and the rest of the last part. */
  lemma CeilAndTail(n: nat, d: nat)
    requires n > 0 && d > 0
    ensures var k := (n + d - 1) / d; k >= 1 && 1 <= n - (k - 1) * d <= d
  {
    CeilDiv(n, d);
    var k := (n + d - 1) / d;
    assert (k - 1) * d == k * d - d;
  }

  /** Cuts the output and deals the tiles; fails exactly if not even one repeat fits or
      there is no core. */
  method DoBroadcastTiling(dims: Shape, ubSize: int, extraSize: int, bufferDivisor: nat, minDtypeBits: nat,
    coreNum: nat)
      returns (r: Result<Tiling>)
    requires dims != [] && Positive(dims)
    requires bufferDivisor > 0 && 1 <= minDtypeBits <= BROADCAST_REPEAT_BYTES * BROADCAST_BITS_NUM
    ensures r.Err? <==>
      || ubSize < extraSize || coreNum == 0
      || RepeatElements(minDtypeBits) * bufferDivisor > (ubSize - extraSize) * BROADCAST_BITS_NUM
    ensures r.Ok? ==> r.value.outputDims == dims && Exact(r.value, coreNum) && Largest(r.value)
    ensures r.Ok? ==> Balanced(r.value, coreNum)
    ensures r.Ok? ==> r.value.elemNum == MaxElemNum(ubSize - extraSize, bufferDivisor, minDtypeBits)
    ensures r.Ok? ==> FillsMemory(r.value.elemNum, RepeatElements(minDtypeBits), ubSize - extraSize, bufferDivisor)
  {
    hide MaxElemNum, Radices, FillsMemory, RepeatElements;
    if ubSize < extraSize {
      return Err;
    }
    MaxElemNumFills(ubSize - extraSize, bufferDivisor, minDtypeBits);
    var maxElemNum := MaxElemNum(ubSize - extraSize, bufferDivisor, minDtypeBits);
    if maxElemNum == 0 {
      return Err;
    }
    var axis, inner := SplitAxis(dims, maxElemNum);
    var ubFormer := if |dims| == 1 then maxElemNum else maxElemNum / inner;
    LargestShare(dims, axis, maxElemNum, inner, ubFormer);
    CeilAndTail(dims[axis], ubFormer);
    var ubOuter := (dims[axis] + ubFormer - 1) / ubFormer;
    var ubTail := dims[axis] - (ubOuter - 1) * ubFormer;
    var fusedProduct := ubOuter;
    assert dims[..0] == [];
    for i := 0 to axis
      invariant fusedProduct == ubOuter * Numel(dims[..i]) > 0
    {
      assert dims[..i + 1] == dims[..i] + [dims[i]];
      ScaledSnoc(dims[..i], dims[i], ubOuter);
      fusedProduct := fusedProduct * dims[i];
    }
    RadicesNumel(dims, axis, ubOuter);
    if coreNum == 0 {
      return Err;
    }
    CeilAndTail(fusedProduct, coreNum);
    CeilDiv(fusedProduct, coreNum);
    var blockFormer := (fusedProduct + coreNum - 1) / coreNum;
    CeilAndTail(fusedProduct, blockFormer);
    var blockNum := (fusedProduct + blockFormer - 1) / blockFormer;
    CoresSuffice(fusedProduct, coreNum);
    var blockTail := fusedProduct - (blockNum - 1) * blockFormer;
    r := Ok(Tiling(dims, axis, ubFormer, ubOuter, ubTail, blockFormer, blockNum, blockTail, fusedProduct, maxElemNum));
  }

  lemma CoresSuffice(n: nat, cores: nat)
    requires n > 0 && cores > 0
    ensures var b := (n + cores - 1) / cores; b > 0 && (n + b - 1) / b <= cores
  {
    CeilDiv(n, cores);
    var b := (n + cores - 1) / cores;
    CeilAndTail(n, cores);
    CeilDivLeast(n, b, cores);
  }

  lemma LargestShare(dims: Shape, axis: nat, maxElemNum: nat, inner: nat, ubFormer: nat)
    requires axis < |dims| && 1 <= inner == Numel(dims[axis + 1..]) <= maxElemNum
    requires ubFormer == if |dims| == 1 then maxElemNum else maxElemNum / inner
    ensures ubFormer >= 1 && ubFormer * inner <= maxElemNum < (ubFormer + 1) * inner
  {
    FloorAtLeast(maxElemNum, inner, 1);
    if |dims| == 1 {
      assert dims[axis + 1..] == [];
    } else {
      assert (maxElemNum / inner + 1) * inner == maxElemNum / inner * inner + inner;
    }
  }

  lemma ScaledSnoc(s: Shape, d: int, u: int)
    requires d > 0 && u * Numel(s) > 0
    ensures u * Numel(s + [d]) == u * Numel(s) * d > 0
  {
    BroadcastIndex.NumelSnoc(s, d);
    MulAssociates(u, Numel(s), d);
    MulPositive(u * Numel(s), d);
  }

  lemma RadicesNumel(dims: Shape, axis: nat, outer: int)
    requires axis <= |dims|
    ensures Numel(Radices(dims, axis, outer)) == outer * Numel(dims[..axis])
  {
    BroadcastIndex.NumelSnoc(dims[..axis], outer);
  }
}
