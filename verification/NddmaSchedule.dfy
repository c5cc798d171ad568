/** The multi-dimensional broadcast kernel: every core walks its tiles, and an input that
    is broadcast along the split dimension is not loaded again for every tile. */
module NddmaSchedule {
  import opened Arith
  import opened AxesIndices
  import opened BroadcastTiling
  import opened KernelMemory
  import opened NddmaCopy
  import opened Shapes
  import opened Strides
  import opened TileAddressing

  const BROADCAST_MAX_DIMS: nat := 8

  /** The launch parameters: the tiling, the strides of the output, the inputs, for each
      input whether ping and pong share one buffer, and the element-wise computation. */
  datatype Launch<!V> = Launch(tiling: Tiling, outputStrides: seq<int>, inputs: seq<Input<V>>, shared: seq<bool>,
                               compute: seq<V> -> V)

  ghost predicate AllFit<V>(l: Launch<V>) {
    forall q :: 0 <= q < |l.inputs| ==> InputFits(l.tiling, l.inputs[q])
  }

  ghost predicate WellFormed<V>(l: Launch<V>, cores: nat) {
    && Exact(l.tiling, cores) && |l.tiling.outputDims| <= BROADCAST_MAX_DIMS && |l.shared| == |l.inputs|
    && l.outputStrides == BroadcastStrides(l.tiling.outputDims, l.tiling.outputDims) && AllFit(l)
  }

  /** The input values that meet at output element j. */
  function Operands<V>(l: Launch<V>, j: nat): (vs: seq<V>)
    requires Positive(l.tiling.outputDims)
    requires forall p :: 0 <= p < |l.inputs| ==> |l.inputs[p].strides| == |l.tiling.outputDims|
    ensures |vs| == |l.inputs|
    ensures forall p :: 0 <= p < |vs| ==>
      vs[p] == l.inputs[p].mem(Dot(Unravel(l.tiling.outputDims, j), l.inputs[p].strides))
  {
    seq(|l.inputs|, p requires 0 <= p < |l.inputs| =>
      l.inputs[p].mem(Dot(Unravel(l.tiling.outputDims, j), l.inputs[p].strides)))
  }

  ghost function Results<V>(l: Launch<V>, cores: nat): (vs: seq<V>)
    requires WellFormed(l, cores)
    ensures |vs| == Numel(l.tiling.outputDims) && forall j :: 0 <= j < |vs| ==> vs[j] == l.compute(Operands(l, j))
  {
    NumelPositive(l.tiling.outputDims);
    seq(Numel(l.tiling.outputDims), j requires 0 <= j < Numel(l.tiling.outputDims) => l.compute(Operands(l, j)))
  }

  // ----- the tiles of a core -----

  /** The number of the tile a core handles in round i. */
  function TileNo(t: Tiling, blockIdx: nat, i: nat): (n: nat) {
    t.blockFormer * blockIdx + i
  }

  function Loops(t: Tiling, blockIdx: nat): (n: nat) {
    if blockIdx == t.blockNum - 1 then t.blockTail else t.blockFormer
  }

  /** The cores' shares follow each other and end at the number of tiles. */
  lemma SharesFollow(t: Tiling, cores: nat, b: nat)
    requires Exact(t, cores) && b < t.blockNum
    ensures TileNo(t, b, Loops(t, b)) == if b == t.blockNum - 1 then Tiles(t) else TileNo(t, b + 1, 0)
    ensures TileNo(t, b, Loops(t, b)) <= Tiles(t)
  {
    var f := t.blockFormer;
    assert f * (b + 1) == f * b + f && f * (t.blockNum - 1) == (t.blockNum - 1) * f;
    if b < t.blockNum - 1 {
      MulMonotone(b + 1, t.blockNum - 1, f);
      assert (b + 1) * f == f * (b + 1);
    }
  }

  /** Where the output of a core starts. */
  ghost function BlockOffset(t: Tiling, cores: nat, b: nat): (o: nat)
    requires Exact(t, cores) && b <= t.blockNum
  {
    if b == t.blockNum then
      NumelPositive(t.outputDims);
      Numel(t.outputDims)
    else
      CoreTiles(t, cores, b);
      OutOffset(t, TileNo(t, b, 0))
  }

  /** The cores' outputs follow each other, from zero to the end. */
  lemma BlocksFollow(t: Tiling, cores: nat, b: nat)
    requires Exact(t, cores) && b < t.blockNum
    ensures BlockOffset(t, cores, 0) == 0 && BlockOffset(t, cores, t.blockNum) == Numel(t.outputDims)
    ensures BlockOffset(t, cores, b) == OutOffset(t, TileNo(t, b, 0))
    ensures BlockOffset(t, cores, b) <= BlockOffset(t, cores, b + 1) == OutOffset(t, TileNo(t, b, Loops(t, b)))
  {
    hide OutOffset, Tiles;
    assert TileNo(t, 0, 0) == 0;
    TilesCover(t);
    SharesFollow(t, cores, b);
    OffsetsAscend(t, TileNo(t, b, 0), TileNo(t, b, Loops(t, b)));
  }

  /** The first tile of a core. */
  lemma CoreTiles(t: Tiling, cores: nat, b: nat)
    requires Exact(t, cores) && b < t.blockNum
    ensures TileNo(t, b, 0) < Tiles(t) && 0 <= OutOffset(t, TileNo(t, b, 0)) <= Numel(t.outputDims)
  {
    hide OutOffset, Tiles, TileLength;
    SharesFollow(t, cores, b);
    TileInside(t, TileNo(t, b, 0));
  }

  /** The tile of round i follows that of the round before. */
  lemma CoreTile(t: Tiling, cores: nat, b: nat, i: nat)
    requires Exact(t, cores) && b < t.blockNum && i < Loops(t, b)
    ensures TileNo(t, b, i) < Tiles(t) && Positive(Radices(t.outputDims, t.ubSplitAxis, t.ubOuter))
    ensures 0 <= OutOffset(t, TileNo(t, b, i)) <= OutOffset(t, TileNo(t, b, i + 1))
    ensures TileNo(t, b, i + 1) == TileNo(t, b, i) + 1
  {
    hide OutOffset, Tiles;
    SharesFollow(t, cores, b);
    TilesFollow(t, TileNo(t, b, i));
  }

  /** The last digit of a tile number says which part of the split dimension it covers. */
  lemma HoldsColumn(t: Tiling, axes: seq<int>, n: nat)
    requires Cut(t) && t.ubSplitAxis < |axes| && Positive(Radices(t.outputDims, t.ubSplitAxis, t.ubOuter))
    requires axes[..t.ubSplitAxis + 1] == Unravel(Radices(t.outputDims, t.ubSplitAxis, t.ubOuter), n)
    ensures axes[t.ubSplitAxis] == Col(t, n)
  {
    DigitsAddress(t, BroadcastStrides(t.outputDims, t.outputDims), n, axes);
  }

  // ----- reloading -----

  /** The condition under which round i loads the input. */
  predicate Reloads(t: Tiling, stride: int, blockIdx: nat, i: nat)
    requires t.ubOuter > 0
  {
    stride != 0 || i <= 1 || (blockIdx * t.blockFormer + i) % t.ubOuter <= 1
  }

  /** The last earlier round that used the buffer of round i. */
  function PreviousUse(shared: bool, i: nat): (j: int) {
    if shared then i - 1 else i - 2
  }

  /** A skipped load is harmless: the buffer was last filled in the same row, by a
      tile that is not the short one, so with at least as many elements as needed now. */
  lemma SkipIsSafe(t: Tiling, stride: int, shared: bool, blockIdx: nat, i: nat)
    requires Cut(t) && !Reloads(t, stride, blockIdx, i)
    ensures stride == 0 && PreviousUse(shared, i) >= 0
    ensures var n, m := TileNo(t, blockIdx, i), TileNo(t, blockIdx, PreviousUse(shared, i));
      && Row(t, m) == Row(t, n) && Col(t, m) < Col(t, n)
      && SplitSize(t, Col(t, m)) == t.ubFormer >= SplitSize(t, Col(t, n))
  {
    var n := TileNo(t, blockIdx, i);
    assert blockIdx * t.blockFormer + i == n;
    assert Col(t, n) > 1;
    NextTile(t, n - 1);
    NextTile(t, n - 2);
  }

  /** Nothing is loaded without need: round i loads exactly if the input is not broadcast
      along the split dimension, or two rounds ago there was none or it was in another row. */
  lemma ReloadsIff(t: Tiling, stride: int, blockIdx: nat, i: nat)
    requires Cut(t)
    ensures Reloads(t, stride, blockIdx, i) <==>
      stride != 0 || i < 2 || Row(t, TileNo(t, blockIdx, i - 2)) != Row(t, TileNo(t, blockIdx, i))
  {
    if i >= 2 {
      var n := TileNo(t, blockIdx, i);
      assert blockIdx * t.blockFormer + i == n;
      NextTile(t, n - 1);
      NextTile(t, n - 2);
    }
  }

  /** A tile of an input broadcast along the split dimension is the prefix of any other
      tile of the same row that is at least as long. */
  lemma SameRowData<V>(t: Tiling, input: Input<V>, m: nat, n: nat)
    requires InputFits(t, input) && input.strides[t.ubSplitAxis] == 0 && Row(t, m) == Row(t, n)
    requires SplitSize(t, Col(t, n)) <= SplitSize(t, Col(t, m))
    ensures TileData(t, input, n) <= TileData(t, input, m)
  {
    hide Row, Col, Position, SourceOffset;
    TilesFollow(t, n);
    MulMonotone(SplitSize(t, Col(t, n)), SplitSize(t, Col(t, m)), Inner(t));
    SameRowOffset(t, input.strides, m, n);
    assert TileData(t, input, n) == TileData(t, input, m)[..TileLength(t, n)];
  }

  lemma SameRowOffset(t: Tiling, strides: seq<int>, m: nat, n: nat)
    requires Cut(t) && |strides| == |t.outputDims| && strides[t.ubSplitAxis] == 0 && Row(t, m) == Row(t, n)
    ensures SourceOffset(t, strides, m) == SourceOffset(t, strides, n)
  {
    hide Row, Col, Dot, Unravel;
    assert Col(t, n) * 0 * t.ubFormer == 0 == Col(t, m) * 0 * t.ubFormer;
  }

  // ----- buffers -----

  ghost predicate Sized<V>(l: Launch<V>, buffers: seq<seq<V>>) {
    && |l.shared| == |l.inputs| && |buffers| == 2 * |l.inputs|
    && forall k :: 0 <= k < |buffers| ==> |buffers[k]| == l.tiling.elemNum
  }

  /** The buffer of input p in the phase of round i starts with tile n. */
  ghost predicate Loaded<V>(l: Launch<V>, buffers: seq<seq<V>>, p: nat, i: nat, n: nat)
    requires Sized(l, buffers) && p < |l.inputs| && InputFits(l.tiling, l.inputs[p])
  {
    TileData(l.tiling, l.inputs[p], n) <= buffers[BufId(l.shared, p, i % 2)]
  }

  /** The buffer that round i will use for input p holds the tile of its previous use. */
  ghost predicate Retained<V>(l: Launch<V>, buffers: seq<seq<V>>, b: nat, p: nat, i: nat)
    requires Sized(l, buffers) && p < |l.inputs| && InputFits(l.tiling, l.inputs[p])
  {
    PreviousUse(l.shared[p], i) >= 0 ==> Loaded(l, buffers, p, i, TileNo(l.tiling, b, PreviousUse(l.shared[p], i)))
  }

  /** So do the buffers of both phases, from round i on. */
  ghost predicate Prepared<V>(l: Launch<V>, buffers: seq<seq<V>>, b: nat, p: nat, i: nat)
    requires Sized(l, buffers) && p < |l.inputs| && InputFits(l.tiling, l.inputs[p])
  {
    Retained(l, buffers, b, p, i) && (!l.shared[p] ==> Retained(l, buffers, b, p, i + 1))
  }

  ghost predicate SameBuffers<V>(l: Launch<V>, a: seq<seq<V>>, b: seq<seq<V>>, q: nat)
    requires Sized(l, a) && Sized(l, b) && q < |l.inputs|
  {
    a[BufId(l.shared, q, 0)] == b[BufId(l.shared, q, 0)] && a[BufId(l.shared, q, 1)] == b[BufId(l.shared, q, 1)]
  }

  lemma TileFits<V>(l: Launch<V>, cores: nat, n: nat)
    requires WellFormed(l, cores)
    ensures Cut(l.tiling) && 0 < TileLength(l.tiling, n) <= l.tiling.elemNum
  {
    var t := l.tiling;
    TilesFollow(t, n);
    MulMonotone(SplitSize(t, Col(t, n)), t.ubFormer, Inner(t));
  }

  /** The buffers after the copy-in of input p in round i. */
  ghost function CopiedIn<V>(l: Launch<V>, cores: nat, buffers: seq<seq<V>>, b: nat, p: nat, i: nat): (r: seq<seq<V>>)
    requires WellFormed(l, cores) && Sized(l, buffers) && p < |l.inputs|
  {
    var t, id := l.tiling, BufId(l.shared, p, i % 2);
    TileFits(l, cores, TileNo(t, b, i));
    if Reloads(t, l.inputs[p].strides[t.ubSplitAxis], b, i)
    then buffers[id := Overwritten(buffers[id], TileData(t, l.inputs[p], TileNo(t, b, i)))]
    else buffers
  }

  /** The tile of round i is in place, loaded or retained, and the buffers are prepared
      for the rounds after it. */
  lemma CopyInStep<V>(l: Launch<V>, cores: nat, buffers: seq<seq<V>>, b: nat, p: nat, i: nat)
    requires WellFormed(l, cores) && Sized(l, buffers) && p < |l.inputs| && Prepared(l, buffers, b, p, i)
    ensures var r := CopiedIn(l, cores, buffers, b, p, i);
      && Sized(l, r) && Loaded(l, r, p, i, TileNo(l.tiling, b, i)) && Prepared(l, r, b, p, i + 1)
      && forall q: nat :: q < |l.inputs| && q != p ==> SameBuffers(l, buffers, r, q)
  {
    hide TileData, TileLength, Row, Col, TileNo, Exact, BufId;
    BufIdsDiffer(l.shared);
    var t, input, n := l.tiling, l.inputs[p], TileNo(l.tiling, b, i);
    assert InputFits(t, input);
    TileFits(l, cores, n);
    if !Reloads(t, input.strides[t.ubSplitAxis], b, i) {
      SkipIsSafe(t, input.strides[t.ubSplitAxis], l.shared[p], b, i);
      SameRowData(t, input, TileNo(t, b, PreviousUse(l.shared[p], i)), n);
    }
    assert (i + 2) % 2 == i % 2;
  }

  /** Different inputs never share a buffer, and an input uses one or two. */
  lemma BufIdsDiffer(shared: seq<bool>)
    ensures forall p: nat, q: nat, f: nat, g: nat :: p < |shared| && q < |shared| && f < 2 && g < 2 ==>
      (BufId(shared, p, f) == BufId(shared, q, g) <==> p == q && (shared[p] || f == g))
  {}

  lemma NothingRetained<V>(l: Launch<V>, buffers: seq<seq<V>>, b: nat, p: nat)
    requires Sized(l, buffers) && p < |l.inputs| && InputFits(l.tiling, l.inputs[p])
    ensures Prepared(l, buffers, b, p, 0)
  {}

  // ----- one round -----

  lemma KeptBySame<V>(l: Launch<V>, a: seq<seq<V>>, b: seq<seq<V>>, blockIdx: nat, q: nat, i: nat, n: nat)
    requires Sized(l, a) && Sized(l, b) && q < |l.inputs| && InputFits(l.tiling, l.inputs[q]) && SameBuffers(l, a, b, q)
    ensures Prepared(l, a, blockIdx, q, i) ==> Prepared(l, b, blockIdx, q, i)
    ensures Prepared(l, a, blockIdx, q, i + 1) ==> Prepared(l, b, blockIdx, q, i + 1)
    ensures Loaded(l, a, q, i, n) ==> Loaded(l, b, q, i, n)
  {
    hide TileData, BufId, TileNo;
  }

  ghost predicate AllPrepared<V>(l: Launch<V>, buffers: seq<seq<V>>, b: nat, i: nat)
    requires Sized(l, buffers) && AllFit(l)
  {
    forall q: nat :: q < |l.inputs| ==> Prepared(l, buffers, b, q, i)
  }

  ghost predicate AllLoaded<V>(l: Launch<V>, buffers: seq<seq<V>>, i: nat, n: nat)
    requires Sized(l, buffers) && AllFit(l)
  {
    forall q: nat :: q < |l.inputs| ==> Loaded(l, buffers, q, i, n)
  }

  /** Input q has its tile of round i, and is prepared for the rounds after it. */
  ghost predicate Done<V>(l: Launch<V>, buffers: seq<seq<V>>, b: nat, q: nat, i: nat)
    requires Sized(l, buffers) && q < |l.inputs| && InputFits(l.tiling, l.inputs[q])
  {
    Loaded(l, buffers, q, i, TileNo(l.tiling, b, i)) && Prepared(l, buffers, b, q, i + 1)
  }

  /** The inputs before p have been copied in, the others are prepared. */
  ghost predicate Progress<V>(l: Launch<V>, buffers: seq<seq<V>>, b: nat, p: nat, i: nat)
    requires Sized(l, buffers) && AllFit(l)
  {
    && (forall q: nat :: q < |l.inputs| && q < p ==> Done(l, buffers, b, q, i))
    && (forall q: nat :: p <= q < |l.inputs| ==> Prepared(l, buffers, b, q, i))
  }

  lemma AllNothingRetained<V>(l: Launch<V>, buffers: seq<seq<V>>, b: nat)
    requires Sized(l, buffers) && AllFit(l)
    ensures AllPrepared(l, buffers, b, 0)
  {
    forall q: nat | q < |l.inputs| ensures Prepared(l, buffers, b, q, 0) {
      NothingRetained(l, buffers, b, q);
    }
  }

  lemma ProgressStart<V>(l: Launch<V>, buffers: seq<seq<V>>, b: nat, i: nat)
    requires Sized(l, buffers) && AllFit(l) && AllPrepared(l, buffers, b, i)
    ensures Progress(l, buffers, b, 0, i)
  {
    hide Prepared;
  }

  lemma ProgressEnd<V>(l: Launch<V>, buffers: seq<seq<V>>, b: nat, i: nat, n: nat, next: nat)
    requires Sized(l, buffers) && AllFit(l) && Progress(l, buffers, b, |l.inputs|, i)
    requires n == TileNo(l.tiling, b, i) && next == i + 1
    ensures AllLoaded(l, buffers, i, n) && AllPrepared(l, buffers, b, next)
  {
    hide Prepared, Loaded;
    forall q: nat | q < |l.inputs|
      ensures Loaded(l, buffers, q, i, n)
      ensures Prepared(l, buffers, b, q, next)
    {
      assert Done(l, buffers, b, q, i);
    }
  }

  lemma ProgressStep<V>(l: Launch<V>, cores: nat, buffers: seq<seq<V>>, b: nat, p: nat, i: nat)
    requires WellFormed(l, cores) && Sized(l, buffers) && p < |l.inputs| && Progress(l, buffers, b, p, i)
    ensures Sized(l, CopiedIn(l, cores, buffers, b, p, i))
    ensures Progress(l, CopiedIn(l, cores, buffers, b, p, i), b, p + 1, i)
  {
    hide Prepared, Loaded, CopiedIn, SameBuffers, Exact, Cut, TileNo;
    CopyInStep(l, cores, buffers, b, p, i);
    var r := CopiedIn(l, cores, buffers, b, p, i);
    forall q: nat | q < |l.inputs| && q != p
      ensures Done(l, buffers, b, q, i) ==> Done(l, r, b, q, i)
      ensures Prepared(l, buffers, b, q, i) ==> Prepared(l, r, b, q, i)
    {
      assert SameBuffers(l, buffers, r, q);
      KeptBySame(l, buffers, r, b, q, i, TileNo(l.tiling, b, i));
    }
    assert Done(l, r, b, p, i);
    forall q: nat | q < p + 1 ensures Done(l, r, b, q, i) {
      assert q != p ==> Done(l, buffers, b, q, i);
    }
    forall q: nat | p + 1 <= q < |l.inputs| ensures Prepared(l, r, b, q, i) {
      assert Prepared(l, buffers, b, q, i);
    }
  }

  // ----- one core -----

  class Core<V> {
    const launch: Launch<V>
    const blockIdx: nat
    var buffers: seq<seq<V>>

    /** The buffers start with whatever the local memory holds. */
    constructor (l: Launch<V>, b: nat, memory: seq<seq<V>>)
      ensures launch == l && blockIdx == b && buffers == memory
    {
      launch, blockIdx, buffers := l, b, memory;
    }

    ghost predicate Ready(cores: nat)
      reads this
    {
      WellFormed(launch, cores) && Sized(launch, buffers) && blockIdx < launch.tiling.blockNum
    }

    /** The tile of round i. */
    ghost function Tile(i: nat): (n: nat) {
      TileNo(launch.tiling, blockIdx, i)
    }

    /** Loads the tile of one input, or leaves its buffer alone when the rule allows it. */
    method CopyInBrc(p: nat, ubSplitSize: nat, axes: array<int>, i: nat, ghost cores: nat)
      requires Ready(cores) && p < |launch.inputs|
      requires Holds(launch.tiling, axes, Tile(i))
      requires ubSplitSize == SplitSize(launch.tiling, Col(launch.tiling, Tile(i)))
      modifies this`buffers
      ensures buffers == CopiedIn(launch, cores, old(buffers), blockIdx, p, i)
      ensures var t := launch.tiling;
        launch.inputs[p].strides[t.ubSplitAxis] == 0 && i >= 2 && Row(t, Tile(i - 2)) == Row(t, Tile(i)) ==>
        buffers == old(buffers)
    {
      hide TileData, TileLength, Holds, Col, Cut, SplitSize;
      var t, input := launch.tiling, launch.inputs[p];
      assert InputFits(t, input);
      TileFits(launch, cores, Tile(i));
      ReloadsIff(t, input.strides[t.ubSplitAxis], blockIdx, i);
      if input.strides[t.ubSplitAxis] != 0 || (i <= 1 || (blockIdx * t.blockFormer + i) % t.ubOuter <= 1) {
        var id := BufId(launch.shared, p, i % 2);
        var loaded := LoadTile(t, input, launch.outputStrides, axes, ubSplitSize, buffers[id], Tile(i));
        buffers := buffers[id := loaded];
      }
    }

    /** Runs the copy-in nodes of one round: afterwards every input's tile is in place,
        and the buffers are prepared for the next round. */
    method LoadTiles(ubSplitSize: nat, axes: array<int>, i: nat, ghost cores: nat)
      requires Ready(cores) && AllPrepared(launch, buffers, blockIdx, i)
      requires Holds(launch.tiling, axes, Tile(i))
      requires ubSplitSize == SplitSize(launch.tiling, Col(launch.tiling, Tile(i)))
      modifies this`buffers
      ensures Ready(cores) && AllLoaded(launch, buffers, i, Tile(i)) && AllPrepared(launch, buffers, blockIdx, i + 1)
    {
      hide Progress, CopiedIn, Holds, Col, SplitSize, AllLoaded, AllPrepared, Exact, Cut;
      var p := 0;
      ProgressStart(launch, buffers, blockIdx, i);
      while p < |launch.inputs|
        invariant p <= |launch.inputs| && Ready(cores) && Progress(launch, buffers, blockIdx, p, i)
      {
        ProgressStep(launch, cores, buffers, blockIdx, p, i);
        CopyInBrc(p, ubSplitSize, axes, i, cores);
        p := p + 1;
      }
      ProgressEnd(launch, buffers, blockIdx, i, Tile(i), i + 1);
    }

    /** Computes one tile and writes it to global memory. */
    method CopyOut(out: Output<V>, offset: nat, tileLength: nat, i: nat, ghost cores: nat)
      requires Ready(cores) && out.Sized(|Results(launch, cores)|) && Tile(i) < Tiles(launch.tiling)
      requires offset == OutOffset(launch.tiling, Tile(i)) && tileLength == TileLength(launch.tiling, Tile(i))
      requires AllLoaded(launch, buffers, i, Tile(i))
      modifies out.data, out.writes
      ensures Written(Results(launch, cores), old(out.data[..]), out.data[..], old(out.writes[..]), out.writes[..],
                      offset, tileLength)
    {
      hide Exact, Written, Results, OutOffset, TileLength, Tiles, AllLoaded, Numel, InputFits;
      TileFits(launch, cores, Tile(i));
      TileInside(launch.tiling, Tile(i));
      NothingWritten(Results(launch, cores), out.data[..], out.writes[..], offset);
      for k := 0 to tileLength
        invariant Written(Results(launch, cores), old(out.data[..]), out.data[..], old(out.writes[..]), out.writes[..],
                          offset, k)
      {
        GatherOperands(launch, cores, buffers, Tile(i), i, k);
        var result := launch.compute(Gather(launch, buffers, i % 2, k));
        WrittenOne(Results(launch, cores), old(out.data[..]), out.data[..], old(out.writes[..]), out.writes[..],
          offset, k);
        ghost var d, w := out.data[..], out.writes[..];
        out.data[offset + k] := result;
        out.writes[offset + k] := out.writes[offset + k] + 1;
        assert out.data[..] == d[offset + k := result];
        assert out.writes[..] == w[offset + k := w[offset + k] + 1];
      }
    }

    /** One round: loads, computes and writes the tile of round i. */
    method Run(out: Output<V>, ubSplitSize: nat, axes: array<int>, i: nat, ghost cores: nat)
      requires Ready(cores) && out.Sized(|Results(launch, cores)|) && Tile(i) < Tiles(launch.tiling)
      requires out.Apart(axes)
      requires Holds(launch.tiling, axes, Tile(i))
      requires ubSplitSize == SplitSize(launch.tiling, Col(launch.tiling, Tile(i)))
      requires AllPrepared(launch, buffers, blockIdx, i)
      modifies this`buffers, out.data, out.writes
      ensures Ready(cores) && AllPrepared(launch, buffers, blockIdx, i + 1)
      ensures 0 <= OutOffset(launch.tiling, Tile(i)) <= OutOffset(launch.tiling, Tile(i) + 1)
      ensures Written(Results(launch, cores), old(out.data[..]), out.data[..], old(out.writes[..]), out.writes[..],
                      OutOffset(launch.tiling, Tile(i)),
                      OutOffset(launch.tiling, Tile(i) + 1) - OutOffset(launch.tiling, Tile(i)))
    {
      hide AllPrepared, AllLoaded, OutOffset, TileLength, Tiles, Written, Results, SplitSize, Col, SourceOffset, Dot,
        Unravel, BroadcastStrides, Exact;
      var t, a := launch.tiling, launch.tiling.ubSplitAxis;
      TileFits(launch, cores, Tile(i));
      TileInside(t, Tile(i));
      TilesFollow(t, Tile(i));
      OutputAddress(t, Tile(i));
      DigitsAddress(t, launch.outputStrides, Tile(i), axes[..]);
      assert axes[..][..a + 1] == axes[..a + 1] && axes[..][..a] == axes[..a];
      LoadTiles(ubSplitSize, axes, i, cores);
      var gmOffset := GetGmOffset(axes, launch.outputStrides, a, t.ubFormer);
      LengthIs(t, Tile(i), ubSplitSize * launch.outputStrides[a]);
      CopyOut(out, gmOffset, ubSplitSize * launch.outputStrides[a], i, cores);
    }

    /** The digits of the core's first tile. */
    method FirstDigits(ghost cores: nat) returns (axes: array<int>)
      requires WellFormed(launch, cores) && blockIdx < launch.tiling.blockNum
      ensures fresh(axes) && Holds(launch.tiling, axes, Tile(0))
    {
      hide Unravel, Numel, AllFit, OutOffset;
      var t := launch.tiling;
      CoreTiles(t, cores, blockIdx);
      axes := new int[BROADCAST_MAX_DIMS](_ => 0);
      GetAxesIndices(axes, t.blockFormer * blockIdx, t.outputDims, t.ubSplitAxis, t.dimProductBeforeUbInner, t.ubOuter);
    }

    /** Moves the digits on to the tile of round i, and tells its size. */
    method Advance(axes: array<int>, i: nat, ghost cores: nat) returns (ubSplitSize: nat)
      requires WellFormed(launch, cores) && blockIdx < launch.tiling.blockNum && i < Loops(launch.tiling, blockIdx)
      requires Holds(launch.tiling, axes, Tile(if i == 0 then 0 else i - 1))
      modifies axes
      ensures Holds(launch.tiling, axes, Tile(i))
      ensures ubSplitSize == SplitSize(launch.tiling, Col(launch.tiling, Tile(i)))
    {
      hide Unravel, Numel, AllFit, OutOffset;
      var t := launch.tiling;
      CoreTile(t, cores, blockIdx, i);
      if i != 0 {
        UpdateAxesIndices(axes, t.outputDims, t.ubSplitAxis, t.ubOuter, Tile(i - 1));
      }
      assert axes[..][..t.ubSplitAxis + 1] == axes[..t.ubSplitAxis + 1];
      HoldsColumn(t, axes[..], Tile(i));
      ubSplitSize := if axes[t.ubSplitAxis] == t.ubOuter - 1 then t.ubTail else t.ubFormer;
    }

    /** The tile loop: the core writes the output of exactly its tiles, each element once
        and with the value computed from its operands. */
    method Process(out: Output<V>, ghost cores: nat)
      requires Ready(cores) && out.Sized(|Results(launch, cores)|)
      modifies this`buffers, out.data, out.writes
      ensures BlockOffset(launch.tiling, cores, blockIdx) <= BlockOffset(launch.tiling, cores, blockIdx + 1)
      ensures Written(Results(launch, cores), old(out.data[..]), out.data[..], old(out.writes[..]), out.writes[..],
                      BlockOffset(launch.tiling, cores, blockIdx),
                      BlockOffset(launch.tiling, cores, blockIdx + 1) - BlockOffset(launch.tiling, cores, blockIdx))
    {
      hide BlockOffset, OutOffset, TileLength, Tiles, Written, Results, SplitSize, Unravel, BroadcastStrides,
        AllPrepared, Numel, Col, Holds;
      var t := launch.tiling;
      ghost var values, d0, w0 := Results(launch, cores), out.data[..], out.writes[..];
      CoreTiles(t, cores, blockIdx);
      BlocksFollow(t, cores, blockIdx);
      ghost var from := OutOffset(t, Tile(0));
      var ubLoopNum := if blockIdx == t.blockNum - 1 then t.blockTail else t.blockFormer;
      var axesIndices := FirstDigits(cores);
      AllNothingRetained(launch, buffers, blockIdx);
      NothingWritten(values, out.data[..], out.writes[..], from);
      var i := 0;
      while i < ubLoopNum
        invariant 0 <= i <= ubLoopNum && Ready(cores) && AllPrepared(launch, buffers, blockIdx, i)
        invariant Holds(t, axesIndices, Tile(if i == 0 then 0 else i - 1)) && fresh(axesIndices)
        invariant from <= OutOffset(t, Tile(i))
        invariant Written(values, d0, out.data[..], w0, out.writes[..], from, OutOffset(t, Tile(i)) - from)
      {
        CoreTile(t, cores, blockIdx, i);
        var ubSplitSize := Advance(axesIndices, i, cores);
        ghost var d, w := out.data[..], out.writes[..];
        Run(out, ubSplitSize, axesIndices, i, cores);
        WrittenThen(values, d0, d, out.data[..], w0, w, out.writes[..], from, OutOffset(t, Tile(i)) - from,
                    OutOffset(t, Tile(i) + 1) - OutOffset(t, Tile(i)));
        i := i + 1;
      }
    }
  }

  function Gather<V>(l: Launch<V>, buffers: seq<seq<V>>, phase: nat, k: nat): (vs: seq<V>)
    requires |l.shared| == |l.inputs| && |buffers| == 2 * |l.inputs| && phase < 2
    requires forall i :: 0 <= i < |buffers| ==> k < |buffers[i]|
    ensures |vs| == |l.inputs| && forall p :: 0 <= p < |vs| ==> vs[p] == buffers[BufId(l.shared, p, phase)][k]
  {
    seq(|l.inputs|, p requires 0 <= p < |l.inputs| => buffers[BufId(l.shared, p, phase)][k])
  }

  /** Position k of the loaded tiles holds the operands of the output element it stands for. */
  lemma GatherOperands<V>(l: Launch<V>, cores: nat, buffers: seq<seq<V>>, n: nat, i: nat, k: nat)
    requires WellFormed(l, cores) && Sized(l, buffers) && n < Tiles(l.tiling) && k < TileLength(l.tiling, n)
    requires AllLoaded(l, buffers, i, n)
    ensures 0 <= OutOffset(l.tiling, n) + k < |Results(l, cores)| && k < l.tiling.elemNum
    ensures l.compute(Gather(l, buffers, i % 2, k)) == Results(l, cores)[OutOffset(l.tiling, n) + k]
  {
    hide OutOffset, TileLength, Tiles, Numel, Dot, Unravel, SourceOffset, Position, BufId, Exact;
    var t := l.tiling;
    TileFits(l, cores, n);
    TileInside(t, n);
    var j := OutOffset(t, n) + k;
    forall p: nat | p < |l.inputs| ensures Gather(l, buffers, i % 2, k)[p] == Operands(l, j)[p] {
      var input := l.inputs[p];
      assert InputFits(t, input) && Loaded(l, buffers, p, i, n);
      TileAddress(t, input.strides, n, k);
      assert TileData(t, input, n)[k] == input.mem(SourceOffset(t, input.strides, n) + Position(t, input.strides, k));
    }
    assert Gather(l, buffers, i % 2, k) == Operands(l, j);
  }

  /** Running every core writes each output element exactly once, with the value computed
      from what the strides of the inputs address for it. */
  method LaunchAll<V>(l: Launch<V>, out: Output<V>, memory: seq<seq<V>>, ghost cores: nat)
    requires WellFormed(l, cores) && Sized(l, memory) && out.Sized(|Results(l, cores)|)
    requires forall j :: 0 <= j < out.writes.Length ==> out.writes[j] == 0
    modifies out.data, out.writes
    ensures out.data[..] == Results(l, cores)
    ensures forall j :: 0 <= j < out.writes.Length ==> out.writes[j] == 1
  {
    hide BlockOffset, Results, Numel, Sized, Written;
    var t := l.tiling;
    ghost var values, d0, w0 := Results(l, cores), out.data[..], out.writes[..];
    BlocksFollow(t, cores, 0);
    NothingWritten(values, d0, w0, 0);
    for b := 0 to t.blockNum
      invariant out.Sized(|values|)
      invariant Written(values, d0, out.data[..], w0, out.writes[..], 0, BlockOffset(t, cores, b))
    {
      BlocksFollow(t, cores, b);
      ghost var d, w := out.data[..], out.writes[..];
      var core := new Core<V>(l, b, memory);
      core.Process(out, cores);
      WrittenThen(values, d0, d, out.data[..], w0, w, out.writes[..], 0, BlockOffset(t, cores, b),
                  BlockOffset(t, cores, b + 1) - BlockOffset(t, cores, b));
    }
    WrittenWhole(values, d0, out.data[..], w0, out.writes[..]);
  }
}
