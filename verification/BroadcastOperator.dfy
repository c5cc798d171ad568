/** A broadcast operator from end to end: collapse, tiling and kernel, with the
    one-dimensional kernel for outputs that collapse to one dimension. */
module BroadcastOperator {
  import opened Arith
  import opened BroadcastCollapse
  import opened BroadcastTiling
  import opened CollapseExact
  import opened KernelMemory
  import opened NddmaCopy
  import opened NddmaSchedule
  import opened Shapes
  import opened Strides
  import OneDimKernel
  import OneDimTiling

  /** An input tensor: its shape, and global memory from its first element on. */
  datatype Tensor<!V> = Tensor(shape: Shape, mem: int -> V)

  function ShapesOf<V>(ts: seq<Tensor<V>>): (s: seq<Shape>)
    ensures |s| == |ts| && forall p :: 0 <= p < |ts| ==> s[p] == ts[p].shape
  {
    seq(|ts|, p requires 0 <= p < |ts| => ts[p].shape)
  }

  /** The input values that naive right-aligned broadcasting pairs with output element n. */
  function NaiveOperands<V>(ts: seq<Tensor<V>>, out: Shape, n: nat): (vs: seq<V>)
    requires Positive(out) && AllBroadcast(ShapesOf(ts), out)
    ensures |vs| == |ts| && forall p :: 0 <= p < |ts| ==> vs[p] == ts[p].mem(NaiveIndex(ts[p].shape, out, n))
  {
    assert forall p :: 0 <= p < |ts| ==> BroadcastsTo(ShapesOf(ts)[p], out);
    seq(|ts|, p requires 0 <= p < |ts| => ts[p].mem(NaiveIndex(ts[p].shape, out, n)))
  }

  /** Where the collapsed strides look for output element n in input p. */
  function SourceOf(ins: seq<Shape>, out: Shape, p: nat, n: nat): (k: int)
    requires out != [] && Positive(out) && AllBroadcast(ins, out) && p < |ins|
  {
    LayoutFacts(ins, out);
    Address(LayoutOf(ins, out), p, n)
  }

  /** The input values at the addresses of the collapsed strides. */
  function AddressedOperands<V>(ts: seq<Tensor<V>>, out: Shape, n: nat): (vs: seq<V>)
    requires out != [] && Positive(out) && AllBroadcast(ShapesOf(ts), out)
    ensures |vs| == |ts| && forall p :: 0 <= p < |ts| ==> vs[p] == ts[p].mem(SourceOf(ShapesOf(ts), out, p, n))
  {
    seq(|ts|, p requires 0 <= p < |ts| => ts[p].mem(SourceOf(ShapesOf(ts), out, p, n)))
  }

  /** Without a loss, these are the same values. */
  lemma OperandsAgree<V>(ts: seq<Tensor<V>>, out: Shape, n: nat)
    requires out != [] && Positive(out) && AllBroadcast(ShapesOf(ts), out) && n < Numel(out)
    requires !Loses(PadAll(ShapesOf(ts), out), out)
    ensures AddressedOperands(ts, out, n) == NaiveOperands(ts, out, n)
  {
    hide Loses, Address, NaiveIndex, LayoutOf;
    LayoutFacts(ShapesOf(ts), out);
    CollapseRightIff(ShapesOf(ts), out);
    forall p: nat | p < |ts| ensures AddressedOperands(ts, out, n)[p] == NaiveOperands(ts, out, n)[p] {
      assert Address(LayoutOf(ShapesOf(ts), out), p, n) == NaiveIndex(ShapesOf(ts)[p], out, n);
    }
  }

  // ----- the multi-dimensional path -----

  function InputsOf<V>(ts: seq<Tensor<V>>, l: Layout): (ins: seq<Input<V>>)
    requires |l.dims| == |l.strides| == |ts| + 1
    ensures |ins| == |ts|
    ensures forall p :: 0 <= p < |ts| ==> ins[p] == Input(ts[p].mem, l.dims[p], l.strides[p])
  {
    seq(|ts|, p requires 0 <= p < |ts| => Input(ts[p].mem, l.dims[p], l.strides[p]))
  }

  /** The launch parameters are well formed, and the output keeps its size. */
  lemma LaunchFits<V>(ts: seq<Tensor<V>>, out: Shape, launch: Launch<V>, cores: nat)
    requires out != [] && Positive(out) && AllBroadcast(ShapesOf(ts), out) && |launch.shared| == |ts|
    requires var l := LayoutOf(ShapesOf(ts), out);
      && launch.tiling.outputDims == OutputDims(l) && |OutputDims(l)| <= BROADCAST_MAX_DIMS
      && launch.outputStrides == l.strides[|ts|] && launch.inputs == InputsOf(ts, l)
    requires Exact(launch.tiling, cores)
    ensures WellFormed(launch, cores) && |Results(launch, cores)| == Numel(out)
  {
    hide LayoutOf, Numel, BroadcastStrides;
    LayoutFacts(ShapesOf(ts), out);
  }

  lemma ResultsAddressed<V>(ts: seq<Tensor<V>>, out: Shape, launch: Launch<V>, cores: nat)
    requires out != [] && Positive(out) && AllBroadcast(ShapesOf(ts), out) && WellFormed(launch, cores)
    requires launch.tiling.outputDims == OutputDims(LayoutOf(ShapesOf(ts), out))
    requires launch.inputs == InputsOf(ts, LayoutOf(ShapesOf(ts), out))
    ensures forall j :: 0 <= j < |Results(launch, cores)| ==>
      Results(launch, cores)[j] == launch.compute(AddressedOperands(ts, out, j))
  {
    hide LayoutOf, Numel, Operands, AddressedOperands, BroadcastStrides;
    forall j: nat | j < |Results(launch, cores)| ensures Operands(launch, j) == AddressedOperands(ts, out, j) {
      OperandsAddressed(ts, out, launch, cores, j);
    }
  }

  lemma OperandsAddressed<V>(ts: seq<Tensor<V>>, out: Shape, launch: Launch<V>, cores: nat, j: nat)
    requires out != [] && Positive(out) && AllBroadcast(ShapesOf(ts), out) && WellFormed(launch, cores)
    requires launch.tiling.outputDims == OutputDims(LayoutOf(ShapesOf(ts), out))
    requires launch.inputs == InputsOf(ts, LayoutOf(ShapesOf(ts), out))
    ensures Operands(launch, j) == AddressedOperands(ts, out, j)
  {
    hide LayoutOf, Numel, Dot, Unravel;
    LayoutFacts(ShapesOf(ts), out);
    forall p: nat | p < |ts| ensures Operands(launch, j)[p] == AddressedOperands(ts, out, j)[p] {
      assert InputFits(launch.tiling, launch.inputs[p]);
    }
  }

  /** What the host knows of the machine and the operator. */
  datatype Host = Host(coreNum: nat, ubSize: nat, extraSize: int, oneDimBuffers: nat, multiDimBuffers: nat,
                       maxDtypeBytes: nat, minDtypeBytes: nat)

  /** The buffers and types of an operator do not make the host divide by zero. */
  predicate Divides(h: Host) {
    h.multiDimBuffers > 0 && h.maxDtypeBytes > 0 && 1 <= h.minDtypeBytes <= BROADCAST_REPEAT_BYTES
  }

  function BufferDivisor(h: Host): (d: nat)
    ensures Divides(h) ==> d > 0
  {
    MulMonotone(if h.multiDimBuffers > 0 then 1 else 0, h.multiDimBuffers, h.maxDtypeBytes * BROADCAST_BITS_NUM);
    h.multiDimBuffers * (h.maxDtypeBytes * BROADCAST_BITS_NUM)
  }

  /** A tile of the multi-dimensional kernel fits. */
  predicate TileFits(h: Host)
    requires Divides(h)
  {
    && h.ubSize >= h.extraSize && h.coreNum > 0
    && RepeatElements(h.minDtypeBytes * BROADCAST_BITS_NUM) * BufferDivisor(h)
       <= (h.ubSize - h.extraSize) * BROADCAST_BITS_NUM
  }

  /** All buffers of a tile and the extra space fit the local memory. */
  lemma BuffersFit(h: Host, n: nat, repeat: nat)
    requires Divides(h) && h.ubSize >= h.extraSize
    requires FillsMemory(n, repeat, h.ubSize - h.extraSize, BufferDivisor(h))
    ensures h.multiDimBuffers * (n * h.maxDtypeBytes) + h.extraSize <= h.ubSize
  {
    var a, b := h.multiDimBuffers, h.maxDtypeBytes;
    assert n * BufferDivisor(h) == a * (n * b) * BROADCAST_BITS_NUM by {
      MulAssociates(n, a, b * BROADCAST_BITS_NUM);
      MulAssociates(n * a, b, BROADCAST_BITS_NUM);
      MulAssociates(a, n, b);
    }
  }

  /** Tiling and kernel of the collapsed problem: fails exactly if no tile fits or there
      is no core, and otherwise writes every element once, from the addressed operands. */
  method RunMultiDim<V(0)>(ts: seq<Tensor<V>>, ghost outShape: Shape, l: Layout, h: Host, shared: seq<bool>,
                           compute: seq<V> -> V, out: Output<V>)
      returns (ok: bool)
    requires ts != [] && outShape != [] && Positive(outShape) && |shared| == |ts| && Divides(h)
    requires AllBroadcast(ShapesOf(ts), outShape) && l == LayoutOf(ShapesOf(ts), outShape)
    requires |OutputDims(l)| <= BROADCAST_MAX_DIMS
    requires Numel(outShape) >= 0 && out.Sized(Numel(outShape))
    requires forall j :: 0 <= j < out.writes.Length ==> out.writes[j] == 0
    modifies out.data, out.writes
    ensures ok <==> TileFits(h)
    ensures ok ==> forall j :: 0 <= j < out.writes.Length ==> out.writes[j] == 1
    ensures ok ==> forall j :: 0 <= j < out.data.Length ==> out.data[j] == compute(AddressedOperands(ts, outShape, j))
  {
    hide MaxElemNum, RepeatElements, LayoutOf, Exact, Results, AddressedOperands, Numel;
    LayoutFacts(ShapesOf(ts), outShape);
    var tiling := DoBroadcastTiling(OutputDims(l), h.ubSize, h.extraSize, BufferDivisor(h),
                                    h.minDtypeBytes * BROADCAST_BITS_NUM, h.coreNum);
    if tiling.Err? {
      return false;
    }
    var launch := Launch(tiling.value, l.strides[|ts|], InputsOf(ts, l), shared, compute);
    var v: V := *;
    var memory := Copies(Copies(v, tiling.value.elemNum), 2 * |ts|);
    LaunchFits(ts, outShape, launch, h.coreNum);
    LaunchAll(launch, out, memory, h.coreNum);
    ResultsAddressed(ts, outShape, launch, h.coreNum);
    return true;
  }

  // ----- the one-dimensional path -----

  function DataOf<V>(t: Tensor<V>, length: nat): (d: seq<V>)
    ensures |d| == length && forall k :: 0 <= k < length ==> d[k] == t.mem(k)
  {
    seq(length, k requires 0 <= k < length => t.mem(k))
  }

  /** The inputs as ranges of global memory, each as long as its collapsed dimension. */
  function RangesOf<V>(ts: seq<Tensor<V>>, l: Layout): (ds: seq<seq<V>>)
    requires |l.dims| == |ts| + 1 && forall p :: 0 <= p < |ts| ==> |l.dims[p]| == 1 && l.dims[p][0] >= 0
    ensures |ds| == |ts| && forall p :: 0 <= p < |ts| ==> ds[p] == DataOf(ts[p], l.dims[p][0])
  {
    seq(|ts|, p requires 0 <= p < |ts| => DataOf(ts[p], l.dims[p][0]))
  }

  /** In one dimension and without a loss, an input has the output's length or is a scalar,
      and the kernel's choice of element is naive broadcasting. */
  lemma OneDimSource(ins: seq<Shape>, out: Shape, p: nat, n: nat)
    requires out != [] && Positive(out) && AllBroadcast(ins, out) && p < |ins| && n < Numel(out)
    requires |OutputDims(LayoutOf(ins, out))| == 1 && !Loses(PadAll(ins, out), out)
    ensures var l := LayoutOf(ins, out);
      && |l.dims[p]| == 1 && OutputDims(l)[0] == Numel(out) && (l.dims[p][0] == 1 || l.dims[p][0] == Numel(out))
      && NaiveIndex(ins[p], out, n) == if l.dims[p][0] == 1 then 0 else n
  {
    hide Loses, NaiveIndex, LayoutOf;
    var l := LayoutOf(ins, out);
    LayoutFacts(ins, out);
    CollapseRightIff(ins, out);
    var h := OutputDims(l)[0];
    OneDimAddress(l.dims[p], OutputDims(l), n);
    OneDimAddress(l.dims[p], OutputDims(l), h - 1);
    NaiveInside(ins[p], out, h - 1);
    InputNumel(ins, out, p);
    assert Address(l, p, n) == NaiveIndex(ins[p], out, n) && Address(l, p, h - 1) == NaiveIndex(ins[p], out, h - 1);
  }

  lemma OneDimAddress(x: Shape, o: Shape, n: nat)
    requires |x| == |o| == 1 && Within(x, o) && n < Numel(o)
    ensures Numel(o) == o[0] && Numel(x) == x[0] && Positive(o)
    ensures Dot(Unravel(o, n), BroadcastStrides(x, o)) == if x[0] == 1 && o[0] != 1 then 0 else n
  {
    assert o[1..] == [] && x[1..] == [];
    DivModUnique(n, 0, o[0], n);
    assert Unravel(o, n) == [n];
    assert Dot([n][1..], BroadcastStrides(x, o)[1..]) == 0;
  }

  /** Scalar flag, tiling and kernel of a problem that collapses to one dimension. */
  method RunOneDim<V(0)>(ts: seq<Tensor<V>>, ghost outShape: Shape, l: Layout, h: Host, shared: seq<bool>,
                         compute: seq<V> -> V, out: Output<V>)
      returns (ok: bool)
    requires outShape != [] && Positive(outShape) && |shared| == |ts| && h.coreNum > 0
    requires AllBroadcast(ShapesOf(ts), outShape) && l == LayoutOf(ShapesOf(ts), outShape)
    requires |OutputDims(l)| == 1 && !Loses(PadAll(ShapesOf(ts), outShape), outShape)
    requires Numel(outShape) >= 0 && out.Sized(Numel(outShape))
    requires OneDimKernel.HostFindsTile(Numel(outShape), h.coreNum, h.oneDimBuffers, h.maxDtypeBytes,
      h.ubSize - h.extraSize)
    requires forall j :: 0 <= j < out.writes.Length ==> out.writes[j] == 0
    modifies out.data, out.writes
    ensures ok <==> OneDimTileFits(h)
    ensures ok ==> forall j :: 0 <= j < out.writes.Length ==> out.writes[j] == 1
    ensures ok ==> forall j :: 0 <= j < out.data.Length ==> out.data[j] == compute(NaiveOperands(ts, outShape, j))
  {
    hide LayoutOf, Loses, Numel, NaiveOperands, OneDimKernel.HostFindsTile;
    LayoutFacts(ShapesOf(ts), outShape);
    NumelPositive(outShape);
    forall p: nat | p < |ts|
      ensures |l.dims[p]| == 1 && (l.dims[p][0] == 1 || l.dims[p][0] == Numel(outShape))
      ensures OutputDims(l)[0] == Numel(outShape)
    {
      OneDimSource(ShapesOf(ts), outShape, p, 0);
    }
    OneDimLength(OutputDims(l));
    ok := OneDimKernel.TileAndRun(RangesOf(ts, l), out, OutputDims(l)[0], h.coreNum, h.oneDimBuffers, h.maxDtypeBytes,
                                  h.ubSize - h.extraSize, shared, compute);
    forall j: nat | j < out.data.Length
      ensures OneDimKernel.Broadcast(RangesOf(ts, l), j) == NaiveOperands(ts, outShape, j)
    {
      OneDimOperands(ts, outShape, j);
    }
  }

  predicate OneDimTileFits(h: Host) {
    && h.oneDimBuffers > 0 && h.maxDtypeBytes > 0
    && h.maxDtypeBytes <= OneDimTiling.AlignedShare(h.oneDimBuffers, h.ubSize - h.extraSize)
  }

  lemma OneDimLength(o: Shape)
    requires |o| == 1
    ensures Numel(o) == o[0]
  {
    assert o[1..] == [];
  }

  lemma OneDimOperands<V>(ts: seq<Tensor<V>>, out: Shape, n: nat)
    requires out != [] && Positive(out) && AllBroadcast(ShapesOf(ts), out) && n < Numel(out)
    requires |OutputDims(LayoutOf(ShapesOf(ts), out))| == 1 && !Loses(PadAll(ShapesOf(ts), out), out)
    ensures var l := LayoutOf(ShapesOf(ts), out);
      && (forall p :: 0 <= p < |ts| ==> |l.dims[p]| == 1 && (l.dims[p][0] == 1 || l.dims[p][0] == Numel(out)))
      && OneDimKernel.Broadcast(RangesOf(ts, l), n) == NaiveOperands(ts, out, n)
  {
    hide LayoutOf, Loses, Numel, NaiveIndex;
    forall p: nat | p < |ts|
      ensures var d := LayoutOf(ShapesOf(ts), out).dims[p];
        && |d| == 1 && (d[0] == 1 || d[0] == Numel(out))
        && NaiveIndex(ts[p].shape, out, n) == if d[0] == 1 then 0 else n
    {
      OneDimSource(ShapesOf(ts), out, p, n);
    }
  }

  // ----- the operator -----

  /** The host accepts the problem. */
  predicate Accepts(ins: seq<Shape>, out: Shape, h: Host)
    requires out != [] && Divides(h)
  {
    && h.coreNum > 0 && h.ubSize > 0 && AllBroadcast(ins, out)
    && var rank := |OutputDims(LayoutOf(ins, out))|;
       rank <= BROADCAST_MAX_DIMS && if rank == 1 then OneDimTileFits(h) else TileFits(h)
  }

  /** The one-dimensional path is free of what it does not check. */
  predicate OneDimSafe(ins: seq<Shape>, out: Shape, h: Host)
    requires out != []
  {
    h.coreNum > 0 && AllBroadcast(ins, out) && |OutputDims(LayoutOf(ins, out))| == 1 && Numel(out) >= 0 ==>
      && !Loses(PadAll(ins, out), out)
      && OneDimKernel.HostFindsTile(Numel(out), h.coreNum, h.oneDimBuffers, h.maxDtypeBytes, h.ubSize - h.extraSize)
  }

  /** DoTiling and the kernel it chooses: whenever the host accepts, every output element
      is written exactly once, and without a loss with the value computed from the
      elements that naive right-aligned broadcasting pairs with it. */
  method Run<V(0)>(ts: seq<Tensor<V>>, outShape: Shape, h: Host, shared: seq<bool>, compute: seq<V> -> V,
    out: Output<V>)
      returns (ok: bool)
    requires ts != [] && outShape != [] && Positive(outShape) && |shared| == |ts| && Divides(h)
    requires Numel(outShape) >= 0 && out.Sized(Numel(outShape))
    requires OneDimSafe(ShapesOf(ts), outShape, h)
    requires forall j :: 0 <= j < out.writes.Length ==> out.writes[j] == 0
    modifies out.data, out.writes
    ensures ok <==> Accepts(ShapesOf(ts), outShape, h)
    ensures ok ==> forall j :: 0 <= j < out.writes.Length ==> out.writes[j] == 1
    ensures ok && !Loses(PadAll(ShapesOf(ts), outShape), outShape) ==>
      forall j :: 0 <= j < out.data.Length ==> out.data[j] == compute(NaiveOperands(ts, outShape, j))
  {
    hide LayoutOf, Loses, Numel, NaiveOperands, AddressedOperands, OneDimKernel.HostFindsTile;
    if h.coreNum == 0 || h.ubSize == 0 {
      return false;
    }
    var layout := DimensionCollapse(ShapesOf(ts), outShape);
    if layout.Err? {
      return false;
    }
    var l := layout.value;
    if |OutputDims(l)| > BROADCAST_MAX_DIMS {
      return false;
    }
    if |OutputDims(l)| == 1 {
      ok := RunOneDim(ts, outShape, l, h, shared, compute, out);
    } else {
      ok := RunMultiDim(ts, outShape, l, h, shared, compute, out);
      if !Loses(PadAll(ShapesOf(ts), outShape), outShape) {
        forall j: nat | j < out.data.Length
          ensures AddressedOperands(ts, outShape, j) == NaiveOperands(ts, outShape, j)
        {
          OperandsAgree(ts, outShape, j);
        }
      }
    }
  }
}
