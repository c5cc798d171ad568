/** The one-dimensional broadcast kernel: every core walks its tiles through ping
    and pong buffers, filling the buffer of a scalar input only while needed. */
module OneDimKernel {
  import opened Arith
  import opened KernelMemory
  import opened OneDimTiling
  import opened Wrappers

  /** The launch parameters of one kernel: the split, the scalar flag, the inputs in
      global memory, for each input whether ping and pong share one buffer, and the
      element-wise computation. */
  datatype Launch<!V> = Launch(split: Split, flag: nat, inputs: seq<seq<V>>, shared: seq<bool>, compute: seq<V> -> V)

  /** Inputs of length one are flagged scalar; all others have the output's length. */
  ghost predicate WellFormed<V>(l: Launch<V>, length: nat, cores: nat) {
    && Exact(l.split, length, cores) && |l.shared| == |l.inputs|
    && forall p :: 0 <= p < |l.inputs| ==> |l.inputs[p]| == if BitSet(l.flag, p) then 1 else length
  }

  /** The element of input p that output element j needs. */
  function Source<V>(l: Launch<V>, p: nat, j: nat): (k: nat) {
    if BitSet(l.flag, p) then 0 else j
  }

  /** The input values that meet at output element j. */
  function Operands<V>(l: Launch<V>, j: nat): (vs: seq<V>)
    requires forall p :: 0 <= p < |l.inputs| ==> Source(l, p, j) < |l.inputs[p]|
    ensures |vs| == |l.inputs| && forall p :: 0 <= p < |vs| ==> vs[p] == l.inputs[p][Source(l, p, j)]
  {
    seq(|l.inputs|, p requires 0 <= p < |l.inputs| => l.inputs[p][Source(l, p, j)])
  }

  // ----- where a core works -----

  /** CalcBlockOffset, in elements. */
  function BlockOffset(s: Split, blockIdx: nat): (o: nat) {
    s.blockFormer * s.ubFormer * blockIdx
  }

  function Loops(s: Split, blockIdx: nat): (n: nat) {
    if blockIdx == s.blockNum - 1 then s.blockTail else s.blockFormer
  }

  function LastTile(s: Split, blockIdx: nat): (n: nat) {
    if blockIdx == s.blockNum - 1 then s.ubTail else s.ubFormer
  }

  /** Where the work of a core ends. */
  function BlockEnd(s: Split, blockIdx: nat): (o: int) {
    BlockOffset(s, blockIdx) + (Loops(s, blockIdx) - 1) * s.ubFormer + LastTile(s, blockIdx)
  }

  /** The cores' ranges follow each other and end at the length. */
  lemma BlocksTile(s: Split, length: nat, cores: nat, b: nat)
    requires Exact(s, length, cores) && b < s.blockNum
    ensures BlockEnd(s, b) == if b == s.blockNum - 1 then length else BlockOffset(s, b + 1)
    ensures BlockEnd(s, b) <= length
  {
    var u, f, t := s.ubFormer, s.blockFormer, s.blockNum - 1;
    WholeLength(t, f, s.blockTail - 1, u);
    if b < t {
      InnerBlock(f, u, b, t);
    }
  }

  lemma WholeLength(t: nat, f: nat, k: nat, u: nat)
    ensures (t * f + k) * u == f * u * t + k * u && k * u >= 0
  {
    assert (t * f + k) * u == t * f * u + k * u;
    assert t * f * u == f * u * t;
  }

  lemma InnerBlock(f: nat, u: nat, b: nat, t: nat)
    requires b < t
    ensures f * u * b + (f - 1) * u + u == f * u * (b + 1) <= f * u * t
  {
    var w := f * u;
    assert (f - 1) * u + u == w && w * (b + 1) == w * b + w;
    MulMonotone(b + 1, t, w);
  }

  // ----- buffers -----

  ghost predicate Sized<V>(l: Launch<V>, buffers: seq<seq<V>>) {
    && |l.shared| == |l.inputs| && |buffers| == 2 * |l.inputs|
    && forall i :: 0 <= i < |buffers| ==> |buffers[i]| == l.split.ubFormer
  }

  /** Position k of a buffer of input p holds what output element from + k needs. */
  ghost predicate Supplies<V>(l: Launch<V>, buffer: seq<V>, p: nat, from: nat, k: int)
    requires p < |l.inputs| && 0 <= k < |buffer|
  {
    Source(l, p, from + k) < |l.inputs[p]| && buffer[k] == l.inputs[p][Source(l, p, from + k)]
  }

  /** The buffer of input p holds what output elements from, from + 1, ... need. */
  ghost predicate Loaded<V>(l: Launch<V>, buffers: seq<seq<V>>, p: nat, phase: nat, from: nat, n: nat)
    requires Sized(l, buffers) && p < |l.inputs| && phase < 2
  {
    n <= l.split.ubFormer &&
    forall k :: 0 <= k < n ==> Supplies(l, buffers[BufId(l.shared, p, phase)], p, from, k)
  }

  /** The buffer of a phase holds the scalar input p over its whole size. */
  ghost predicate Held<V>(l: Launch<V>, buffers: seq<seq<V>>, p: nat, phase: nat)
    requires Sized(l, buffers) && p < |l.inputs| && phase < 2
  {
    BitSet(l.flag, p) && |l.inputs[p]| == 1 ==>
      forall k :: 0 <= k < l.split.ubFormer ==> buffers[BufId(l.shared, p, phase)][k] == l.inputs[p][0]
  }

  ghost predicate AllHeld<V>(l: Launch<V>, buffers: seq<seq<V>>, phase: nat)
    requires Sized(l, buffers) && phase < 2
  {
    forall p: nat :: p < |l.inputs| ==> Held(l, buffers, p, phase)
  }

  ghost predicate AllLoaded<V>(l: Launch<V>, buffers: seq<seq<V>>, phase: nat, from: nat, n: nat)
    requires Sized(l, buffers) && phase < 2
  {
    forall p: nat :: p < |l.inputs| ==> Loaded(l, buffers, p, phase, from, n)
  }

  /** The buffers after one copy-in: a scalar is duplicated only the first times. */
  function CopiedIn<V>(l: Launch<V>, buffers: seq<seq<V>>, first: bool, p: nat, from: nat, n: nat,
    phase: nat): (r: seq<seq<V>>)
    requires |l.shared| == |l.inputs| && |buffers| == 2 * |l.inputs| && p < |l.inputs| && phase < 2
    requires n <= |buffers[BufId(l.shared, p, phase)]|
    requires if BitSet(l.flag, p) then |l.inputs[p]| > 0 else from + n <= |l.inputs[p]|
  {
    var b := BufId(l.shared, p, phase);
    if !BitSet(l.flag, p) then buffers[b := Overwritten(buffers[b], l.inputs[p][from..from + n])]
    else if first then buffers[b := Overwritten(buffers[b], Copies(l.inputs[p][0], n))]
    else buffers
  }

  /** One copy-in loads its input, keeps what others have loaded, and never spoils a
      buffer that holds a scalar. */
  lemma CopyInStep<V>(l: Launch<V>, length: nat, cores: nat, buffers: seq<seq<V>>, first: bool, p: nat,
                      from: nat, n: nat, phase: nat)
    requires WellFormed(l, length, cores) && Sized(l, buffers) && p < |l.inputs| && phase < 2
    requires n <= l.split.ubFormer && from + n <= length
    requires first || Held(l, buffers, p, phase)
    ensures var r := CopiedIn(l, buffers, first, p, from, n, phase);
      && Sized(l, r) && Loaded(l, r, p, phase, from, n)
      && (forall q: nat :: q < |l.inputs| && q != p && Loaded(l, buffers, q, phase, from, n) ==>
            Loaded(l, r, q, phase, from, n))
      && (forall q: nat, f: nat :: q < |l.inputs| && f < 2 && Held(l, buffers, q, f) ==> Held(l, r, q, f))
      && (first && n == l.split.ubFormer ==> Held(l, r, p, phase))
  {
    hide Exact, BitSet;
    var r := CopiedIn(l, buffers, first, p, from, n, phase);
    assert |l.inputs[p]| == if BitSet(l.flag, p) then 1 else length;
    OtherBuffers(l, buffers, first, p, from, n, phase);
    assert Sized(l, r);
    LoadedNow(l, buffers, first, p, from, n, phase);
    forall q: nat | q < |l.inputs| && q != p && Loaded(l, buffers, q, phase, from, n)
      ensures Loaded(l, r, q, phase, from, n)
    {
      LoadedKept(l, buffers, r, q, phase, from, n);
    }
    forall q: nat, f: nat | q < |l.inputs| && f < 2 && Held(l, buffers, q, f) ensures Held(l, r, q, f) {
      assert q != p ==> r[BufId(l.shared, q, f)] == buffers[BufId(l.shared, q, f)];
    }
  }

  lemma LoadedKept<V>(l: Launch<V>, a: seq<seq<V>>, b: seq<seq<V>>, q: nat, phase: nat, from: nat, n: nat)
    requires Sized(l, a) && Sized(l, b) && q < |l.inputs| && phase < 2
    requires a[BufId(l.shared, q, phase)] == b[BufId(l.shared, q, phase)] && Loaded(l, a, q, phase, from, n)
    ensures Loaded(l, b, q, phase, from, n)
  {}

  /** The copied input is loaded: from global memory, by duplication, or because its
      buffer still holds the scalar. */
  lemma LoadedNow<V>(l: Launch<V>, buffers: seq<seq<V>>, first: bool, p: nat, from: nat, n: nat, phase: nat)
    requires Sized(l, buffers) && p < |l.inputs| && phase < 2 && n <= l.split.ubFormer
    requires if BitSet(l.flag, p) then |l.inputs[p]| == 1 else from + n <= |l.inputs[p]|
    requires first || Held(l, buffers, p, phase)
    requires Sized(l, CopiedIn(l, buffers, first, p, from, n, phase))
    ensures Loaded(l, CopiedIn(l, buffers, first, p, from, n, phase), p, phase, from, n)
  {
    hide BitSet;
    var r, i := CopiedIn(l, buffers, first, p, from, n, phase), BufId(l.shared, p, phase);
    forall k | 0 <= k < n ensures Supplies(l, r[i], p, from, k) {
      assert !BitSet(l.flag, p) ==> l.inputs[p][from..from + n][k] == l.inputs[p][from + k];
    }
  }

  /** A copy-in leaves the buffers of every other input alone. */
  lemma OtherBuffers<V>(l: Launch<V>, buffers: seq<seq<V>>, first: bool, p: nat, from: nat, n: nat, phase: nat)
    requires |l.shared| == |l.inputs| && |buffers| == 2 * |l.inputs| && p < |l.inputs| && phase < 2
    requires n <= |buffers[BufId(l.shared, p, phase)]|
    requires if BitSet(l.flag, p) then |l.inputs[p]| > 0 else from + n <= |l.inputs[p]|
    ensures |CopiedIn(l, buffers, first, p, from, n, phase)| == |buffers|
    ensures forall q: nat, f: nat :: q < |l.inputs| && f < 2 && q != p ==>
      CopiedIn(l, buffers, first, p, from, n, phase)[BufId(l.shared, q, f)] == buffers[BufId(l.shared, q, f)]
  {}

  predicate SourcesReady<V>(l: Launch<V>, length: nat) {
    forall p, j :: 0 <= p < |l.inputs| && 0 <= j < length ==> Source(l, p, j) < |l.inputs[p]|
  }

  /** What the output elements are computed from the inputs. */
  function Results<V>(l: Launch<V>, length: nat): (vs: seq<V>)
    requires SourcesReady(l, length)
    ensures |vs| == length && forall j :: 0 <= j < length ==> vs[j] == l.compute(Operands(l, j))
  {
    seq(length, j requires 0 <= j < length => l.compute(Operands(l, j)))
  }

  lemma SourcesExist<V>(l: Launch<V>, length: nat, cores: nat)
    requires WellFormed(l, length, cores)
    ensures SourcesReady(l, length)
  {}

  class Core<V> {
    const launch: Launch<V>
    const blockIdx: nat
    var buffers: seq<seq<V>>
    var isFirstScalarTime: bool
    var blockLoopNum: nat
    var ubTailNum: nat

    /** The buffers start with whatever the local memory holds. */
    constructor (l: Launch<V>, b: nat, memory: seq<seq<V>>)
      ensures launch == l && blockIdx == b && buffers == memory
      ensures blockLoopNum == Loops(l.split, b) && ubTailNum == LastTile(l.split, b)
    {
      launch, blockIdx, buffers := l, b, memory;
      isFirstScalarTime := true;
      if b == l.split.blockNum - 1 {
        blockLoopNum, ubTailNum := l.split.blockTail, l.split.ubTail;
      } else {
        blockLoopNum, ubTailNum := l.split.blockFormer, l.split.ubFormer;
      }
    }

    ghost predicate Ready(length: nat, cores: nat)
      reads this
    {
      && WellFormed(launch, length, cores) && Sized(launch, buffers) && blockIdx < launch.split.blockNum
      && blockLoopNum == Loops(launch.split, blockIdx) && ubTailNum == LastTile(launch.split, blockIdx)
    }

    method CopyIn(p: nat, offset: nat, tileLength: nat, phase: nat, ghost length: nat, ghost cores: nat)
      requires Ready(length, cores) && p < |launch.inputs| && phase < 2 && tileLength <= launch.split.ubFormer
      requires BlockOffset(launch.split, blockIdx) + offset + tileLength <= length
      modifies this`buffers
      ensures buffers == CopiedIn(launch, old(buffers), isFirstScalarTime, p,
                                  BlockOffset(launch.split, blockIdx) + offset, tileLength, phase)
      ensures BitSet(launch.flag, p) && !isFirstScalarTime ==> buffers == old(buffers)
    {
      hide Exact, BitSet;
      assert |launch.inputs[p]| == if BitSet(launch.flag, p) then 1 else length;
      var b := BufId(launch.shared, p, phase);
      if BitSet(launch.flag, p) {
        if isFirstScalarTime {
          buffers := buffers[b := Overwritten(buffers[b], Copies(launch.inputs[p][0], tileLength))];
        }
      } else {
        var from := BlockOffset(launch.split, blockIdx) + offset;
        buffers := buffers[b := Overwritten(buffers[b], launch.inputs[p][from..from + tileLength])];
      }
    }

    /** Runs the copy-in nodes of one tile: afterwards every buffer of the phase holds
        what the tile needs, whether or not its scalars were duplicated again. */
    method LoadTile(offset: nat, tileLength: nat, phase: nat, ghost length: nat, ghost cores: nat)
      requires Ready(length, cores) && phase < 2 && tileLength <= launch.split.ubFormer
      requires BlockOffset(launch.split, blockIdx) + offset + tileLength <= length
      requires isFirstScalarTime || AllHeld(launch, buffers, phase)
      modifies this`buffers
      ensures Ready(length, cores)
      ensures AllLoaded(launch, buffers, phase, BlockOffset(launch.split, blockIdx) + offset, tileLength)
      ensures forall f: nat :: f < 2 && AllHeld(launch, old(buffers), f) ==> AllHeld(launch, buffers, f)
      ensures isFirstScalarTime && tileLength == launch.split.ubFormer ==> AllHeld(launch, buffers, phase)
    {
      hide Exact, BitSet, Loaded, Held, CopiedIn, WellFormed;
      ghost var from := BlockOffset(launch.split, blockIdx) + offset;
      var p := 0;
      while p < |launch.inputs|
        invariant p <= |launch.inputs| && Ready(length, cores)
        invariant forall q: nat :: q < p ==> Loaded(launch, buffers, q, phase, from, tileLength)
        invariant forall f: nat, q: nat :: f < 2 && q < |launch.inputs| && Held(launch, old(buffers), q, f) ==>
          Held(launch, buffers, q, f)
        invariant isFirstScalarTime && tileLength == launch.split.ubFormer ==>
          forall q: nat :: q < p ==> Held(launch, buffers, q, phase)
      {
        CopyInStep(launch, length, cores, buffers, isFirstScalarTime, p, from, tileLength, phase);
        CopyIn(p, offset, tileLength, phase, length, cores);
        p := p + 1;
      }
    }

    /** Computes one tile and writes it to global memory. */
    method CopyOut(out: Output<V>, offset: nat, tileLength: nat, phase: nat, ghost length: nat, ghost cores: nat)
      requires Ready(length, cores) && phase < 2 && tileLength <= launch.split.ubFormer
      requires out.Sized(length)
      requires BlockOffset(launch.split, blockIdx) + offset + tileLength <= length
      requires AllLoaded(launch, buffers, phase, BlockOffset(launch.split, blockIdx) + offset, tileLength)
      modifies out.data, out.writes
      ensures SourcesReady(launch, length)
      ensures Written(Results(launch, length), old(out.data[..]), out.data[..], old(out.writes[..]), out.writes[..],
                      BlockOffset(launch.split, blockIdx) + offset, tileLength)
    {
      hide Exact, BitSet, Written, Results;
      SourcesExist(launch, length, cores);
      NothingWritten(Results(launch, length), out.data[..], out.writes[..],
        BlockOffset(launch.split, blockIdx) + offset);
      var from := BlockOffset(launch.split, blockIdx) + offset;
      for k := 0 to tileLength
        invariant Written(Results(launch, length), old(out.data[..]), out.data[..], old(out.writes[..]),
          out.writes[..], from, k)
      {
        var operands := Gather(launch, buffers, phase, k);
        assert operands == Operands(launch, from + k) by {
          forall p: nat | p < |launch.inputs| ensures operands[p] == Operands(launch, from + k)[p] {
            assert Loaded(launch, buffers, p, phase, from, tileLength);
            assert Supplies(launch, buffers[BufId(launch.shared, p, phase)], p, from, k);
          }
        }
        WrittenOne(Results(launch, length), old(out.data[..]), out.data[..], old(out.writes[..]), out.writes[..],
          from, k);
        ghost var d, w := out.data[..], out.writes[..];
        out.data[from + k] := launch.compute(operands);
        out.writes[from + k] := out.writes[from + k] + 1;
        assert out.data[..] == d[from + k := launch.compute(operands)];
        assert out.writes[..] == w[from + k := w[from + k] + 1];
      }
    }

    method Run(out: Output<V>, offset: nat, tileLength: nat, phase: nat, ghost length: nat, ghost cores: nat)
      requires Ready(length, cores) && phase < 2 && tileLength <= launch.split.ubFormer
      requires out.Sized(length)
      requires BlockOffset(launch.split, blockIdx) + offset + tileLength <= length
      requires isFirstScalarTime || AllHeld(launch, buffers, phase)
      modifies this`buffers, out.data, out.writes
      ensures Ready(length, cores) && SourcesReady(launch, length)
      ensures forall f: nat :: f < 2 && AllHeld(launch, old(buffers), f) ==> AllHeld(launch, buffers, f)
      ensures isFirstScalarTime && tileLength == launch.split.ubFormer ==> AllHeld(launch, buffers, phase)
      ensures Written(Results(launch, length), old(out.data[..]), out.data[..], old(out.writes[..]), out.writes[..],
                      BlockOffset(launch.split, blockIdx) + offset, tileLength)
    {
      hide Exact, BitSet, Loaded, AllHeld, WellFormed, Written, Results;
      LoadTile(offset, tileLength, phase, length, cores);
      CopyOut(out, offset, tileLength, phase, length, cores);
    }

    /** Walks the tiles of this core, ping and pong in turn, the last one cut short. */
    method Process(out: Output<V>, ghost length: nat, ghost cores: nat)
      requires Ready(length, cores) && out.Sized(length)
      modifies this`buffers, this`isFirstScalarTime, out.data, out.writes
      ensures SourcesReady(launch, length)
      ensures BlockOffset(launch.split, blockIdx) <= BlockEnd(launch.split, blockIdx) <= length
      ensures Written(Results(launch, length), old(out.data[..]), out.data[..], old(out.writes[..]), out.writes[..],
                      BlockOffset(launch.split, blockIdx),
                      BlockEnd(launch.split, blockIdx) - BlockOffset(launch.split, blockIdx))
    {
      hide Exact, BitSet, Loaded, AllHeld, Written, BlockOffset, Results;
      var u := launch.split.ubFormer;
      ghost var base := BlockOffset(launch.split, blockIdx);
      SourcesExist(launch, length, cores);
      BlocksTile(launch.split, length, cores, blockIdx);
      ExactBounds(launch.split, length, cores, blockIdx);
      NothingWritten(Results(launch, length), out.data[..], out.writes[..], base);
      var offset, i := 0, 0;
      isFirstScalarTime := true;
      while i < blockLoopNum - 1
        invariant 0 <= i <= blockLoopNum - 1 && offset == i * u && Ready(length, cores)
        invariant i >= 1 ==> AllHeld(launch, buffers, 0)
        invariant i >= 2 ==> AllHeld(launch, buffers, 1)
        invariant !isFirstScalarTime ==> i >= 2
        invariant Written(Results(launch, length), old(out.data[..]), out.data[..], old(out.writes[..]),
          out.writes[..], base, offset)
      {
        TileFits(i, u, blockLoopNum);
        if isFirstScalarTime && i > 1 {
          isFirstScalarTime := false;
        }
        ghost var d, w := out.data[..], out.writes[..];
        Run(out, offset, u, i % 2, length, cores);
        WrittenThen(Results(launch, length), old(out.data[..]), d, out.data[..], old(out.writes[..]), w,
          out.writes[..], base, offset, u);
        offset := offset + u;
        i := i + 1;
      }
      ghost var d, w := out.data[..], out.writes[..];
      Run(out, offset, ubTailNum, i % 2, length, cores);
      WrittenThen(Results(launch, length), old(out.data[..]), d, out.data[..], old(out.writes[..]), w, out.writes[..],
        base, offset, ubTailNum);
    }
  }

  function Gather<V>(l: Launch<V>, buffers: seq<seq<V>>, phase: nat, k: nat): (vs: seq<V>)
    requires |l.shared| == |l.inputs| && |buffers| == 2 * |l.inputs| && phase < 2
    requires forall i :: 0 <= i < |buffers| ==> k < |buffers[i]|
    ensures |vs| == |l.inputs| && forall p :: 0 <= p < |vs| ==> vs[p] == buffers[BufId(l.shared, p, phase)][k]
  {
    seq(|l.inputs|, p requires 0 <= p < |l.inputs| => buffers[BufId(l.shared, p, phase)][k])
  }

  lemma ExactBounds(s: Split, length: nat, cores: nat, b: nat)
    requires Exact(s, length, cores) && b < s.blockNum
    ensures Loops(s, b) >= 1 && 1 <= LastTile(s, b) <= s.ubFormer
    ensures 0 <= (Loops(s, b) - 1) * s.ubFormer
  {
    MulMonotone(0, Loops(s, b) - 1, s.ubFormer);
  }

  lemma TileFits(i: nat, u: nat, loops: nat)
    requires i < loops - 1
    ensures i * u + u == (i + 1) * u <= (loops - 1) * u
  {}

  /** Running every core writes each output element exactly once, from input element
      j, or from element zero of an input flagged scalar. */
  method LaunchAll<V>(l: Launch<V>, out: Output<V>, memory: seq<seq<V>>, ghost length: nat, ghost cores: nat)
    requires WellFormed(l, length, cores) && Sized(l, memory)
    requires out.Sized(length)
    requires forall j :: 0 <= j < length ==> out.writes[j] == 0
    modifies out.data, out.writes
    ensures SourcesReady(l, length)
    ensures forall j :: 0 <= j < length ==> out.data[j] == l.compute(Operands(l, j))
    ensures forall j :: 0 <= j < length ==> out.writes[j] == 1
  {
    hide Exact, BitSet, BlockOffset, BlockEnd;
    SourcesExist(l, length, cores);
    NothingWritten(Results(l, length), out.data[..], out.writes[..], 0);
    FirstBlock(l.split, length, cores);
    ghost var done := 0;
    for b := 0 to l.split.blockNum
      invariant done == (if b == l.split.blockNum then length else BlockOffset(l.split, b)) <= length
      invariant Written(Results(l, length), old(out.data[..]), out.data[..], old(out.writes[..]), out.writes[..], 0,
        done)
    {
      BlocksTile(l.split, length, cores, b);
      ghost var d, w := out.data[..], out.writes[..];
      var core := new Core<V>(l, b, memory);
      core.Process(out, length, cores);
      WrittenThen(Results(l, length), old(out.data[..]), d, out.data[..], old(out.writes[..]), w, out.writes[..], 0,
                  done,
                  BlockEnd(l.split, b) - done);
      done := BlockEnd(l.split, b);
    }
  }

  lemma FirstBlock(s: Split, length: nat, cores: nat)
    requires Exact(s, length, cores)
    ensures s.blockNum >= 1 && BlockOffset(s, 0) == 0
  {}

  function Lengths<V>(inputs: seq<seq<V>>): (n: seq<nat>)
    ensures |n| == |inputs| && forall p :: 0 <= p < |inputs| ==> n[p] == |inputs[p]|
  {
    seq(|inputs|, p requires 0 <= p < |inputs| => |inputs[p]|)
  }

  /** The values of the inputs at output element j, inputs of length one repeated. */
  function Broadcast<V>(inputs: seq<seq<V>>, j: nat): (vs: seq<V>)
    requires forall p :: 0 <= p < |inputs| ==> |inputs[p]| == 1 || j < |inputs[p]|
    ensures |vs| == |inputs|
    ensures forall p :: 0 <= p < |inputs| ==> vs[p] == inputs[p][if |inputs[p]| == 1 then 0 else j]
  {
    seq(|inputs|, p requires 0 <= p < |inputs| => inputs[p][if |inputs[p]| == 1 then 0 else j])
  }

  /** The tile size the host computes is not negative, and it never divides by an empty
      tile. */
  predicate HostFindsTile(length: nat, coreNum: nat, aliveNum: nat, dTypeSize: nat, actualUbSize: int)
    requires coreNum > 0
  {
    aliveNum > 0 && dTypeSize > 0 ==>
      var u := UbFormer(aliveNum, actualUbSize, dTypeSize);
      u >= 0 && (length > 0 && u > 0 ==> NoEmptyTile(length, u, coreNum, dTypeSize, aliveNum))
  }

  /** Host tiling and kernel together: whenever the host accepts the problem, every
      output element is written exactly once with the value computed from the inputs
      broadcast to the output's length. */
  method TileAndRun<V(0)>(inputs: seq<seq<V>>, out: Output<V>, length: nat, coreNum: nat, aliveNum: nat,
                          dTypeSize: nat, actualUbSize: int, shared: seq<bool>, compute: seq<V> -> V)
      returns (ok: bool)
    requires |shared| == |inputs| && out.Sized(length) && coreNum > 0
    requires HostFindsTile(length, coreNum, aliveNum, dTypeSize, actualUbSize)
    requires forall p :: 0 <= p < |inputs| ==> |inputs[p]| == 1 || |inputs[p]| == length
    requires forall j :: 0 <= j < length ==> out.writes[j] == 0
    modifies out.data, out.writes
    ensures ok == (length > 0 && aliveNum > 0 && dTypeSize > 0 && dTypeSize <= AlignedShare(aliveNum, actualUbSize))
    ensures ok ==> forall j :: 0 <= j < length ==> out.writes[j] == 1
    ensures ok ==> forall j :: 0 <= j < length ==> out.data[j] == compute(Broadcast(inputs, j))
  {
    hide BitSet, SplitOf, FinalFormer, Exact, FlagOf, NoEmptyTile, UbFormer, AlignedShare;
    var dims := Lengths(inputs) + [length];
    var flag := GetOneDimScalarFlag(dims);
    var former := GetOneDimUBFormer(aliveNum, actualUbSize, dTypeSize);
    TileExists(aliveNum, actualUbSize, dTypeSize);
    if former.Err? {
      return false;
    }
    var split := DoOneDimFormerTiling(aliveNum, dTypeSize, [length], former.value, coreNum);
    if split.Err? {
      return false;
    }
    var l := Launch(split.value, flag, inputs, shared, compute);
    var v: V := *;
    var memory := Copies(Copies(v, split.value.ubFormer), 2 * |inputs|);
    FlagsMatch(l, dims, length);
    LaunchAll(l, out, memory, length, coreNum);
    assert forall j :: 0 <= j < length ==> Operands(l, j) == Broadcast(inputs, j);
    return true;
  }

  /** A tile of at least one element exactly if one fits. */
  lemma TileExists(aliveNum: nat, actualUbSize: int, dTypeSize: nat)
    ensures aliveNum > 0 && dTypeSize > 0 ==>
      (UbFormer(aliveNum, actualUbSize, dTypeSize) > 0 <==> dTypeSize <= AlignedShare(aliveNum, actualUbSize))
  {
    hide UbFormer;
    if aliveNum > 0 && dTypeSize > 0 {
      if actualUbSize >= 0 {
        FormerFits(aliveNum, actualUbSize, dTypeSize);
      } else {
        NegativeTileIff(aliveNum, actualUbSize, dTypeSize);
        FormerFits(aliveNum, -actualUbSize, dTypeSize);
      }
    }
  }

  lemma FlagsMatch<V>(l: Launch<V>, dims: seq<nat>, length: nat)
    requires dims == Lengths(l.inputs) + [length]
    requires forall i: nat :: BitSet(l.flag, i) <==> i < |dims| - 1 && dims[i] == 1
    ensures forall p :: 0 <= p < |l.inputs| ==> (BitSet(l.flag, p) <==> |l.inputs[p]| == 1)
  {}
}
