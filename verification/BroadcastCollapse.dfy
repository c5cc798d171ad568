/** Host-side collapse of any number of inputs and their output: neighbouring
    dimensions that the same inputs broadcast along become one. */
module BroadcastCollapse {
  import opened Arith
  import opened Shapes
  import opened BroadcastIndex
  import opened Strides
  import opened Wrappers

  /** The collapsed dimensions and strides of every input and, last, of the output. */
  datatype Layout = Layout(dims: seq<Shape>, strides: seq<seq<int>>)

  function OutputDims(l: Layout): (o: Shape)
    requires l.dims != []
  {
    l.dims[|l.dims| - 1]
  }

  /** What decides the merges: for every dimension which inputs have size one there,
      the output shape, and the mark of a dimension where all inputs do. */
  datatype Plan = Plan(flags: seq<nat>, out: Shape, target: nat)

  /** The input has positive dimensions and broadcasts to the output. */
  predicate BroadcastsTo(x: Shape, out: Shape) {
    |x| <= |out| && forall i :: 0 <= i < |out| ==> DimBroadcasts(Dim(x, |out|, i), out[i])
  }

  predicate DimBroadcasts(d: int, o: int) {
    d > 0 && (d == 1 || d == o)
  }

  predicate AllBroadcast(ins: seq<Shape>, out: Shape) {
    forall p :: 0 <= p < |ins| ==> BroadcastsTo(ins[p], out)
  }

  function PadAll(ins: seq<Shape>, out: Shape): (ps: seq<Shape>)
    requires forall p :: 0 <= p < |ins| ==> |ins[p]| <= |out|
    ensures |ps| == |ins| && forall p :: 0 <= p < |ins| ==> ps[p] == Pad(ins[p], |out|)
  {
    seq(|ins|, p requires 0 <= p < |ins| => Pad(ins[p], |out|))
  }

  // ----- flags -----

  predicate OfRank(ps: seq<Shape>, r: nat) {
    forall p :: 0 <= p < |ps| ==> |ps[p]| == r
  }

  /** One bit per input, set if dimension i of the input has size one. */
  function OnesFlag(ps: seq<Shape>, i: nat): (f: nat)
    requires forall p :: 0 <= p < |ps| ==> i < |ps[p]|
  {
    if ps == [] then 0 else
      var n := |ps| - 1;
      2 * OnesFlag(ps[..n], i) + if ps[n][i] == 1 then 1 else 0
  }

  predicate AllOnes(ps: seq<Shape>, i: nat)
    requires forall p :: 0 <= p < |ps| ==> i < |ps[p]|
  {
    forall p :: 0 <= p < |ps| ==> ps[p][i] == 1
  }

  predicate SameOnes(ps: seq<Shape>, i: nat, j: nat)
    requires forall p :: 0 <= p < |ps| ==> i < |ps[p]| && j < |ps[p]|
  {
    forall p :: 0 <= p < |ps| ==> (ps[p][i] == 1 <==> ps[p][j] == 1)
  }

  /** Equal flags mean the same inputs, and the largest flag means all of them. */
  lemma {:induction false} FlagMeaning(ps: seq<Shape>, i: nat, j: nat)
    requires forall p :: 0 <= p < |ps| ==> i < |ps[p]| && j < |ps[p]|
    ensures OnesFlag(ps, i) == OnesFlag(ps, j) <==> SameOnes(ps, i, j)
    ensures OnesFlag(ps, i) == Pow2(|ps|) - 1 <==> AllOnes(ps, i)
    ensures OnesFlag(ps, i) < Pow2(|ps|)
  {
    if ps != [] {
      var n := |ps| - 1;
      FlagMeaning(ps[..n], i, j);
      assert ps == ps[..n] + [ps[n]];
    }
  }

  function PlanOf(ps: seq<Shape>, out: Shape): (plan: Plan)
    requires OfRank(ps, |out|)
    ensures |plan.flags| == |out| && plan.out == out
  {
    Plan(seq(|out|, i requires 0 <= i < |out| => OnesFlag(ps, i)), out, Pow2(|ps|) - 1)
  }

  // ----- merging -----

  predicate Merges(plan: Plan, prev: nat, j: nat)
    requires 1 <= j < |plan.flags| == |plan.out|
  {
    prev == plan.flags[j] || (prev == plan.target && plan.out[j - 1] == 1)
  }

  predicate Skips(plan: Plan, j: nat)
    requires j < |plan.flags| == |plan.out|
  {
    plan.flags[j] == plan.target && plan.out[j] == 1
  }

  /** The flag that the next dimension is compared with after j dimensions. */
  function PrevFlag(plan: Plan, j: nat): (f: nat)
    requires 1 <= j <= |plan.flags| == |plan.out|
  {
    if j == 1 then plan.flags[0] else
      var p := PrevFlag(plan, j - 1);
      if Merges(plan, p, j - 1) || !Skips(plan, j - 1) then plan.flags[j - 1] else p
  }

  /** The last dimension multiplied by a. */
  function Grown(d: Shape, a: int): (r: Shape)
    requires d != []
    ensures |r| == |d|
  {
    d[..|d| - 1] + [a * d[|d| - 1]]
  }

  /** The collapsed dimensions d after dimension j, which has size a. */
  function Extended(plan: Plan, d: Shape, a: int, j: nat): (r: Shape)
    requires 1 <= j < |plan.flags| == |plan.out| && d != []
    ensures r != []
  {
    if Merges(plan, PrevFlag(plan, j), j) then Grown(d, a) else if Skips(plan, j) then d else d + [a]
  }

  /** The first j dimensions of a tensor, collapsed. */
  function Collapsed(plan: Plan, t: Shape, j: nat): (d: Shape)
    requires 1 <= j <= |plan.flags| == |plan.out| == |t|
    ensures d != []
  {
    if j == 1 then [t[0]] else
      Extended(plan, Collapsed(plan, t, j - 1), t[j - 1], j - 1)
  }

  function LayoutOf(ins: seq<Shape>, out: Shape): (l: Layout)
    requires out != [] && AllBroadcast(ins, out)
    ensures |l.dims| == |l.strides| == |ins| + 1
  {
    var ps := PadAll(ins, out) + [out];
    var plan := PlanOf(PadAll(ins, out), out);
    var o := Collapsed(plan, out, |out|);
    var dims := seq(|ps|, p requires 0 <= p < |ps| => Collapsed(plan, ps[p], |out|));
    Layout(dims, seq(|ps|, p requires 0 <= p < |ps| =>
      SameRank(plan, ps[p], out, |out|); BroadcastStrides(dims[p], o)))
  }

  /** Every tensor is collapsed to the same rank. */
  lemma {:induction false} SameRank(plan: Plan, s: Shape, t: Shape, j: nat)
    requires 1 <= j <= |plan.flags| == |plan.out| == |s| == |t|
    ensures |Collapsed(plan, s, j)| == |Collapsed(plan, t, j)|
  {
    if j > 1 {
      SameRank(plan, s, t, j - 1);
    }
  }

  // ----- the code -----

  /** Pads every input with leading ones to the rank of the output. */
  method PadInputs(ins: seq<Shape>, out: Shape) returns (r: Result<seq<Shape>>)
    ensures r.Err? ==> exists p :: 0 <= p < |ins| && |ins[p]| > |out|
    ensures r.Ok? ==> (forall p :: 0 <= p < |ins| ==> |ins[p]| <= |out|) && r.value == PadAll(ins, out)
  {
    var ps := [];
    for p := 0 to |ins|
      invariant |ps| == p && forall q :: 0 <= q < p ==> |ins[q]| <= |out| && ps[q] == Pad(ins[q], |out|)
    {
      if |out| < |ins[p]| {
        return Err;
      }
      ps := ps + [Ones(|out| - |ins[p]|) + ins[p]];
    }
    return Ok(ps);
  }

  /** Checks dimension i of every input, and marks the inputs of size one. */
  method FlagDim(ps: seq<Shape>, out: Shape, i: nat) returns (r: Result<nat>)
    requires OfRank(ps, |out|) && i < |out|
    ensures r.Ok? <==> forall p :: 0 <= p < |ps| ==> DimBroadcasts(ps[p][i], out[i])
    ensures r.Ok? ==> r.value == OnesFlag(ps, i)
  {
    var flag: nat := 0;
    for p := 0 to |ps|
      invariant flag == OnesFlag(ps[..p], i)
      invariant forall q :: 0 <= q < p ==> DimBroadcasts(ps[q][i], out[i])
    {
      flag := 2 * flag;
      if ps[p][i] != 1 && ps[p][i] != out[i] {
        return Err;
      }
      if ps[p][i] <= 0 {
        return Err;
      }
      if ps[p][i] == 1 {
        flag := flag + 1;
      }
      assert ps[..p + 1][..p] == ps[..p];
    }
    assert ps[..|ps|] == ps;
    return Ok(flag);
  }

  /** The merging loop over the dimensions of one tensor. */
  method CollapseTensor(plan: Plan, t: Shape) returns (d: Shape)
    requires |plan.flags| == |plan.out| == |t| > 0
    ensures d == Collapsed(plan, t, |t|)
  {
    var prevFlag := plan.flags[0];
    d := [t[0]];
    for j := 1 to |t|
      invariant d == Collapsed(plan, t, j) && prevFlag == PrevFlag(plan, j)
    {
      var curFlag := plan.flags[j];
      if prevFlag == curFlag || (prevFlag == plan.target && plan.out[j - 1] == 1) {
        d := d[..|d| - 1] + [t[j] * d[|d| - 1]];
        prevFlag := curFlag;
      } else if curFlag == plan.target && plan.out[j] == 1 {
      } else {
        prevFlag := curFlag;
        d := d + [t[j]];
      }
    }
  }

  /** Strides from the last dimension on, built backwards. */
  method StridesFor(x: Shape, o: Shape, isOutput: bool) returns (s: seq<int>)
    requires |x| == |o| && (isOutput ==> x == o)
    ensures s == BroadcastStrides(x, o)
  {
    var tmp, base := [], 1;
    var j := |x|;
    assert x[j..] == [] && o[j..] == [];
    while j > 0
      invariant 0 <= j <= |x| && base == Numel(x[j..])
      invariant Reverse(tmp) == BroadcastStrides(x[j..], o[j..])
    {
      j := j - 1;
      assert x[j..][1..] == x[j + 1..] && o[j..][1..] == o[j + 1..];
      if x[j] == 1 && !isOutput && o[j] != 1 {
        assert Reverse(tmp + [0]) == [0] + Reverse(tmp);
        tmp := tmp + [0];
      } else {
        assert Reverse(tmp + [base]) == [base] + Reverse(tmp);
        tmp := tmp + [base];
        base := base * x[j];
      }
    }
    assert x[0..] == x && o[0..] == o;
    s := Reverse(tmp);
  }

  /** Checks and flags every dimension. */
  method FlagDims(ghost ins: seq<Shape>, ps: seq<Shape>, out: Shape) returns (r: Result<seq<nat>>)
    requires (forall p :: 0 <= p < |ins| ==> |ins[p]| <= |out|) && ps == PadAll(ins, out)
    ensures r.Ok? <==> AllBroadcast(ins, out)
    ensures r.Ok? ==> r.value == PlanOf(ps, out).flags
  {
    var flags := [];
    for i := 0 to |out|
      invariant |flags| == i && forall k :: 0 <= k < i ==> flags[k] == OnesFlag(ps, k)
      invariant forall k, p :: 0 <= k < i && 0 <= p < |ps| ==> DimBroadcasts(ps[p][k], out[k])
    {
      var flag := FlagDim(ps, out, i);
      if flag.Err? {
        NotAllBroadcast(ins, out, i);
        return Err;
      }
      flags := flags + [flag.value];
    }
    EveryDimBroadcasts(ins, out);
    return Ok(flags);
  }

  /** The strides of all tensors; the output is the last one. */
  method StridesOfAll(dims: seq<Shape>) returns (strides: seq<seq<int>>)
    requires dims != [] && OfRank(dims, |dims[|dims| - 1]|)
    ensures |strides| == |dims|
    ensures forall q :: 0 <= q < |dims| ==> strides[q] == BroadcastStrides(dims[q], dims[|dims| - 1])
  {
    strides := [];
    for p := 0 to |dims|
      invariant |strides| == p
      invariant forall q :: 0 <= q < p ==> strides[q] == BroadcastStrides(dims[q], dims[|dims| - 1])
    {
      var s := StridesFor(dims[p], dims[|dims| - 1], p == |dims| - 1);
      strides := strides + [s];
    }
  }

  /** Pads, checks and flags the inputs, collapses every tensor and computes strides;
      fails exactly if some input does not broadcast to the output. */
  method DimensionCollapse(ins: seq<Shape>, out: Shape) returns (r: Result<Layout>)
    requires ins != [] && out != []
    ensures r.Ok? <==> AllBroadcast(ins, out)
    ensures r.Ok? ==> r.value == LayoutOf(ins, out)
  {
    hide Extended, BroadcastStrides, OnesFlag;
    var padded := PadInputs(ins, out);
    if padded.Err? {
      return Err;
    }
    var ps := padded.value;
    var flags := FlagDims(ins, ps, out);
    if flags.Err? {
      return Err;
    }
    var plan := Plan(flags.value, out, Pow2(|ps|) - 1);
    var dims := [];
    for p := 0 to |ps|
      invariant |dims| == p && forall q :: 0 <= q < p ==> dims[q] == Collapsed(plan, ps[q], |out|)
    {
      var d := CollapseTensor(plan, ps[p]);
      dims := dims + [d];
    }
    var o := CollapseTensor(plan, out);
    dims := dims + [o];
    forall p | 0 <= p < |ps| ensures |dims[p]| == |o| {
      SameRank(plan, ps[p], out, |out|);
    }
    var strides := StridesOfAll(dims);
    assert Layout(dims, strides) == LayoutOf(ins, out);
    return Ok(Layout(dims, strides));
  }

  lemma NotAllBroadcast(ins: seq<Shape>, out: Shape, i: nat)
    requires i < |out| && forall p :: 0 <= p < |ins| ==> |ins[p]| <= |out|
    requires exists p :: 0 <= p < |ins| && !DimBroadcasts(PadAll(ins, out)[p][i], out[i])
    ensures !AllBroadcast(ins, out)
  {
    var p :| 0 <= p < |ins| && !DimBroadcasts(PadAll(ins, out)[p][i], out[i]);
    assert PadAll(ins, out)[p][i] == Dim(ins[p], |out|, i);
    assert !BroadcastsTo(ins[p], out);
  }

  lemma EveryDimBroadcasts(ins: seq<Shape>, out: Shape)
    requires forall p :: 0 <= p < |ins| ==> |ins[p]| <= |out|
    requires forall i, p :: 0 <= i < |out| && 0 <= p < |ins| ==> DimBroadcasts(PadAll(ins, out)[p][i], out[i])
    ensures AllBroadcast(ins, out)
  {
    forall p | 0 <= p < |ins| ensures BroadcastsTo(ins[p], out) {
      forall i | 0 <= i < |out| ensures DimBroadcasts(Dim(ins[p], |out|, i), out[i]) {
        assert PadAll(ins, out)[p][i] == Dim(ins[p], |out|, i);
      }
    }
  }

  // ----- element counts -----

  lemma GrownNumel(d: Shape, a: int)
    requires d != []
    ensures Numel(Grown(d, a)) == Numel(d) * a
  {
    var p, g := d[..|d| - 1], d[|d| - 1];
    assert d == p + [g];
    NumelSnoc(p, g);
    NumelSnoc(p, a * g);
    MulAssociates(Numel(p), g, a);
    assert a * g == g * a;
  }

  /** Dimensions that may be skipped have size one. */
  predicate Skippable(plan: Plan, t: Shape)
    requires |plan.flags| == |plan.out| == |t|
  {
    forall i :: 0 <= i < |t| && Skips(plan, i) ==> t[i] == 1
  }

  lemma ExtendedNumel(plan: Plan, d: Shape, a: int, j: nat)
    requires 1 <= j < |plan.flags| == |plan.out| && d != [] && (Skips(plan, j) ==> a == 1)
    ensures Numel(Extended(plan, d, a, j)) == Numel(d) * a
  {
    hide Numel, Grown;
    GrownNumel(d, a);
    NumelSnoc(d, a);
  }

  /** Element counts survive the collapse. */
  lemma {:induction false} CollapsedNumel(plan: Plan, t: Shape, j: nat)
    requires 1 <= j <= |plan.flags| == |plan.out| == |t| && Skippable(plan, t)
    ensures Numel(Collapsed(plan, t, j)) == Numel(t[..j])
  {
    hide Numel, Extended, Skippable;
    if j == 1 {
      assert t[..1] == [t[0]];
    } else {
      CollapsedNumel(plan, t, j - 1);
      NumelStep(plan, t, j - 1);
    }
  }

  lemma NumelStep(plan: Plan, t: Shape, k: nat)
    requires 1 <= k < |plan.flags| == |plan.out| == |t| && Skippable(plan, t)
    requires Numel(Collapsed(plan, t, k)) == Numel(t[..k])
    ensures Numel(Collapsed(plan, t, k + 1)) == Numel(t[..k + 1])
  {
    hide Numel, Extended, Skips;
    ExtendedNumel(plan, Collapsed(plan, t, k), t[k], k);
    assert t[..k + 1] == t[..k] + [t[k]];
    NumelSnoc(t[..k], t[k]);
  }

  // ----- which dimension decides -----

  /** All inputs are padded to the output's rank and broadcast to it. */
  predicate Fits(ps: seq<Shape>, out: Shape) {
    && OfRank(ps, |out|) && Positive(out)
    && forall p, i :: 0 <= p < |ps| && 0 <= i < |out| ==> DimBroadcasts(ps[p][i], out[i])
  }

  /** The last of the first j dimensions with more than one output element, or -1. */
  function LastWide(out: Shape, j: nat): (w: int)
    requires j <= |out|
    ensures -1 <= w < j && (w >= 0 ==> out[w] != 1)
    ensures forall i :: w < i < j ==> out[i] == 1
  {
    if j == 0 then -1 else if out[j - 1] != 1 then j - 1 else LastWide(out, j - 1)
  }

  /** A dimension of one output element has all inputs of size one. */
  lemma NarrowDim(ps: seq<Shape>, out: Shape, i: nat)
    requires Fits(ps, out) && i < |out| && out[i] == 1
    ensures AllOnes(ps, i) && Skips(PlanOf(ps, out), i)
  {
    forall p | 0 <= p < |ps| ensures ps[p][i] == 1 {
      assert DimBroadcasts(ps[p][i], out[i]);
    }
    FlagMeaning(ps, i, i);
  }

  function FlagAt(plan: Plan, w: int): (f: nat)
    requires w < |plan.flags|
  {
    if w < 0 then plan.target else plan.flags[w]
  }

  /** Dimensions with one output element never change the flag compared with. */
  lemma {:induction false} PrevIsLastWide(ps: seq<Shape>, out: Shape, j: nat)
    requires Fits(ps, out) && 1 <= j <= |out|
    ensures PrevFlag(PlanOf(ps, out), j) == FlagAt(PlanOf(ps, out), LastWide(out, j))
  {
    if out[j - 1] == 1 {
      NarrowDim(ps, out, j - 1);
    }
    if j > 1 {
      PrevIsLastWide(ps, out, j - 1);
    }
  }

  // ----- when the collapse is right -----

  /** A wide dimension along which all inputs broadcast, then dimensions of one element
      only, at least one, then a dimension along which some input does not broadcast. */
  predicate LosesAt(ps: seq<Shape>, out: Shape, j: nat, k: nat)
    requires OfRank(ps, |out|) && k < |out|
  {
    && j + 1 < k && out[j] != 1 && AllOnes(ps, j) && !AllOnes(ps, k)
    && forall i :: j < i < k ==> out[i] == 1
  }

  predicate Loses(ps: seq<Shape>, out: Shape)
    requires OfRank(ps, |out|)
  {
    exists j, k :: 0 <= j < k < |out| && LosesAt(ps, out, j, k)
  }

  /** What the last group of an input looks like next to the output's. */
  ghost predicate GroupOk(x: Shape, out: Shape, j: nat, g: int, h: int)
    requires |x| == |out| && j <= |out|
  {
    var w := LastWide(out, j);
    if w < 0 then g == h == 1 else if x[w] == 1 then g == 1 else g == h
  }

  function Last(d: Shape): (g: int)
    requires d != []
  {
    d[|d| - 1]
  }

  /** Without a loss, a merge joins two dimensions of one kind. */
  lemma MergeKind(ps: seq<Shape>, out: Shape, p: nat, j: nat)
    requires Fits(ps, out) && 1 <= j < |out| && p < |ps| && !Loses(ps, out)
    requires Merges(PlanOf(ps, out), PrevFlag(PlanOf(ps, out), j), j) && out[j] != 1 && LastWide(out, j) >= 0
    ensures ps[p][LastWide(out, j)] == 1 <==> ps[p][j] == 1
  {
    var plan, w := PlanOf(ps, out), LastWide(out, j);
    PrevIsLastWide(ps, out, j);
    FlagMeaning(ps, w, j);
    FlagMeaning(ps, j, j);
    if plan.flags[w] != plan.flags[j] {
      assert LosesAt(ps, out, w, j);
    }
  }

  /** The last group of input p next to the output's, after j dimensions. */
  ghost predicate LastOk(ps: seq<Shape>, out: Shape, p: nat, j: nat)
    requires Fits(ps, out) && 1 <= j <= |out| && p < |ps|
  {
    var plan := PlanOf(ps, out);
    GroupOk(ps[p], out, j, Last(Collapsed(plan, ps[p], j)), Last(Collapsed(plan, out, j)))
  }

  lemma {:induction false} GroupKept(ps: seq<Shape>, out: Shape, p: nat, j: nat)
    requires Fits(ps, out) && 1 <= j <= |out| && p < |ps| && !Loses(ps, out)
    ensures LastOk(ps, out, p, j)
  {
    hide LastOk, Fits, Loses;
    if j == 1 {
      FirstGroup(ps, out, p);
    } else {
      GroupKept(ps, out, p, j - 1);
      GroupStep(ps, out, p, j - 1);
    }
  }

  lemma FirstGroup(ps: seq<Shape>, out: Shape, p: nat)
    requires Fits(ps, out) && out != [] && p < |ps|
    ensures LastOk(ps, out, p, 1)
  {
    assert DimBroadcasts(ps[p][0], out[0]);
  }

  lemma GroupStep(ps: seq<Shape>, out: Shape, p: nat, k: nat)
    requires Fits(ps, out) && 1 <= k < |out| && p < |ps| && !Loses(ps, out) && LastOk(ps, out, p, k)
    ensures LastOk(ps, out, p, k + 1)
  {
    hide Merges, Skips, PlanOf, Loses, Extended;
    var plan, x := PlanOf(ps, out), ps[p];
    assert DimBroadcasts(x[k], out[k]);
    if out[k] == 1 {
      NarrowDim(ps, out, k);
    } else {
      NotSkipped(ps, out, k);
      if Merges(plan, PrevFlag(plan, k), k) && LastWide(out, k) >= 0 {
        MergeKind(ps, out, p, k);
      }
    }
    ExtendedLast(plan, Collapsed(plan, x, k), x[k], k);
    ExtendedLast(plan, Collapsed(plan, out, k), out[k], k);
  }

  lemma NotSkipped(ps: seq<Shape>, out: Shape, i: nat)
    requires OfRank(ps, |out|) && i < |out|
    ensures out[i] != 1 ==> !Skips(PlanOf(ps, out), i)
  {}

  lemma ExtendedLast(plan: Plan, d: Shape, a: int, j: nat)
    requires 1 <= j < |plan.flags| == |plan.out| && d != []
    ensures Last(Extended(plan, d, a, j)) ==
      if Merges(plan, PrevFlag(plan, j), j) then a * Last(d) else if Skips(plan, j) then Last(d) else a
  {}

  lemma {:induction false} CollapsedPositive(plan: Plan, t: Shape, j: nat)
    requires 1 <= j <= |plan.flags| == |plan.out| == |t| && Positive(t)
    ensures Positive(Collapsed(plan, t, j))
  {
    if j > 1 {
      var d := Collapsed(plan, t, j - 1);
      CollapsedPositive(plan, t, j - 1);
      MulPositive(t[j - 1], Last(d));
    }
  }

  /** Two neighbouring dimensions are both broadcast, or both not. */
  predicate OneKind(g: int, h: int, a: int, w: int) {
    (g == 1 && a == 1) || (g == h && a == w)
  }

  /** Joining two fastest dimensions of one kind. */
  lemma MergeSnoc(x: Shape, o: Shape, g: int, h: int, a: int, w: int, n: int)
    requires |x| == |o| && Positive(o) && h > 0 && w > 0 && n >= 0
    requires OneKind(g, h, a, w)
    ensures h * w > 0 && Positive(o + [h * w]) && Positive(o + [h]) && n / w >= 0
    ensures FlatIndex(x + [a * g], o + [w * h], n)
         == Joined(FlatIndex(x + [g], o + [h], n / w), a, w, n)
  {
    hide FlatIndex;
    MulPositive(h, w);
    assert h * w == w * h;
    FlatSnoc(x, o, a * g, w * h, n);
    FlatSnoc(x, o, g, h, n / w);
    DigitSplit(n, w, h);
    Combine(FlatIndex(x, o, n / (w * h)), g, h, a, w, n);
  }

  lemma Combine(f: int, g: int, h: int, a: int, w: int, n: int)
    requires h > 0 && w > 0 && n >= 0
    requires OneKind(g, h, a, w)
    requires w * h > 0 && n % (w * h) == n % w + w * ((n / w) % h)
    ensures f * (a * g) + (if a * g == 1 then 0 else n % (w * h))
         == (f * g + if g == 1 then 0 else (n / w) % h) * a + if a == 1 then 0 else n % w
  {
    var d, e := (n / w) % h, n % w;
    assert f * (a * g) == f * g * a;
    if g == 1 && a == 1 {
    } else if a == 1 {
      assert w == 1 && e == 0;
    } else if g == 1 {
      assert h == 1 && d == 0;
    } else {
      ProductNotOne(a, g);
      assert (f * g + d) * a == f * g * a + w * d;
    }
  }

  lemma ProductNotOne(a: int, b: int)
    requires a > 1 && b > 1
    ensures a * b != 1
  {
    MulMonotone(2, a, b);
  }

  /** One more dimension on the collapsed side and on the original side. */
  lemma ExtendedIndex(plan: Plan, x: Shape, o: Shape, a: int, w: int, j: nat, n: int)
    requires 1 <= j < |plan.flags| == |plan.out| && x != [] && |x| == |o| && Positive(o) && w > 0 && n >= 0
    requires Merges(plan, PrevFlag(plan, j), j) ==> OneKind(Last(x), Last(o), a, w)
    requires Skips(plan, j) ==> a == w == 1
    ensures |Extended(plan, x, a, j)| == |Extended(plan, o, w, j)| && Positive(Extended(plan, o, w, j)) && n / w >= 0
    ensures FlatIndex(Extended(plan, x, a, j), Extended(plan, o, w, j), n)
         == Joined(FlatIndex(x, o, n / w), a, w, n)
  {
    hide FlatIndex, Merges, Skips, Joined, OneKind;
    if Merges(plan, PrevFlag(plan, j), j) {
      var p, q := x[..|x| - 1], o[..|o| - 1];
      assert x == p + [Last(x)] && o == q + [Last(o)];
      MergeSnoc(p, q, Last(x), Last(o), a, w, n);
    } else if !Skips(plan, j) {
      FlatSnoc(x, o, a, w, n);
    } else {
      JoinedUnit(FlatIndex(x, o, n), n);
    }
  }

  lemma JoinedUnit(k: int, n: int)
    ensures Joined(k, 1, 1, n) == k && n / 1 == n
  {}

  /** The collapsed shapes address what the original ones address, after j dimensions. */
  ghost predicate SameIndex(ps: seq<Shape>, out: Shape, p: nat, j: nat, n: int)
    requires Fits(ps, out) && 1 <= j <= |out| && p < |ps| && n >= 0
  {
    var plan := PlanOf(ps, out);
    CollapsedPositive(plan, out, j);
    SameRank(plan, ps[p], out, j);
    FlatIndex(Collapsed(plan, ps[p], j), Collapsed(plan, out, j), n) == FlatIndex(ps[p][..j], out[..j], n)
  }

  /** Without a loss, the collapse changes no address. */
  lemma {:induction false} CollapsedIndex(ps: seq<Shape>, out: Shape, p: nat, j: nat, n: int)
    requires Fits(ps, out) && 1 <= j <= |out| && p < |ps| && !Loses(ps, out) && n >= 0
    ensures SameIndex(ps, out, p, j, n)
    decreases j
  {
    if j == 1 {
      assert ps[p][..1] == [ps[p][0]] && out[..1] == [out[0]];
    } else {
      FitsPositive(ps, out, j - 1, n);
      CollapsedIndex(ps, out, p, j - 1, n / out[j - 1]);
      IndexStep(ps, out, p, j - 1, n, n / out[j - 1]);
    }
  }

  lemma IndexStep(ps: seq<Shape>, out: Shape, p: nat, k: nat, n: int, m: int)
    requires Fits(ps, out) && 1 <= k < |out| && p < |ps| && !Loses(ps, out) && n >= 0
    requires Positive(out) && m == n / out[k] >= 0 && SameIndex(ps, out, p, k, m)
    ensures SameIndex(ps, out, p, k + 1, n)
  {
    hide FlatIndex, Extended, Loses, Joined, DimBroadcasts, Merges, Skips, OneKind, PlanOf;
    var plan, x := PlanOf(ps, out), ps[p];
    CollapsedPositive(plan, out, k);
    SameRank(plan, x, out, k);
    StepOfOneKind(ps, out, p, k);
    ExtendedIndex(plan, Collapsed(plan, x, k), Collapsed(plan, out, k), x[k], out[k], k, n);
    PrefixIndex(x, out, k, n);
  }

  lemma PrefixIndex(x: Shape, o: Shape, k: nat, n: int)
    requires |x| == |o| && k < |x| && Positive(o) && n >= 0
    ensures n / o[k] >= 0
    ensures FlatIndex(x[..k + 1], o[..k + 1], n) == Joined(FlatIndex(x[..k], o[..k], n / o[k]), x[k], o[k], n)
  {
    hide FlatIndex;
    assert x[..k + 1] == x[..k] + [x[k]] && o[..k + 1] == o[..k] + [o[k]];
    FlatSnoc(x[..k], o[..k], x[k], o[k], n);
  }

  lemma FitsPositive(ps: seq<Shape>, out: Shape, i: nat, n: int)
    requires Fits(ps, out) && i < |out| && n >= 0
    ensures Positive(out) && n / out[i] >= 0
  {}

  lemma StepOfOneKind(ps: seq<Shape>, out: Shape, p: nat, j: nat)
    requires Fits(ps, out) && 1 <= j < |out| && p < |ps| && !Loses(ps, out)
    ensures var plan := PlanOf(ps, out);
      var g, h := Last(Collapsed(plan, ps[p], j)), Last(Collapsed(plan, out, j));
      && (Skips(plan, j) ==> ps[p][j] == out[j] == 1)
      && (Merges(plan, PrevFlag(plan, j), j) ==> OneKind(g, h, ps[p][j], out[j]))
  {
    hide Merges, Loses, Skips;
    GroupKept(ps, out, p, j);
    assert DimBroadcasts(ps[p][j], out[j]);
    if out[j] != 1 {
      NotSkipped(ps, out, j);
      if Merges(PlanOf(ps, out), PrevFlag(PlanOf(ps, out), j), j) && LastWide(out, j) >= 0 {
        MergeKind(ps, out, p, j);
      }
    }
  }
}
