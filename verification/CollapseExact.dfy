/** Exactly when the collapse of inputs and output keeps every address. */
module CollapseExact {
  import opened Arith
  import opened Shapes
  import opened BroadcastCollapse
  import opened BroadcastIndex
  import opened Strides

  // ----- when the collapse is wrong -----

  /** Some dimension is neither broadcast nor as large as the output's. */
  ghost predicate Mixed(x: Shape, o: Shape)
    requires |x| == |o|
  {
    exists i :: 0 <= i < |x| && 1 < x[i] < o[i]
  }

  /** The last output element addresses the last input element or, with a mixed
      dimension, one behind it. */
  lemma {:induction false} LastElement(x: Shape, o: Shape)
    requires Within(x, o) && Positive(o)
    ensures Numel(o) > 0 && FlatIndex(x, o, Numel(o) - 1) >= Numel(x) - 1
    ensures Mixed(x, o) ==> FlatIndex(x, o, Numel(o) - 1) >= Numel(x)
  {
    if x != [] {
      var x', o' := x[1..], o[1..];
      LastElement(x', o');
      assert Mixed(x, o) ==> 1 < x[0] < o[0] || Mixed(x', o') by {
        assert forall i :: 1 <= i < |x| ==> x[i] == x'[i - 1] && o[i] == o'[i - 1];
      }
      NumelPositive(x');
      LeadingMaximum(x, o);
    }
  }

  lemma LeadingMaximum(x: Shape, o: Shape)
    requires Within(x, o) && Positive(o) && x != []
    ensures Numel(o) > 0 && Numel(o[1..]) > 0
    ensures FlatIndex(x, o, Numel(o) - 1) - FlatIndex(x[1..], o[1..], Numel(o[1..]) - 1)
      >= Numel(x) - Numel(x[1..]) + if 1 < x[0] < o[0] then Numel(x[1..]) else 0
  {
    hide FlatIndex, Numel;
    NumelPositive(o);
    NumelPositive(o[1..]);
    NumelPositive(x[1..]);
    NumelCons(x);
    FlatTop(x, o);
    LeadingGap(x[0], o[0], Numel(x[1..]));
  }

  /** The index of the last output element, with its leading digit split off. */
  lemma FlatTop(x: Shape, o: Shape)
    requires |x| == |o| > 0 && Positive(o)
    ensures Numel(o) > 0 && Numel(o[1..]) > 0
    ensures FlatIndex(x, o, Numel(o) - 1)
         == (if x[0] == 1 then 0 else o[0] - 1) * Numel(x[1..]) + FlatIndex(x[1..], o[1..], Numel(o[1..]) - 1)
  {
    hide FlatIndex, Numel, LeadsWith;
    LastDigits(o);
    FlatAt(x, o, Numel(o) - 1, o[0] - 1, Numel(o[1..]) - 1);
  }

  /** Flat index n has the leading digit q and the rest rest. */
  ghost predicate LeadsWith(o: Shape, n: int, q: int, rest: int)
    requires o != [] && o[0] > 0 && Numel(o[1..]) > 0
  {
    n == q * Numel(o[1..]) + rest && q >= 0 && rest >= 0 && (n / Numel(o[1..])) % o[0] == q
  }

  lemma LastDigits(o: Shape)
    requires o != [] && Positive(o)
    ensures Numel(o) > 0 && Numel(o[1..]) > 0
    ensures LeadsWith(o, Numel(o) - 1, o[0] - 1, Numel(o[1..]) - 1)
  {
    hide Numel;
    NumelPositive(o);
    NumelPositive(o[1..]);
    NumelCons(o);
    TopDigit(Numel(o) - 1, o[0], Numel(o[1..]));
  }

  /** The index at an element with a given leading digit and rest. */
  lemma FlatAt(x: Shape, o: Shape, n: int, q: int, rest: int)
    requires |x| == |o| > 0 && Positive(o) && Numel(o[1..]) > 0 && LeadsWith(o, n, q, rest)
    ensures FlatIndex(x, o, n) == (if x[0] == 1 then 0 else q) * Numel(x[1..]) + FlatIndex(x[1..], o[1..], rest)
  {
    hide FlatIndex, Numel;
    FlatStep(x, o, n);
    FlatPeriodic(x[1..], o[1..], rest, q);
  }

  lemma NumelCons(s: Shape)
    requires s != []
    ensures Numel(s) == s[0] * Numel(s[1..])
  {}

  lemma TopDigit(n: int, w: int, m: int)
    requires w > 0 && m > 0 && n == w * m - 1
    ensures n == (w - 1) * m + (m - 1) && (n / m) % w == w - 1
  {
    assert (w - 1) * m == w * m - m;
    DivModUnique(n, w - 1, m, m - 1);
    DivModUnique(w - 1, 0, w, w - 1);
  }

  lemma LeadingGap(a: int, w: int, m: int)
    requires 1 <= a <= w && m > 0
    ensures (if a == 1 then 0 else w - 1) * m >= a * m - m + if 1 < a < w then m else 0
  {
    if 1 < a < w {
      MulMonotone(a, w - 1, m);
    } else if a == w {
      assert (w - 1) * m == w * m - m;
    }
  }

  lemma ExtendedMixed(plan: Plan, x: Shape, o: Shape, a: int, w: int, j: nat)
    requires 1 <= j < |plan.flags| == |plan.out| && x != [] && Within(x, o) && 1 <= a <= w
    ensures Within(Extended(plan, x, a, j), Extended(plan, o, w, j))
    ensures Mixed(x, o) ==> Mixed(Extended(plan, x, a, j), Extended(plan, o, w, j))
  {
    hide Merges, Skips;
    var x', o', k := Extended(plan, x, a, j), Extended(plan, o, w, j), |x| - 1;
    ScaledWithin(x[k], o[k], a, w);
    if Mixed(x, o) {
      var i :| 0 <= i < |x| && 1 < x[i] < o[i];
      assert 1 < x'[i] < o'[i];
    }
  }

  lemma {:induction false} CollapsedWithin(ps: seq<Shape>, out: Shape, p: nat, j: nat)
    requires Fits(ps, out) && 1 <= j <= |out| && p < |ps|
    ensures Within(Collapsed(PlanOf(ps, out), ps[p], j), Collapsed(PlanOf(ps, out), out, j))
  {
    hide Extended, PlanOf;
    assert DimBroadcasts(ps[p][j - 1], out[j - 1]);
    if j > 1 {
      var plan := PlanOf(ps, out);
      CollapsedWithin(ps, out, p, j - 1);
      ExtendedMixed(plan, Collapsed(plan, ps[p], j - 1), Collapsed(plan, out, j - 1), ps[p][j - 1], out[j - 1], j - 1);
    }
  }

  /** A group that ends in a broadcast dimension is smaller than the output's. */
  ghost predicate LastShort(ps: seq<Shape>, out: Shape, p: nat, j: nat)
    requires Fits(ps, out) && 1 <= j <= |out| && p < |ps|
  {
    var plan, w := PlanOf(ps, out), LastWide(out, j);
    w >= 0 && ps[p][w] == 1 ==> Last(Collapsed(plan, ps[p], j)) < Last(Collapsed(plan, out, j))
  }

  lemma {:induction false} ShortKept(ps: seq<Shape>, out: Shape, p: nat, j: nat)
    requires Fits(ps, out) && 1 <= j <= |out| && p < |ps|
    ensures LastShort(ps, out, p, j)
  {
    hide LastShort, Fits;
    if j == 1 {
      FirstShort(ps, out, p);
    } else {
      ShortKept(ps, out, p, j - 1);
      ShortStep(ps, out, p, j - 1);
    }
  }

  lemma FirstShort(ps: seq<Shape>, out: Shape, p: nat)
    requires Fits(ps, out) && out != [] && p < |ps|
    ensures LastShort(ps, out, p, 1)
  {
    assert DimBroadcasts(ps[p][0], out[0]);
  }

  lemma ShortStep(ps: seq<Shape>, out: Shape, p: nat, k: nat)
    requires Fits(ps, out) && 1 <= k < |out| && p < |ps| && LastShort(ps, out, p, k)
    ensures LastShort(ps, out, p, k + 1)
  {
    hide Merges, Skips, PlanOf, Extended;
    var plan, x := PlanOf(ps, out), ps[p];
    var c, o := Collapsed(plan, x, k), Collapsed(plan, out, k);
    assert DimBroadcasts(x[k], out[k]);
    CollapsedWithin(ps, out, p, k);
    ScaledWithin(Last(c), Last(o), x[k], out[k]);
    if out[k] == 1 {
      NarrowDim(ps, out, k);
    } else {
      NotSkipped(ps, out, k);
    }
    ExtendedLast(plan, c, x[k], k);
    ExtendedLast(plan, o, out[k], k);
  }

  /** The merge behind a loss makes a mixed dimension. */
  lemma LossMixes(ps: seq<Shape>, out: Shape, p: nat, j: nat, k: nat)
    requires Fits(ps, out) && k < |out| && LosesAt(ps, out, j, k) && p < |ps| && ps[p][k] != 1
    ensures var plan := PlanOf(ps, out);
      && |Collapsed(plan, ps[p], k + 1)| == |Collapsed(plan, out, k + 1)|
      && Mixed(Collapsed(plan, ps[p], k + 1), Collapsed(plan, out, k + 1))
  {
    hide Skips, PlanOf, Extended;
    var plan, x := PlanOf(ps, out), ps[p];
    var c, o := Collapsed(plan, x, k), Collapsed(plan, out, k);
    assert DimBroadcasts(x[k], out[k]);
    assert LastWide(out, k) == j;
    BroadcastAlong(ps, out, j, k);
    CollapsedWithin(ps, out, p, k);
    ShortKept(ps, out, p, k);
    ScaledWithin(Last(c), Last(o), x[k], out[k]);
    SameRank(plan, x, out, k + 1);
    ExtendedLast(plan, c, x[k], k);
    ExtendedLast(plan, o, out[k], k);
    var i := |Collapsed(plan, x, k + 1)| - 1;
    assert 1 < Collapsed(plan, x, k + 1)[i] < Collapsed(plan, out, k + 1)[i];
  }

  lemma BroadcastAlong(ps: seq<Shape>, out: Shape, j: nat, k: nat)
    requires Fits(ps, out) && k < |out| && LosesAt(ps, out, j, k) && LastWide(out, k) == j
    ensures Merges(PlanOf(ps, out), PrevFlag(PlanOf(ps, out), k), k)
  {
    PrevIsLastWide(ps, out, k);
    FlagMeaning(ps, j, j);
  }

  lemma {:induction false} MixedKept(ps: seq<Shape>, out: Shape, p: nat, k: nat, j: nat)
    requires Fits(ps, out) && 1 <= k <= j <= |out| && p < |ps|
    requires |Collapsed(PlanOf(ps, out), ps[p], k)| == |Collapsed(PlanOf(ps, out), out, k)|
    requires Mixed(Collapsed(PlanOf(ps, out), ps[p], k), Collapsed(PlanOf(ps, out), out, k))
    ensures |Collapsed(PlanOf(ps, out), ps[p], j)| == |Collapsed(PlanOf(ps, out), out, j)|
    ensures Mixed(Collapsed(PlanOf(ps, out), ps[p], j), Collapsed(PlanOf(ps, out), out, j))
  {
    hide Extended, PlanOf, Mixed;
    if k < j {
      var plan := PlanOf(ps, out);
      MixedKept(ps, out, p, k, j - 1);
      CollapsedWithin(ps, out, p, j - 1);
      assert DimBroadcasts(ps[p][j - 1], out[j - 1]);
      ExtendedMixed(plan, Collapsed(plan, ps[p], j - 1), Collapsed(plan, out, j - 1), ps[p][j - 1], out[j - 1], j - 1);
    }
  }

  // ----- the exact condition -----

  /** What the strides of tensor p address for output element n. */
  function Address(l: Layout, p: nat, n: int): (k: int)
    requires p < |l.strides| && l.dims != [] && Positive(OutputDims(l)) && |l.strides[p]| == |OutputDims(l)|
  {
    Dot(Unravel(OutputDims(l), n), l.strides[p])
  }

  lemma PaddedFit(ins: seq<Shape>, out: Shape)
    requires AllBroadcast(ins, out) && Positive(out)
    ensures Fits(PadAll(ins, out), out)
  {
    var ps := PadAll(ins, out);
    forall p, i | 0 <= p < |ps| && 0 <= i < |out| ensures DimBroadcasts(ps[p][i], out[i]) {
      assert BroadcastsTo(ins[p], out);
    }
  }

  /** Dimensions and strides of the layout: the output keeps its element count, and every
      tensor has the broadcast strides of its collapsed dimensions. */
  lemma LayoutFacts(ins: seq<Shape>, out: Shape)
    requires out != [] && AllBroadcast(ins, out) && Positive(out)
    ensures var l := LayoutOf(ins, out);
      && OutputDims(l) != [] && |OutputDims(l)| <= |out| && Positive(OutputDims(l))
      && Numel(OutputDims(l)) == Numel(out)
      && forall p :: 0 <= p <= |ins| ==>
        Within(l.dims[p], OutputDims(l)) && l.strides[p] == BroadcastStrides(l.dims[p], OutputDims(l))
  {
    hide Numel, Extended, BroadcastStrides;
    var ps, l := PadAll(ins, out), LayoutOf(ins, out);
    var plan := PlanOf(ps, out);
    PaddedFit(ins, out);
    CollapsedPositive(plan, out, |out|);
    CollapsedNumel(plan, out, |out|);
    assert out[..|out|] == out;
    CollapsedRank(plan, out, |out|);
    forall p | 0 <= p <= |ins|
      ensures Within(l.dims[p], OutputDims(l)) && l.strides[p] == BroadcastStrides(l.dims[p], OutputDims(l))
    {
      if p < |ins| {
        CollapsedWithin(ps, out, p, |out|);
      }
    }
  }

  lemma {:induction false} CollapsedRank(plan: Plan, t: Shape, j: nat)
    requires 1 <= j <= |plan.flags| == |plan.out| == |t|
    ensures |Collapsed(plan, t, j)| <= j
  {
    if j > 1 {
      CollapsedRank(plan, t, j - 1);
    }
  }

  /** Every input is read where naive broadcasting reads it. */
  ghost predicate ReadsBroadcast(ins: seq<Shape>, out: Shape)
    requires out != [] && AllBroadcast(ins, out) && Positive(out)
  {
    LayoutFacts(ins, out);
    forall p, n :: 0 <= p < |ins| && 0 <= n < Numel(out) ==>
      Address(LayoutOf(ins, out), p, n) == NaiveIndex(ins[p], out, n)
  }

  /** Exactly without a loss, the collapsed strides address the naive broadcast source
      of every output element in every input. */
  lemma CollapseRightIff(ins: seq<Shape>, out: Shape)
    requires out != [] && AllBroadcast(ins, out) && Positive(out)
    ensures ReadsBroadcast(ins, out) <==> !Loses(PadAll(ins, out), out)
  {
    hide Loses, NaiveIndex, Address, Numel;
    LayoutFacts(ins, out);
    if Loses(PadAll(ins, out), out) {
      var p := LossReadsOutside(ins, out);
      NumelPositive(out);
      NaiveInside(ins[p], out, Numel(out) - 1);
    } else {
      forall p, n | 0 <= p < |ins| && 0 <= n < Numel(out)
        ensures Address(LayoutOf(ins, out), p, n) == NaiveIndex(ins[p], out, n)
      {
        AddressIsNaive(ins, out, p, n);
      }
    }
  }

  lemma AddressIsNaive(ins: seq<Shape>, out: Shape, p: nat, n: nat)
    requires out != [] && AllBroadcast(ins, out) && Positive(out) && p < |ins|
    requires !Loses(PadAll(ins, out), out)
    ensures var l := LayoutOf(ins, out);
      && Positive(OutputDims(l)) && |l.strides[p]| == |OutputDims(l)| && Address(l, p, n) == NaiveIndex(ins[p], out, n)
  {
    hide Numel, Extended, BroadcastStrides, Loses, NaiveIndex, FlatIndex, Dot, Unravel;
    var ps, l, r := PadAll(ins, out), LayoutOf(ins, out), |out|;
    PaddedFit(ins, out);
    LayoutFacts(ins, out);
    CollapsedIndex(ps, out, p, r, n);
    DotIsFlat(l.dims[p], OutputDims(l), n);
    NaiveIsFlat(ins[p], out, n);
    assert ps[p][..r] == ps[p] && out[..r] == out;
  }

  /** Naive broadcasting stays inside the input. */
  lemma NaiveInside(x: Shape, out: Shape, n: nat)
    requires BroadcastsTo(x, out) && Positive(out)
    ensures 0 <= NaiveIndex(x, out, n) < Numel(x)
  {
    forall i | 0 <= i < |x| ensures x[i] > 0 && (x[i] == 1 || x[i] == out[|out| - |x| + i]) {
      assert DimBroadcasts(Dim(x, |out|, |out| - |x| + i), out[|out| - |x| + i]);
    }
    NaiveIndexMeaning(x, out, n);
  }

  /** With a loss, the last output element reads behind the end of some input. */
  lemma LossReadsOutside(ins: seq<Shape>, out: Shape) returns (p: nat)
    requires out != [] && AllBroadcast(ins, out) && Positive(out)
    requires Loses(PadAll(ins, out), out)
    ensures var l := LayoutOf(ins, out);
      && p < |ins| && Positive(OutputDims(l)) && |l.strides[p]| == |OutputDims(l)| && Numel(out) > 0
      && Address(l, p, Numel(out) - 1) >= Numel(ins[p])
  {
    hide Numel, Extended, BroadcastStrides, FlatIndex, Dot, Unravel, Mixed;
    var ps, l, r := PadAll(ins, out), LayoutOf(ins, out), |out|;
    PaddedFit(ins, out);
    LayoutFacts(ins, out);
    var j: nat, k: nat :| j < k < |out| && LosesAt(ps, out, j, k);
    var q :| 0 <= q < |ps| && ps[q][k] != 1;
    p := q;
    LossMixes(ps, out, p, j, k);
    MixedKept(ps, out, p, k + 1, r);
    LastElement(l.dims[p], OutputDims(l));
    DotIsFlat(l.dims[p], OutputDims(l), Numel(out) - 1);
    InputNumel(ins, out, p);
  }

  /** Every input is read inside its tensor. */
  ghost predicate ReadsInside(ins: seq<Shape>, out: Shape)
    requires out != [] && AllBroadcast(ins, out) && Positive(out)
  {
    LayoutFacts(ins, out);
    forall p, n :: 0 <= p < |ins| && 0 <= n < Numel(out) ==> 0 <= Address(LayoutOf(ins, out), p, n) < Numel(ins[p])
  }

  /** Exactly without a loss, no output element makes the collapsed strides leave an input. */
  lemma ReadsInsideIff(ins: seq<Shape>, out: Shape)
    requires out != [] && AllBroadcast(ins, out) && Positive(out)
    ensures ReadsInside(ins, out) <==> !Loses(PadAll(ins, out), out)
  {
    hide Loses, NaiveIndex, Address, Numel, LayoutOf;
    LayoutFacts(ins, out);
    if Loses(PadAll(ins, out), out) {
      var p := LossReadsOutside(ins, out);
    } else {
      forall p, n | 0 <= p < |ins| && 0 <= n < Numel(out)
        ensures 0 <= Address(LayoutOf(ins, out), p, n) < Numel(ins[p])
      {
        AddressIsNaive(ins, out, p, n);
        NaiveInside(ins[p], out, n);
      }
    }
  }

  // ----- nothing more can be joined -----

  /** Some input broadcasts along exactly one of dimensions i and next. */
  ghost predicate Differ(ds: seq<Shape>, i: nat, next: nat) {
    exists p :: 0 <= p < |ds| && i < |ds[p]| && next < |ds[p]| && (ds[p][i] == 1) != (ds[p][next] == 1)
  }

  ghost predicate NeighboursDiffer(ds: seq<Shape>, rank: nat) {
    forall i: nat, next: nat :: next == i + 1 < rank ==> Differ(ds, i, next)
  }

  /** The first j dimensions of every input, collapsed. */
  function AllCollapsed(plan: Plan, ps: seq<Shape>, j: nat): (ds: seq<Shape>)
    requires 1 <= j <= |plan.flags| == |plan.out| && OfRank(ps, |plan.out|)
    ensures |ds| == |ps| && forall p :: 0 <= p < |ps| ==> ds[p] == Collapsed(plan, ps[p], j)
  {
    seq(|ps|, p requires 0 <= p < |ps| => Collapsed(plan, ps[p], j))
  }

  /** The last collapsed output dimension has more than one element as soon as a dimension has. */
  lemma {:induction false} OutputLast(ps: seq<Shape>, out: Shape, j: nat)
    requires Fits(ps, out) && 1 <= j <= |out|
    ensures Last(Collapsed(PlanOf(ps, out), out, j)) >= 1
    ensures LastWide(out, j) >= 0 ==> Last(Collapsed(PlanOf(ps, out), out, j)) > 1
  {
    hide Extended, Merges, Skips, PlanOf, DimBroadcasts;
    if j > 1 {
      var plan := PlanOf(ps, out);
      var h, w := Last(Collapsed(plan, out, j - 1)), out[j - 1];
      OutputLast(ps, out, j - 1);
      ExtendedLast(plan, Collapsed(plan, out, j - 1), w, j - 1);
      MulMonotone(1, h, w);
      MulMonotone(1, w, h);
      if w == 1 {
        NarrowDim(ps, out, j - 1);
      } else {
        NotSkipped(ps, out, j - 1);
      }
    }
  }

  /** Without a loss, an input broadcasts along its last group exactly if it does along the
      last dimension of more than one element. */
  lemma LastKind(ps: seq<Shape>, out: Shape, p: nat, j: nat)
    requires Fits(ps, out) && 1 <= j <= |out| && p < |ps| && !Loses(ps, out) && LastWide(out, j) >= 0
    ensures Last(Collapsed(PlanOf(ps, out), ps[p], j)) == 1 <==> ps[p][LastWide(out, j)] == 1
  {
    hide Collapsed, Loses;
    GroupKept(ps, out, p, j);
    OutputLast(ps, out, j);
  }

  /** Before the first dimension of more than one element there is one group. */
  lemma {:induction false} NarrowGroup(ps: seq<Shape>, out: Shape, j: nat)
    requires Fits(ps, out) && 1 <= j <= |out| && LastWide(out, j) < 0
    ensures forall t: Shape :: |t| == |out| ==> |Collapsed(PlanOf(ps, out), t, j)| == 1
  {
    if j > 1 {
      NarrowGroup(ps, out, j - 1);
      PrevIsLastWide(ps, out, j - 1);
    }
  }

  /** A dimension that starts a group differs from the last one of more than one element. */
  lemma NewGroup(ps: seq<Shape>, out: Shape, k: nat) returns (p: nat)
    requires Fits(ps, out) && 1 <= k < |out|
    requires !Merges(PlanOf(ps, out), PrevFlag(PlanOf(ps, out), k), k) && !Skips(PlanOf(ps, out), k)
    ensures LastWide(out, k) >= 0 && LastWide(out, k + 1) == k
    ensures p < |ps| && (ps[p][LastWide(out, k)] == 1) != (ps[p][k] == 1)
  {
    var w := LastWide(out, k);
    PrevIsLastWide(ps, out, k);
    if out[k] == 1 {
      NarrowDim(ps, out, k);
    }
    FlagMeaning(ps, if w >= 0 then w else k, k);
    var q :| 0 <= q < |ps| && !(ps[q][w] == 1 <==> ps[q][k] == 1);
    p := q;
  }

  /** A dimension that joins the last group or is skipped leaves the kinds as they were. */
  lemma KindsKept(ps: seq<Shape>, out: Shape, p: nat, k: nat)
    requires Fits(ps, out) && 1 <= k < |out| && p < |ps| && !Loses(ps, out) && LastWide(out, k) >= 0
    requires Merges(PlanOf(ps, out), PrevFlag(PlanOf(ps, out), k), k) || Skips(PlanOf(ps, out), k)
    ensures var d, next := Collapsed(PlanOf(ps, out), ps[p], k), Collapsed(PlanOf(ps, out), ps[p], k + 1);
      |next| == |d| && forall i :: 0 <= i < |d| ==> (next[i] == 1 <==> d[i] == 1)
  {
    hide Merges, Loses, Skips, PlanOf;
    LastKind(ps, out, p, k);
    LastKind(ps, out, p, k + 1);
    assert DimBroadcasts(ps[p][k], out[k]);
    if out[k] != 1 {
      NotSkipped(ps, out, k);
      MergeKind(ps, out, p, k);
    }
  }

  ghost predicate AllOfRank(ds: seq<Shape>, m: nat) {
    forall p :: 0 <= p < |ds| ==> |ds[p]| == m
  }

  lemma SameKinds(ds: seq<Shape>, next: seq<Shape>, m: nat)
    requires |ds| == |next| && NeighboursDiffer(ds, m) && AllOfRank(ds, m) && AllOfRank(next, m)
    requires forall p, i :: 0 <= p < |ds| && 0 <= i < m ==> (next[p][i] == 1 <==> ds[p][i] == 1)
    ensures NeighboursDiffer(next, m)
  {
    forall i: nat, j: nat | j == i + 1 < m ensures Differ(next, i, j) {
      assert Differ(ds, i, j);
    }
  }

  lemma OneMore(ds: seq<Shape>, next: seq<Shape>, m: nat, q: nat)
    requires |ds| == |next| && NeighboursDiffer(ds, m) && AllOfRank(ds, m) && AllOfRank(next, m + 1)
    requires forall p, i :: 0 <= p < |ds| && 0 <= i < m ==> next[p][i] == ds[p][i]
    requires m > 0 && q < |ds| && (next[q][m - 1] == 1) != (next[q][m] == 1)
    ensures NeighboursDiffer(next, m + 1)
  {
    forall i: nat, j: nat | j == i + 1 < m + 1 ensures Differ(next, i, j) {
      if j < m {
        assert Differ(ds, i, j);
      }
    }
  }

  lemma CollapsedRanks(ps: seq<Shape>, out: Shape, j: nat)
    requires Fits(ps, out) && 1 <= j <= |out|
    ensures AllOfRank(AllCollapsed(PlanOf(ps, out), ps, j), |Collapsed(PlanOf(ps, out), out, j)|)
  {
    forall p: nat | p < |ps| {
      SameRank(PlanOf(ps, out), ps[p], out, j);
    }
  }

  lemma DiffersStep(ps: seq<Shape>, out: Shape, k: nat)
    requires Fits(ps, out) && 1 <= k < |out| && !Loses(ps, out)
    requires var plan := PlanOf(ps, out); NeighboursDiffer(AllCollapsed(plan, ps, k), |Collapsed(plan, out, k)|)
    ensures var plan := PlanOf(ps, out); NeighboursDiffer(AllCollapsed(plan, ps, k + 1), |Collapsed(plan, out, k + 1)|)
  {
    hide Merges, Loses, Skips, PlanOf, NeighboursDiffer, Collapsed, Extended, LastWide;
    var plan := PlanOf(ps, out);
    CollapsedRanks(ps, out, k);
    CollapsedRanks(ps, out, k + 1);
    if Merges(plan, PrevFlag(plan, k), k) || Skips(plan, k) {
      JoinedDiffers(ps, out, k);
    } else {
      StartedDiffers(ps, out, k);
    }
  }

  lemma JoinedDiffers(ps: seq<Shape>, out: Shape, k: nat)
    requires Fits(ps, out) && 1 <= k < |out| && !Loses(ps, out)
    requires var plan := PlanOf(ps, out); NeighboursDiffer(AllCollapsed(plan, ps, k), |Collapsed(plan, out, k)|)
    requires Merges(PlanOf(ps, out), PrevFlag(PlanOf(ps, out), k), k) || Skips(PlanOf(ps, out), k)
    ensures var plan := PlanOf(ps, out); NeighboursDiffer(AllCollapsed(plan, ps, k + 1), |Collapsed(plan, out, k + 1)|)
  {
    hide Merges, Loses, Skips, PlanOf, NeighboursDiffer, Collapsed, Extended;
    var plan := PlanOf(ps, out);
    CollapsedRanks(ps, out, k);
    CollapsedRanks(ps, out, k + 1);
    JoinedRank(plan, out, k);
    if LastWide(out, k) < 0 {
      NarrowGroup(ps, out, k);
      NothingDiffers(AllCollapsed(plan, ps, k + 1));
    } else {
      forall p: nat | p < |ps| {
        KindsKept(ps, out, p, k);
      }
      SameKinds(AllCollapsed(plan, ps, k), AllCollapsed(plan, ps, k + 1), |Collapsed(plan, out, k)|);
    }
  }

  lemma NothingDiffers(ds: seq<Shape>)
    ensures NeighboursDiffer(ds, 1)
  {}

  lemma JoinedRank(plan: Plan, t: Shape, k: nat)
    requires 1 <= k < |plan.flags| == |plan.out| == |t|
    requires Merges(plan, PrevFlag(plan, k), k) || Skips(plan, k)
    ensures |Collapsed(plan, t, k + 1)| == |Collapsed(plan, t, k)|
  {}

  lemma StartedGroup(plan: Plan, t: Shape, k: nat)
    requires 1 <= k < |plan.flags| == |plan.out| == |t|
    requires !Merges(plan, PrevFlag(plan, k), k) && !Skips(plan, k)
    ensures Collapsed(plan, t, k + 1) == Collapsed(plan, t, k) + [t[k]]
  {}

  lemma StartedDiffers(ps: seq<Shape>, out: Shape, k: nat)
    requires Fits(ps, out) && 1 <= k < |out| && !Loses(ps, out)
    requires var plan := PlanOf(ps, out); NeighboursDiffer(AllCollapsed(plan, ps, k), |Collapsed(plan, out, k)|)
    requires !Merges(PlanOf(ps, out), PrevFlag(PlanOf(ps, out), k), k) && !Skips(PlanOf(ps, out), k)
    ensures var plan := PlanOf(ps, out); NeighboursDiffer(AllCollapsed(plan, ps, k + 1), |Collapsed(plan, out, k + 1)|)
  {
    hide Merges, Loses, Skips, PlanOf, NeighboursDiffer, Collapsed, Extended, LastWide;
    var plan := PlanOf(ps, out);
    CollapsedRanks(ps, out, k);
    CollapsedRanks(ps, out, k + 1);
    StartedGroup(plan, out, k);
    forall p: nat | p < |ps| {
      StartedGroup(plan, ps[p], k);
    }
    var q := NewGroup(ps, out, k);
    LastKind(ps, out, q, k);
    OneMore(AllCollapsed(plan, ps, k), AllCollapsed(plan, ps, k + 1), |Collapsed(plan, out, k)|, q);
  }

  lemma {:induction false} GroupsDiffer(ps: seq<Shape>, out: Shape, j: nat)
    requires Fits(ps, out) && 1 <= j <= |out| && !Loses(ps, out)
    ensures var plan := PlanOf(ps, out); NeighboursDiffer(AllCollapsed(plan, ps, j), |Collapsed(plan, out, j)|)
  {
    hide Fits, Loses, NeighboursDiffer, AllCollapsed, PlanOf, Collapsed;
    if j == 1 {
      OneGroup(ps, out);
    } else {
      GroupsDiffer(ps, out, j - 1);
      DiffersStep(ps, out, j - 1);
    }
  }

  lemma OneGroup(ps: seq<Shape>, out: Shape)
    requires Fits(ps, out) && out != []
    ensures var plan := PlanOf(ps, out); NeighboursDiffer(AllCollapsed(plan, ps, 1), |Collapsed(plan, out, 1)|)
  {}

  /** Without a loss the collapse is complete: of any two neighbouring dimensions that are
      left, some input broadcasts along one but not along the other. */
  lemma CollapseComplete(ins: seq<Shape>, out: Shape)
    requires out != [] && AllBroadcast(ins, out) && Positive(out) && !Loses(PadAll(ins, out), out)
    ensures NeighboursDiffer(LayoutOf(ins, out).dims[..|ins|], |OutputDims(LayoutOf(ins, out))|)
  {
    hide NeighboursDiffer, Loses, BroadcastStrides;
    var ps := PadAll(ins, out);
    PaddedFit(ins, out);
    GroupsDiffer(ps, out, |out|);
    assert LayoutOf(ins, out).dims[..|ins|] == AllCollapsed(PlanOf(ps, out), ps, |out|);
  }

  lemma InputNumel(ins: seq<Shape>, out: Shape, p: nat)
    requires out != [] && AllBroadcast(ins, out) && Positive(out) && p < |ins|
    ensures Numel(LayoutOf(ins, out).dims[p]) == Numel(ins[p])
  {
    var ps := PadAll(ins, out);
    PaddedFit(ins, out);
    NarrowSkips(ps, out, p);
    CollapsedNumel(PlanOf(ps, out), ps[p], |out|);
    assert ps[p][..|out|] == ps[p];
    NumelPad(ins[p], |out|);
  }

  lemma NarrowSkips(ps: seq<Shape>, out: Shape, p: nat)
    requires Fits(ps, out) && p < |ps|
    ensures Skippable(PlanOf(ps, out), ps[p])
  {
    forall i | 0 <= i < |out| && Skips(PlanOf(ps, out), i) ensures ps[p][i] == 1 {
      assert DimBroadcasts(ps[p][i], out[i]);
    }
  }

  /** Input [1, 1, 3] and output [5, 1, 3] collapse to [3] and [15] with stride one. */
  lemma LossExample()
    ensures AllBroadcast([[1, 1, 3]], [5, 1, 3]) && Loses(PadAll([[1, 1, 3]], [5, 1, 3]), [5, 1, 3])
    ensures LayoutOf([[1, 1, 3]], [5, 1, 3]) == Layout([[3], [15]], [[1], [1]])
    ensures NaiveIndex([1, 1, 3], [5, 1, 3], 3) == 0 && Dot(Unravel([15], 3), [1]) == 3
  {
    hide LayoutOf, NaiveIndex, Dot, Unravel, Loses;
    var ins, out := [[1, 1, 3]], [5, 1, 3];
    var ps := PadAll(ins, out);
    ExamplePadded();
    assert ps[0][2] != 1;
    assert LosesAt(ps, out, 0, 2);
    ExampleLoses(ps, out);
    ExampleLayout();
    ExampleAddresses();
  }

  lemma ExampleLoses(ps: seq<Shape>, out: Shape)
    requires OfRank(ps, |out|) && |out| > 2 && LosesAt(ps, out, 0, 2)
    ensures Loses(ps, out)
  {}

  lemma ExamplePadded()
    ensures AllBroadcast([[1, 1, 3]], [5, 1, 3]) && PadAll([[1, 1, 3]], [5, 1, 3]) == [[1, 1, 3]]
  {
    assert Pad([1, 1, 3], 3) == [1, 1, 3];
  }

  lemma ExampleLayout()
    ensures AllBroadcast([[1, 1, 3]], [5, 1, 3])
    ensures LayoutOf([[1, 1, 3]], [5, 1, 3]) == Layout([[3], [15]], [[1], [1]])
  {
    hide OnesFlag, PlanOf, PadAll, AllBroadcast, Collapsed, BroadcastStrides;
    var plan := Plan([1, 1, 0], [5, 1, 3], 1);
    ExamplePadded();
    ExampleFlags();
    ExampleCollapsed(plan, [1, 1, 3], 1, 3);
    ExampleCollapsed(plan, [5, 1, 3], 5, 15);
    ExampleStrides();
  }

  lemma ExampleStrides()
    ensures BroadcastStrides([3], [15]) == [1] == BroadcastStrides([15], [15])
  {
    assert [3][1..] == [] && [15][1..] == [];
  }

  lemma ExampleCollapsed(plan: Plan, t: Shape, a: int, b: int)
    requires plan == Plan([1, 1, 0], [5, 1, 3], 1) && |t| == 3 && a == t[1] * t[0] && b == t[2] * a
    ensures Collapsed(plan, t, 3) == [b]
  {
    ExampleMerges(plan);
    assert Collapsed(plan, t, 1) == [t[0]] && Grown([t[0]], t[1]) == [a] && Grown([a], t[2]) == [b];
    assert Collapsed(plan, t, 2) == [a];
  }

  lemma ExampleMerges(plan: Plan)
    requires plan == Plan([1, 1, 0], [5, 1, 3], 1)
    ensures Merges(plan, PrevFlag(plan, 1), 1) && Merges(plan, PrevFlag(plan, 2), 2)
  {
    assert PrevFlag(plan, 1) == 1 && PrevFlag(plan, 2) == 1;
  }

  lemma ExampleFlags()
    ensures PlanOf([[1, 1, 3]], [5, 1, 3]) == Plan([1, 1, 0], [5, 1, 3], 1)
  {
    var ps: seq<Shape> := [[1, 1, 3]];
    assert ps[..0] == [] && Pow2(1) == 2 && ps[0][0] == ps[0][1] == 1 && ps[0][2] == 3;
    assert OnesFlag(ps, 0) == 1 && OnesFlag(ps, 1) == 1 && OnesFlag(ps, 2) == 0;
  }

  lemma ExampleAddresses()
    ensures NaiveIndex([1, 1, 3], [5, 1, 3], 3) == 0 && Dot(Unravel([15], 3), [1]) == 3
  {
    assert [5, 1, 3][1..] == [1, 3] && [1, 3][1..] == [3] && [3][1..] == [] && [15][1..] == [];
    assert Numel([3]) == 3 && Numel([1, 3]) == 3;
    assert Unravel([3], 3) == [0] && Unravel([1, 3], 3) == [0, 0] && Unravel([5, 1, 3], 3) == [1, 0, 0];
    assert Clamp([1, 1, 3], [1, 0, 0]) == [0, 0, 0];
    assert [1, 0, 0][0..] == [1, 0, 0] && [0, 0, 0][1..] == [0, 0] && [0, 0][1..] == [0] && [0][1..] == [];
    assert Ravel([1, 3], [0, 0]) == 0;
  }
}
