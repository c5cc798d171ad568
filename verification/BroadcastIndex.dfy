/** Index arithmetic of a broadcast, and the dimension groups that Bcast
    collapses two shapes into. */
module BroadcastIndex {
  import opened Arith
  import opened Shapes

  function Pad(s: Shape, r: nat): (p: Shape)
    requires |s| <= r
    ensures |p| == r && forall i :: 0 <= i < r ==> p[i] == Dim(s, r, i)
  {
    Ones(r - |s|) + s
  }

  lemma {:induction false} NumelPad(s: Shape, r: nat)
    requires |s| <= r
    ensures Numel(Pad(s, r)) == Numel(s)
    decreases r
  {
    if |s| < r {
      NumelPad(s, r - 1);
      assert Pad(s, r) == [1] + Pad(s, r - 1);
    } else {
      assert Pad(s, r) == s;
    }
  }

  /** NaiveIndex on shapes of equal rank, unfolded one dimension at a time. */
  function FlatIndex(x: Shape, o: Shape, n: int): (k: int)
    requires |x| == |o| && Positive(o)
  {
    if x == [] then 0 else
      NumelPositive(o[1..]);
      (if x[0] == 1 then 0 else (n / Numel(o[1..])) % o[0]) * Numel(x[1..]) + FlatIndex(x[1..], o[1..], n)
  }

  lemma {:induction false} NaiveIsFlat(x: Shape, o: Shape, n: int)
    requires Positive(o) && |x| <= |o|
    ensures NaiveIndex(x, o, n) == FlatIndex(Pad(x, |o|), o, n)
    decreases |o|
  {
    hide NaiveIndex, FlatIndex, Numel;
    if o == [] {
      NoDims(x, o, n);
    } else if |x| < |o| {
      NaiveIsFlat(x, o[1..], n);
      PaddedDim(x, o, n);
    } else {
      NaiveIsFlat(x[1..], o[1..], n);
      NumelPositive(o[1..]);
      LeadingDim(x, o, n);
    }
  }

  lemma NoDims(x: Shape, o: Shape, n: int)
    requires x == o == []
    ensures NaiveIndex(x, o, n) == 0 == FlatIndex(Pad(x, 0), o, n)
  {
    assert Pad(x, 0) == [];
  }

  /** A leading output dimension that the input lacks. */
  lemma PaddedDim(x: Shape, o: Shape, n: int)
    requires Positive(o) && |x| < |o|
    ensures NaiveIndex(x, o, n) == NaiveIndex(x, o[1..], n)
    ensures FlatIndex(Pad(x, |o|), o, n) == FlatIndex(Pad(x, |o| - 1), o[1..], n)
  {
    var d := Unravel(o, n);
    assert d[1..] == Unravel(o[1..], n);
    assert d[|o| - |x|..] == d[1..][|o| - 1 - |x|..];
    assert Pad(x, |o|)[1..] == Pad(x, |o| - 1);
  }

  /** A leading dimension of both. */
  lemma LeadingDim(x: Shape, o: Shape, n: int)
    requires Positive(o) && |x| == |o| > 0 && Numel(o[1..]) != 0
    ensures var k := (if x[0] == 1 then 0 else (n / Numel(o[1..])) % o[0]) * Numel(x[1..]);
      && NaiveIndex(x, o, n) == k + NaiveIndex(x[1..], o[1..], n)
      && FlatIndex(Pad(x, |o|), o, n) == k + FlatIndex(Pad(x[1..], |o| - 1), o[1..], n)
  {
    hide Numel, FlatIndex, Unravel, Ravel, Clamp;
    NoPadding(x);
    NoPadding(x[1..]);
    FlatStep(x, o, n);
    var d, t := Unravel(o, n), Unravel(o[1..], n);
    UnravelHead(o, n);
    assert d[0..] == d && t[0..] == t;
    RavelHead(x, Clamp(x, d));
    ClampHead(x, d);
  }

  lemma NoPadding(x: Shape)
    ensures Pad(x, |x|) == x
  {}

  lemma UnravelHead(o: Shape, n: int)
    requires Positive(o) && o != [] && Numel(o[1..]) != 0
    ensures Unravel(o, n)[0] == (n / Numel(o[1..])) % o[0] && Unravel(o, n)[1..] == Unravel(o[1..], n)
  {}

  lemma RavelHead(x: Shape, d: seq<int>)
    requires |x| == |d| > 0
    ensures Ravel(x, d) == d[0] * Numel(x[1..]) + Ravel(x[1..], d[1..])
  {}

  lemma ClampHead(x: Shape, d: seq<int>)
    requires |x| == |d| > 0
    ensures Clamp(x, d)[0] == (if x[0] == 1 then 0 else d[0]) && Clamp(x, d)[1..] == Clamp(x[1..], d[1..])
  {}

  lemma FlatStep(x: Shape, o: Shape, n: int)
    requires |x| == |o| > 0 && Positive(o)
    ensures Numel(o[1..]) > 0
    ensures FlatIndex(x, o, n)
         == (if x[0] == 1 then 0 else (n / Numel(o[1..])) % o[0]) * Numel(x[1..]) + FlatIndex(x[1..], o[1..], n)
  {
    NumelPositive(o[1..]);
  }

  /** Broadcasting a shape to itself leaves the index alone. */
  lemma {:induction false} FlatIdentity(s: Shape, n: int)
    requires Positive(s) && n >= 0
    ensures Numel(s) > 0 && FlatIndex(s, s, n) == n % Numel(s)
  {
    NumelPositive(s);
    if s != [] {
      FlatIdentity(s[1..], n);
      UnravelCons(s, n);
    }
  }

  /** The index repeats with the period of the output. */
  lemma {:induction false} FlatPeriodic(x: Shape, o: Shape, n: int, j: int)
    requires |x| == |o| && Positive(o) && n >= 0 && j >= 0
    ensures FlatIndex(x, o, j * Numel(o) + n) == FlatIndex(x, o, n)
  {
    if x != [] {
      NumelPositive(o[1..]);
      DigitPeriodic(n, j, o[0], Numel(o[1..]));
      FlatPeriodic(x[1..], o[1..], n, j * o[0]);
    }
  }

  /** FlatIndex with one more leading dimension. */
  lemma FlatCons(x: Shape, o: Shape, a: int, w: int, n: int)
    requires |x| == |o| && Positive(o) && w > 0
    ensures Positive([w] + o) && Numel(o) > 0
    ensures Numel([a] + x) == a * Numel(x) && Numel([w] + o) == w * Numel(o)
    ensures FlatIndex([a] + x, [w] + o, n)
         == (if a == 1 then 0 else (n / Numel(o)) % w) * Numel(x) + FlatIndex(x, o, n)
  {
    NumelPositive(o);
    assert ([a] + x)[1..] == x && ([w] + o)[1..] == o;
  }

  /** Merging two neighbouring dimensions that are both broadcast, or both not. */
  lemma MergeDims(x: Shape, o: Shape, g: int, h: int, a: int, b: int, n: int)
    requires |x| == |o| && Positive(o) && h > 0 && b > 0 && n >= 0
    requires (g == 1 && a == 1) || (g == h && a == b && g > 1 && a > 1)
    ensures h * b > 0 && Positive([b] + ([h] + o))
    ensures FlatIndex([g * a] + x, [h * b] + o, n) == FlatIndex([a] + ([g] + x), [b] + ([h] + o), n)
  {
    MulPositive(h, b);
    FlatCons(x, o, g * a, h * b, n);
    FlatCons(x, o, g, h, n);
    FlatCons([g] + x, [h] + o, a, b, n);
    if a != 1 {
      assert g * a != 1 by { MulMonotone(2, g, a); }
      MergeDigits(n, Numel(o), Numel(x), h, b);
    }
  }

  // ----- groups -----

  datatype Kind = Same | XOne | YOne

  /** A run of dimensions of one kind, collapsed into a single dimension. */
  datatype Group = Group(kind: Kind, size: int) {
    function XDim(): (d: int) { if kind == XOne then 1 else size }
    function YDim(): (d: int) { if kind == YOne then 1 else size }
    function XTimes(): (d: int) { if kind == XOne then size else 1 }
    function YTimes(): (d: int) { if kind == YOne then size else 1 }
  }

  function Results(gs: seq<Group>): (s: Shape)
    ensures |s| == |gs| && forall i :: 0 <= i < |gs| ==> s[i] == gs[i].size
  {
    seq(|gs|, i requires 0 <= i < |gs| => gs[i].size)
  }

  function XDims(gs: seq<Group>): (s: Shape)
    ensures |s| == |gs| && forall i :: 0 <= i < |gs| ==> s[i] == gs[i].XDim()
  {
    seq(|gs|, i requires 0 <= i < |gs| => gs[i].XDim())
  }

  function YDims(gs: seq<Group>): (s: Shape)
    ensures |s| == |gs| && forall i :: 0 <= i < |gs| ==> s[i] == gs[i].YDim()
  {
    seq(|gs|, i requires 0 <= i < |gs| => gs[i].YDim())
  }

  function XTimes(gs: seq<Group>): (s: Shape)
    ensures |s| == |gs| && forall i :: 0 <= i < |gs| ==> s[i] == gs[i].XTimes()
  {
    seq(|gs|, i requires 0 <= i < |gs| => gs[i].XTimes())
  }

  function YTimes(gs: seq<Group>): (s: Shape)
    ensures |s| == |gs| && forall i :: 0 <= i < |gs| ==> s[i] == gs[i].YTimes()
  {
    seq(|gs|, i requires 0 <= i < |gs| => gs[i].YTimes())
  }

  function KindOf(a: int, b: int): (k: Kind) {
    if a == b then Same else if a == 1 then XOne else YOne
  }

  function Extend(gs: seq<Group>, a: int, b: int): (r: seq<Group>) {
    if a == b && a == 1 then gs
    else if gs != [] && gs[|gs| - 1].kind == KindOf(a, b) then
      gs[|gs| - 1 := Group(KindOf(a, b), gs[|gs| - 1].size * OutDim(a, b))]
    else gs + [Group(KindOf(a, b), OutDim(a, b))]
  }

  /** The groups of two shapes listed from the fastest dimension. */
  function Collapse(x: Shape, y: Shape): (gs: seq<Group>)
    requires |x| == |y|
    decreases |x|
  {
    if x == [] then [] else
      var k := |x| - 1;
      Extend(Collapse(x[..k], y[..k]), x[k], y[k])
  }

  function OutDims(x: Shape, y: Shape): (o: Shape)
    requires |x| == |y|
    ensures |o| == |x| && forall i :: 0 <= i < |x| ==> o[i] == OutDim(x[i], y[i])
  {
    seq(|x|, i requires 0 <= i < |x| => OutDim(x[i], y[i]))
  }

  predicate AllCompatible(x: Shape, y: Shape)
    requires |x| == |y|
  {
    forall i :: 0 <= i < |x| ==> DimsCompatible(x[i], y[i])
  }

  /** Neighbouring groups differ in kind: the collapse cannot be taken further. */
  predicate Maximal(gs: seq<Group>) {
    forall i :: 0 < i < |gs| ==> gs[i - 1].kind != gs[i].kind
  }

  lemma {:induction false} CollapseMaximal(x: Shape, y: Shape)
    requires |x| == |y|
    ensures Maximal(Collapse(x, y))
    decreases |x|
  {
    if x != [] {
      CollapseMaximal(x[..|x| - 1], y[..|x| - 1]);
    }
  }

  lemma {:induction false} NumelSnoc(s: Shape, d: int)
    ensures Numel(s + [d]) == Numel(s) * d
  {
    NumelAppend(s, [d]);
    assert Numel([d]) == d;
  }

  /** One step of the collapse multiplies both element counts. */
  lemma ExtendNumel(gs: seq<Group>, a: int, b: int)
    requires DimsCompatible(a, b)
    ensures Numel(XDims(Extend(gs, a, b))) == Numel(XDims(gs)) * a
    ensures Numel(Results(Extend(gs, a, b))) == Numel(Results(gs)) * OutDim(a, b)
  {
    var w := OutDim(a, b);
    if a == b && a == 1 {
    } else if gs != [] && gs[|gs| - 1].kind == KindOf(a, b) {
      var p, g := gs[..|gs| - 1], gs[|gs| - 1];
      var g' := Group(g.kind, g.size * w);
      assert gs == p + [g] && Extend(gs, a, b) == p + [g'];
      SnocNumel(p, g);
      SnocNumel(p, g');
      assert g'.XDim() == g.XDim() * a;
      MulAssociates(Numel(XDims(p)), g.XDim(), a);
      MulAssociates(Numel(Results(p)), g.size, w);
    } else {
      SnocNumel(gs, Group(KindOf(a, b), w));
    }
  }

  lemma SnocNumel(p: seq<Group>, g: Group)
    ensures Numel(XDims(p + [g])) == Numel(XDims(p)) * g.XDim()
    ensures Numel(Results(p + [g])) == Numel(Results(p)) * g.size
  {
    SnocViews(p, g);
    NumelSnoc(XDims(p), g.XDim());
    NumelSnoc(Results(p), g.size);
  }

  /** Element counts survive the collapse. */
  lemma {:induction false} CollapseNumel(x: Shape, y: Shape)
    requires |x| == |y| && AllCompatible(x, y)
    ensures Numel(XDims(Collapse(x, y))) == Numel(x)
    ensures Numel(Results(Collapse(x, y))) == Numel(OutDims(x, y))
    decreases |x|
  {
    hide Numel, Extend, XDims, Results, OutDims;
    if x != [] {
      var k := |x| - 1;
      CollapseNumel(x[..k], y[..k]);
      assert DimsCompatible(x[k], y[k]);
      ExtendNumel(Collapse(x[..k], y[..k]), x[k], y[k]);
      OutDimsSnoc(x, y);
      NumelSnoc(x[..k], x[k]);
      NumelSnoc(OutDims(x[..k], y[..k]), OutDim(x[k], y[k]));
    } else {
      assert XDims(Collapse(x, y)) == [] && Results(Collapse(x, y)) == [] && OutDims(x, y) == [];
    }
  }

  lemma OutDimsSnoc(x: Shape, y: Shape)
    requires |x| == |y| > 0
    ensures var k := |x| - 1;
      x == x[..k] + [x[k]] && OutDims(x, y) == OutDims(x[..k], y[..k]) + [OutDim(x[k], y[k])]
  {}

  lemma SnocViews(p: seq<Group>, g: Group)
    ensures XDims(p + [g]) == XDims(p) + [g.XDim()]
    ensures YDims(p + [g]) == YDims(p) + [g.YDim()]
    ensures Results(p + [g]) == Results(p) + [g.size]
    ensures Reverse(XDims(p + [g])) == [g.XDim()] + Reverse(XDims(p))
    ensures Reverse(Results(p + [g])) == [g.size] + Reverse(Results(p))
  {}

  /** No group is degenerate: each carries at least two elements. */
  predicate Proper(gs: seq<Group>) {
    forall i :: 0 <= i < |gs| ==> gs[i].size > 1
  }

  lemma {:induction false} CollapseProper(x: Shape, y: Shape)
    requires |x| == |y| && Positive(x) && Positive(y)
    ensures Proper(Collapse(x, y))
    decreases |x|
  {
    if x != [] {
      var k := |x| - 1;
      CollapseProper(x[..k], y[..k]);
      ExtendProper(Collapse(x[..k], y[..k]), x[k], y[k]);
    }
  }

  lemma ExtendProper(gs: seq<Group>, a: int, b: int)
    requires Proper(gs) && a > 0 && b > 0
    ensures Proper(Extend(gs, a, b))
  {}

  /** The x index computed on the groups gs, listed from the fastest one. */
  function GroupIndex(gs: seq<Group>, n: int): (k: int)
    requires Proper(gs)
  {
    FlatIndex(Reverse(XDims(gs)), Reverse(Results(gs)), n)
  }

  lemma GroupIndexSnoc(p: seq<Group>, g: Group, n: int)
    requires Proper(p) && g.size > 1
    ensures Proper(p + [g]) && Positive([g.size] + Reverse(Results(p)))
    ensures GroupIndex(p + [g], n) == FlatIndex([g.XDim()] + Reverse(XDims(p)), [g.size] + Reverse(Results(p)), n)
  {
    SnocViews(p, g);
  }

  /** The collapsed shapes address the same input element as the original ones. */
  lemma {:induction false} CollapseIndex(x: Shape, y: Shape, n: int)
    requires |x| == |y| && Positive(x) && Positive(y) && AllCompatible(x, y) && n >= 0
    ensures Proper(Collapse(x, y)) && Positive(Reverse(OutDims(x, y)))
    ensures GroupIndex(Collapse(x, y), n) == FlatIndex(Reverse(x), Reverse(OutDims(x, y)), n)
    decreases |x|
  {
    hide Numel, Reverse, OutDims, Extend, FlatIndex;
    CollapseProper(x, y);
    OutDimsPositive(x, y);
    if x != [] {
      var k := |x| - 1;
      var x', y' := x[..k], y[..k];
      CollapseIndex(x', y', n);
      ReverseDims(x, y);
      CollapseNumelReversed(x', y');
      assert DimsCompatible(x[k], y[k]);
      ExtendIndex(Collapse(x', y'), x[k], y[k], Reverse(x'), Reverse(OutDims(x', y')), n);
    } else {
      EmptyGroupIndex(x, y, n);
    }
  }

  lemma OutDimsPositive(x: Shape, y: Shape)
    requires |x| == |y| && Positive(x) && Positive(y)
    ensures |Reverse(x)| == |x| == |Reverse(OutDims(x, y))| && Positive(Reverse(OutDims(x, y)))
  {}

  lemma EmptyGroupIndex(x: Shape, y: Shape, n: int)
    requires x == y == []
    ensures GroupIndex(Collapse(x, y), n) == 0
    ensures |Reverse(x)| == |Reverse(OutDims(x, y))| && Positive(Reverse(OutDims(x, y)))
    ensures FlatIndex(Reverse(x), Reverse(OutDims(x, y)), n) == 0
  {}

  /** The reversed shapes with their leading dimension split off. */
  lemma ReverseDims(x: Shape, y: Shape)
    requires |x| == |y| > 0
    ensures var k := |x| - 1;
      && Reverse(x) == [x[k]] + Reverse(x[..k])
      && Reverse(OutDims(x, y)) == [OutDim(x[k], y[k])] + Reverse(OutDims(x[..k], y[..k]))
  {}

  lemma CollapseNumelReversed(x: Shape, y: Shape)
    requires |x| == |y| && AllCompatible(x, y)
    ensures Numel(Reverse(XDims(Collapse(x, y)))) == Numel(Reverse(x))
    ensures Numel(Reverse(Results(Collapse(x, y)))) == Numel(Reverse(OutDims(x, y)))
  {
    CollapseNumel(x, y);
    NumelReverse(x);
    NumelReverse(OutDims(x, y));
    NumelReverse(XDims(Collapse(x, y)));
    NumelReverse(Results(Collapse(x, y)));
  }

  /** One step of the collapse against one more dimension of the original shapes. */
  lemma ExtendIndex(gs: seq<Group>, a: int, b: int, x: Shape, o: Shape, n: int)
    requires a > 0 && b > 0 && DimsCompatible(a, b) && n >= 0
    requires |x| == |o| && Positive(o) && Proper(gs)
    requires Numel(Reverse(XDims(gs))) == Numel(x) && Numel(Reverse(Results(gs))) == Numel(o)
    requires GroupIndex(gs, n) == FlatIndex(x, o, n)
    ensures Proper(Extend(gs, a, b)) && Positive([OutDim(a, b)] + o)
    ensures GroupIndex(Extend(gs, a, b), n) == FlatIndex([a] + x, [OutDim(a, b)] + o, n)
  {
    var w := OutDim(a, b);
    ExtendProper(gs, a, b);
    FlatCons(x, o, a, w, n);
    FlatCons(Reverse(XDims(gs)), Reverse(Results(gs)), a, w, n);
    if a == b && a == 1 {
    } else if gs != [] && gs[|gs| - 1].kind == KindOf(a, b) {
      MergeIndex(gs, a, b, n);
    } else {
      GroupIndexSnoc(gs, Group(KindOf(a, b), w), n);
    }
  }

  /** The merging step of the collapse. */
  lemma MergeIndex(gs: seq<Group>, a: int, b: int, n: int)
    requires a > 0 && b > 0 && DimsCompatible(a, b) && n >= 0 && !(a == b && a == 1)
    requires Proper(gs) && gs != [] && gs[|gs| - 1].kind == KindOf(a, b)
    ensures Proper(Extend(gs, a, b)) && Positive([OutDim(a, b)] + Reverse(Results(gs)))
    ensures GroupIndex(Extend(gs, a, b), n)
         == FlatIndex([a] + Reverse(XDims(gs)), [OutDim(a, b)] + Reverse(Results(gs)), n)
  {
    var w := OutDim(a, b);
    var p, g := gs[..|gs| - 1], gs[|gs| - 1];
    var g' := Group(g.kind, g.size * w);
    ExtendProper(gs, a, b);
    assert gs == p + [g] && Extend(gs, a, b) == p + [g'];
    SnocViews(p, g);
    GroupIndexSnoc(p, g', n);
    assert g'.XDim() == g.XDim() * a;
    MergeDims(Reverse(XDims(p)), Reverse(Results(p)), g.XDim(), g.size, a, w, n);
  }

  // ----- the other input, by symmetry -----

  function Flip(gs: seq<Group>): (r: seq<Group>)
    ensures |r| == |gs|
  {
    seq(|gs|, i requires 0 <= i < |gs| =>
      Group(match gs[i].kind case Same => Same case XOne => YOne case YOne => XOne, gs[i].size))
  }

  /** Exchanging the inputs exchanges the roles in every group. */
  lemma {:induction false} CollapseFlip(x: Shape, y: Shape)
    requires |x| == |y| && AllCompatible(x, y)
    ensures Collapse(y, x) == Flip(Collapse(x, y))
    decreases |x|
  {
    hide Extend, Flip;
    if x == [] {
      FlipEmpty();
    } else {
      var k := |x| - 1;
      CollapseFlip(x[..k], y[..k]);
      assert DimsCompatible(x[k], y[k]);
      ExtendFlip(Collapse(x[..k], y[..k]), x[k], y[k]);
    }
  }

  lemma ExtendFlip(gs: seq<Group>, a: int, b: int)
    requires DimsCompatible(a, b)
    ensures Extend(Flip(gs), b, a) == Flip(Extend(gs, a, b))
  {}

  lemma FlipEmpty()
    ensures Flip([]) == []
  {}

  lemma FlipViews(gs: seq<Group>)
    ensures XDims(Flip(gs)) == YDims(gs) && Results(Flip(gs)) == Results(gs)
  {}
}
