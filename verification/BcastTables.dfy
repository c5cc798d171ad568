/** The broadcast table builder: index tables grown one dimension at a time, without
    strides. */
module BcastTables {
  import opened Arith
  import opened Shapes
  import opened BroadcastIndex

  /** The whole index table of a broadcast. */
  function Table(x: Shape, o: Shape): (t: seq<int>)
    requires |x| == |o| && Positive(o)
    ensures |t| == Numel(o)
    ensures forall n :: 0 <= n < |t| ==> t[n] == FlatIndex(x, o, n)
  {
    NumelPositive(o);
    seq(Numel(o), n requires 0 <= n => FlatIndex(x, o, n))
  }

  predicate TablePrefix(t: seq<int>, x: Shape, o: Shape)
    requires |x| == |o| && Positive(o)
  {
    forall n :: 0 <= n < |t| ==> t[n] == FlatIndex(x, o, n)
  }

  /** Copy j of a block of the table is the block moved by j times the input size. */
  lemma TableEntry(x: Shape, o: Shape, xd: int, od: int, j: int, k: int)
    requires |x| == |o| && Positive(o) && 0 <= j < od && 0 <= k < Numel(o)
    ensures Positive([od] + o)
    ensures FlatIndex([xd] + x, [od] + o, j * Numel(o) + k)
         == FlatIndex(x, o, k) + if xd == 1 then 0 else j * Numel(x)
  {
    FlatCons(x, o, xd, od, j * Numel(o) + k);
    DivModUnique(j * Numel(o) + k, j, Numel(o), k);
    DivModUnique(j, 0, od, j);
    FlatPeriodic(x, o, k, j);
  }

  /** The table so far is the first block of the table with one more dimension. */
  lemma TableGrows(t: seq<int>, x: Shape, o: Shape, xd: int, od: int)
    requires |x| == |o| && Positive(o) && od > 0 && t == Table(x, o)
    ensures Positive([od] + o) && TablePrefix(t, [xd] + x, [od] + o)
  {
    forall n | 0 <= n < |t| ensures t[n] == FlatIndex([xd] + x, [od] + o, n) {
      TableEntry(x, o, xd, od, 0, n);
    }
  }

  // ----- how many entries -----

  /** The length of a vector of p entries after the builder has appended to it: it
      replicates what was there before, and an empty dimension that is not the fastest
      one counts as one. */
  function GrownLength(p: nat, o: Shape): (n: nat)
    requires NonNegative(o)
    ensures n >= p
  {
    if o == [] then p + 1
    else if |o| == 1 then p + o[0]
    else
      var n := GrownLength(p, o[1..]);
      MulMonotone(1, if o[0] > 1 then o[0] else 1, n);
      (if o[0] > 1 then o[0] else 1) * n
  }

  /** Every dimension but the fastest one is at most one. */
  predicate LeadingAtMostOne(o: Shape) {
    forall i :: 0 <= i < |o| - 1 ==> o[i] <= 1
  }

  /** Every dimension but the fastest one is one. */
  predicate LeadingOnes(o: Shape) {
    forall i :: 0 <= i < |o| - 1 ==> o[i] == 1
  }

  predicate FastestEmpty(o: Shape) {
    o != [] && o[|o| - 1] == 0
  }

  lemma ShapeCons(o: Shape)
    requires |o| > 1
    ensures Positive(o) <==> o[0] > 0 && Positive(o[1..])
    ensures LeadingAtMostOne(o) <==> o[0] <= 1 && LeadingAtMostOne(o[1..])
    ensures LeadingOnes(o) <==> o[0] == 1 && LeadingOnes(o[1..])
    ensures FastestEmpty(o) <==> FastestEmpty(o[1..])
  {
    assert o == [o[0]] + o[1..];
    assert forall i :: 0 <= i < |o| - 1 ==> o[1..][i] == o[i + 1];
  }

  /** Into an empty vector: one entry per output element exactly when no dimension is
      empty, or the fastest one is. */
  lemma {:induction false} TableLengthExact(o: Shape)
    requires NonNegative(o)
    ensures GrownLength(0, o) == Numel(o) <==> Positive(o) || FastestEmpty(o)
    ensures GrownLength(0, o) == 0 <==> FastestEmpty(o)
    decreases |o|
  {
    if |o| == 1 {
      assert Numel(o) == o[0];
    } else if |o| > 1 {
      TableLengthExact(o[1..]);
      ShapeCons(o);
      var t := GrownLength(0, o[1..]);
      if t > 0 {
        MulMonotone(1, if o[0] > 1 then o[0] else 1, t);
        if o[0] > 0 && t != Numel(o[1..]) {
          MulDiffers(o[0], t, Numel(o[1..]));
        }
      }
    }
  }

  lemma MulDiffers(a: int, b: int, c: int)
    requires a > 0 && b != c
    ensures a * b != a * c
  {}

  /** No row of three elements: the builder still lists one row. */
  lemma EmptyOutputExample()
    ensures NonNegative([0, 3]) && Numel([0, 3]) == 0 && GrownLength(0, [0, 3]) == 3
  {
    assert [0, 3][1..] == [3];
  }

  lemma LengthCons(p: nat, o: Shape)
    requires NonNegative(o) && |o| > 1
    ensures NonNegative(o[1..]) && Numel(o) == o[0] * Numel(o[1..])
    ensures GrownLength(p, o) == (if o[0] > 1 then o[0] else 1) * GrownLength(p, o[1..])
  {}

  /** Scaling keeps a surplus, and keeps it the same only if it scales by one. */
  lemma ScaledSurplus(c: int, g: int, n: int, p: int)
    requires c >= 1 && p >= 0 && g >= p + n
    ensures c * g >= p + c * n
    ensures p > 0 ==> (c * g == p + c * n <==> c == 1 && g == p + n)
  {
    var d := g - n;
    assert c * d == c * g - c * n;
    MulMonotone(1, c, d);
    if c > 1 {
      MulMonotone(2, c, d);
    }
  }

  /** A vector grows by at least the element count of the output. */
  lemma {:induction false} GrowsEnough(p: nat, o: Shape)
    requires NonNegative(o)
    ensures GrownLength(p, o) >= p + Numel(o)
    decreases |o|
  {
    if |o| == 1 {
      assert Numel(o) == o[0];
    } else if |o| > 1 {
      hide GrownLength, Numel;
      LengthCons(p, o);
      GrowsEnough(p, o[1..]);
      if o[0] > 0 {
        ScaledSurplus(o[0], GrownLength(p, o[1..]), Numel(o[1..]), p);
      }
    }
  }

  lemma {:induction false} GrowsByNothing(p: nat, o: Shape)
    requires NonNegative(o) && p > 0
    ensures GrownLength(p, o) == p <==> FastestEmpty(o) && LeadingAtMostOne(o)
    decreases |o|
  {
    if |o| > 1 {
      LengthCons(p, o);
      GrowsByNothing(p, o[1..]);
      ShapeCons(o);
      if o[0] > 1 {
        MulMonotone(2, o[0], GrownLength(p, o[1..]));
      }
    }
  }

  /** Into a vector with entries: one more entry per output element exactly when every
      dimension but the fastest is one, or the fastest is empty and no other exceeds one. */
  lemma {:induction false} AppendLengthExact(p: nat, o: Shape)
    requires NonNegative(o) && p > 0
    ensures GrownLength(p, o) == p + Numel(o) <==> LeadingOnes(o) || (FastestEmpty(o) && LeadingAtMostOne(o))
    decreases |o|
  {
    if |o| == 1 {
      assert Numel(o) == o[0];
    } else if |o| > 1 {
      hide GrownLength, Numel, LeadingOnes, FastestEmpty, LeadingAtMostOne;
      LengthCons(p, o);
      AppendLengthExact(p, o[1..]);
      GrowsEnough(p, o[1..]);
      GrowsByNothing(p, o[1..]);
      ShapeCons(o);
      if o[0] > 0 {
        ScaledSurplus(o[0], GrownLength(p, o[1..]), Numel(o[1..]), p);
      }
    }
  }

  // ----- the loops -----

  /** The tables of two shapes given from the fastest dimension, appended to the vectors
      x0 and y0 of the caller. */
  method BuildTables(xr: Shape, yr: Shape, so: Shape, x0: seq<int>, y0: seq<int>)
      returns (xIndexes: seq<int>, yIndexes: seq<int>)
    requires |xr| == |yr| == |so| && NonNegative(so) && |x0| == |y0|
    ensures x0 <= xIndexes && y0 <= yIndexes
    ensures |xIndexes| == |yIndexes| == GrownLength(|x0|, Reverse(so))
    ensures x0 == [] && Positive(Reverse(so)) ==>
      xIndexes == Table(Reverse(xr), Reverse(so)) && yIndexes == Table(Reverse(yr), Reverse(so))
  {
    hide Table, GrownLength, Numel, Reverse;
    var xDim, yDim, outDim := 1, 1, 1;
    var done := 0;
    if so != [] {
      xDim, yDim, outDim := xr[0], yr[0], so[0];
      done := 1;
    }
    var xBias, yBias := xDim, yDim;
    var xi, yi := FirstBlock(xDim, yDim, outDim);
    FirstTables(xr, yr, so, xi, yi);
    xIndexes, yIndexes := x0 + xi, y0 + yi;
    FirstLength(|x0|, so);
    assert x0 == [] ==> xIndexes == xi && yIndexes == yi;
    while done < |so|
      invariant done <= |so| && (done > 0 || so == []) && NonNegative(Reverse(so[..done]))
      invariant x0 <= xIndexes && y0 <= yIndexes
      invariant |xIndexes| == |yIndexes| == GrownLength(|x0|, Reverse(so[..done]))
      invariant x0 == [] && Positive(Reverse(so[..done])) ==>
        && xIndexes == Table(Reverse(xr[..done]), Reverse(so[..done]))
        && yIndexes == Table(Reverse(yr[..done]), Reverse(so[..done]))
      invariant xBias == Numel(Reverse(xr[..done])) && yBias == Numel(Reverse(yr[..done]))
    {
      xDim, yDim, outDim := xr[done], yr[done], so[done];
      xIndexes, yIndexes := GrowTables(xIndexes, yIndexes, xDim, yDim, outDim, xBias, yBias,
        Reverse(xr[..done]), Reverse(yr[..done]), Reverse(so[..done]), x0 == []);
      NextDim(xr, done);
      NextDim(yr, done);
      NextDim(so, done);
      NextLength(|x0|, so, done);
      xBias := xBias * xDim;
      yBias := yBias * yDim;
      done := done + 1;
    }
    assert xr[..done] == xr && yr[..done] == yr && so[..done] == so;
  }

  lemma NextLength(p: nat, so: Shape, k: nat)
    requires NonNegative(so) && 0 < k < |so|
    ensures NonNegative(Reverse(so[..k])) && NonNegative(Reverse(so[..k + 1]))
    ensures GrownLength(p, Reverse(so[..k + 1])) == (if so[k] > 1 then so[k] else 1) * GrownLength(p, Reverse(so[..k]))
  {
    NextDim(so, k);
    LengthCons(p, Reverse(so[..k + 1]));
  }

  lemma NextDim(s: Shape, k: nat)
    requires k < |s|
    ensures Reverse(s[..k + 1]) == [s[k]] + Reverse(s[..k])
    ensures Reverse(s[..k + 1])[1..] == Reverse(s[..k])
    ensures Numel(Reverse(s[..k + 1])) == Numel(Reverse(s[..k])) * s[k]
  {}

  method FirstBlock(xDim: int, yDim: int, outDim: int) returns (xi: seq<int>, yi: seq<int>)
    requires outDim >= 0
    ensures |xi| == |yi| == outDim
    ensures forall i :: 0 <= i < outDim ==> xi[i] == (if xDim == 1 then 0 else i) && yi[i] == if yDim == 1 then 0 else i
  {
    xi, yi := [], [];
    for i := 0 to outDim
      invariant |xi| == |yi| == i
      invariant forall k :: 0 <= k < i ==> xi[k] == (if xDim == 1 then 0 else k) && yi[k] == if yDim == 1 then 0 else k
    {
      xi := xi + [if xDim == 1 then 0 else i];
      yi := yi + [if yDim == 1 then 0 else i];
    }
  }

  /** The block for the fastest dimension is the table of that dimension alone. */
  lemma FirstTables(x: Shape, y: Shape, o: Shape, xi: seq<int>, yi: seq<int>)
    requires |x| == |y| == |o| && NonNegative(o)
    requires var (a, b, w) := if o == [] then (1, 1, 1) else (x[0], y[0], o[0]);
      && |xi| == |yi| == w
      && forall i :: 0 <= i < w ==> xi[i] == (if a == 1 then 0 else i) && yi[i] == if b == 1 then 0 else i
    ensures var d := if o == [] then 0 else 1;
      && NonNegative(Reverse(o[..d]))
      && (Positive(Reverse(o[..d])) ==>
            xi == Table(Reverse(x[..d]), Reverse(o[..d])) && yi == Table(Reverse(y[..d]), Reverse(o[..d])))
      && Numel(Reverse(x[..d])) == (if o == [] then 1 else x[0])
      && Numel(Reverse(y[..d])) == (if o == [] then 1 else y[0])
  {
    if o == [] {
      assert Reverse(x[..0]) == [] && Reverse(y[..0]) == [] && Reverse(o[..0]) == [];
      assert Table([], []) == [0];
    } else {
      assert Reverse(x[..1]) == [x[0]] && Reverse(y[..1]) == [y[0]] && Reverse(o[..1]) == [o[0]];
      assert Numel([x[0]]) == x[0];
      assert Numel([y[0]]) == y[0];
      if o[0] > 0 {
        SingleTable(x[0], o[0], xi);
        SingleTable(y[0], o[0], yi);
      }
    }
  }

  lemma FirstLength(p: nat, o: Shape)
    requires NonNegative(o)
    ensures var d := if o == [] then 0 else 1;
      NonNegative(Reverse(o[..d])) && GrownLength(p, Reverse(o[..d])) == p + if o == [] then 1 else o[0]
  {
    if o != [] {
      assert Reverse(o[..1]) == [o[0]];
    }
  }

  lemma SingleTable(a: int, w: int, t: seq<int>)
    requires w > 0 && |t| == w && forall i :: 0 <= i < w ==> t[i] == if a == 1 then 0 else i
    ensures t == Table([a], [w])
  {
    assert Numel([w]) == w;
    forall n | 0 <= n < w ensures t[n] == FlatIndex([a], [w], n) {
      assert Table([], []) == [0];
      TableEntry([], [], a, w, n, 0);
      assert [a] + [] == [a] && [w] + [] == [w] && Numel([]) == 1;
    }
  }

  /** Adds one dimension to both vectors; they are tables if they were clean before. */
  method GrowTables(xi: seq<int>, yi: seq<int>, xDim: int, yDim: int, outDim: int, xBias: int, yBias: int,
                    ghost x: Shape, ghost y: Shape, ghost o: Shape, ghost clean: bool)
      returns (xo: seq<int>, yo: seq<int>)
    requires |x| == |y| == |o| && outDim >= 0 && |xi| == |yi| && xBias == Numel(x) && yBias == Numel(y)
    requires clean && Positive(o) ==> xi == Table(x, o) && yi == Table(y, o)
    ensures xi <= xo && yi <= yo
    ensures |xo| == |yo| == (if outDim > 1 then outDim else 1) * |xi|
    ensures clean && Positive([outDim] + o) ==>
      xo == Table([xDim] + x, [outDim] + o) && yo == Table([yDim] + y, [outDim] + o)
  {
    hide Table;
    xo, yo := xi, yi;
    var stride := |xi|;
    ghost var full := clean && Positive(o) && outDim > 0;
    PositiveCons(outDim, o);
    if full {
      TableFacts(x, y, o);
      TableGrows(xi, x, o, xDim, outDim);
      TableGrows(yi, y, o, yDim, outDim);
    }
    var j := 1;
    while j < outDim
      invariant 1 <= j && (outDim > 0 ==> j <= outDim) && (outDim == 0 ==> j == 1) && |xo| == |yo| == j * stride
      invariant xi <= xo && yi <= yo
      invariant full ==> TablePrefix(xo, [xDim] + x, [outDim] + o) && TablePrefix(yo, [yDim] + y, [outDim] + o)
    {
      var k := 0;
      while k < stride
        invariant 0 <= k <= stride && |xo| == |yo| == j * stride + k
        invariant xi <= xo && yi <= yo
        invariant full ==> TablePrefix(xo, [xDim] + x, [outDim] + o) && TablePrefix(yo, [yDim] + y, [outDim] + o)
      {
        if full {
          TableEntry(x, o, xDim, outDim, j, k);
          TableEntry(y, o, yDim, outDim, j, k);
        }
        assert j * stride >= 0;
        xo := xo + [xo[k] + if xDim == 1 then 0 else j * xBias];
        yo := yo + [yo[k] + if yDim == 1 then 0 else j * yBias];
        k := k + 1;
      }
      assert (j + 1) * stride == j * stride + stride;
      j := j + 1;
    }
    if full {
      assert Numel([outDim] + o) == outDim * Numel(o) by { assert ([outDim] + o)[1..] == o; }
      WholeTable(xo, [xDim] + x, [outDim] + o);
      WholeTable(yo, [yDim] + y, [outDim] + o);
    }
  }

  lemma PositiveCons(d: int, o: Shape)
    ensures Positive([d] + o) <==> d > 0 && Positive(o)
  {
    var s := [d] + o;
    assert s[0] == d && forall i :: 0 <= i < |o| ==> s[i + 1] == o[i];
  }

  lemma TableFacts(x: Shape, y: Shape, o: Shape)
    requires |x| == |y| == |o| && Positive(o)
    ensures |Table(x, o)| == |Table(y, o)| == Numel(o)
    ensures forall n :: 0 <= n < Numel(o) ==>
      Table(x, o)[n] == FlatIndex(x, o, n) && Table(y, o)[n] == FlatIndex(y, o, n)
  {}

  lemma WholeTable(t: seq<int>, x: Shape, o: Shape)
    requires |x| == |o| && Positive(o) && |t| == Numel(o) && TablePrefix(t, x, o)
    ensures t == Table(x, o)
  {}
}
