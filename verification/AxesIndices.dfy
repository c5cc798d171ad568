/** Index helpers of the multi-dimensional kernel: the digits of a tile number in an
    array of axis indices, their increment in place, and the offset they address. */
module AxesIndices {
  import opened Arith
  import opened Shapes
  import opened Strides
  import opened BroadcastIndex

  // ----- digits -----

  /** Appending a fastest dimension appends a digit. */
  lemma {:induction false} UnravelSnoc(s: Shape, u: int, n: int)
    requires Positive(s) && u > 0 && n >= 0
    ensures Positive(s + [u]) && n / u >= 0
    ensures Unravel(s + [u], n) == Unravel(s, n / u) + [n % u]
  {
    if s == [] {
      assert s + [u] == [u] && Numel([u][1..]) == 1;
    } else {
      var t := s[1..];
      assert (s + [u])[1..] == t + [u];
      UnravelSnoc(t, u, n);
      NumelSnoc(t, u);
      NumelPositive(t);
      NestedQuotient(n, u, Numel(t));
    }
  }

  /** The digits of a joint shape: those of the quotient, then those of the rest. */
  lemma {:induction false} UnravelAppend(s: Shape, t: Shape, n: int)
    requires Positive(s) && Positive(t) && n >= 0
    ensures Positive(s + t) && Numel(t) > 0 && n / Numel(t) >= 0
    ensures Unravel(s + t, n) == Unravel(s, n / Numel(t)) + Unravel(t, n)
    decreases |t|
  {
    hide Unravel, Numel;
    if t == [] {
      NothingAppended(s, n);
      assert s + t == s && t == [];
    } else {
      var k := |t| - 1;
      UnravelAppend(s, t[..k], n / t[k]);
      AppendStep(s, t[..k], t[k], n);
      assert t == t[..k] + [t[k]];
    }
  }

  lemma NothingAppended(s: Shape, n: int)
    requires Positive(s) && n >= 0
    ensures Numel([]) == 1 && n / Numel([]) == n && Unravel(s, n) == Unravel(s, n / Numel([])) + Unravel([], n)
  {}

  lemma AppendStep(s: Shape, t: Shape, u: int, n: int)
    requires Positive(s) && Positive(t) && u > 0 && n >= 0
    requires Positive(s + t) && Numel(t) > 0 && n / u >= 0 && n / u / Numel(t) >= 0
    requires Unravel(s + t, n / u) == Unravel(s, n / u / Numel(t)) + Unravel(t, n / u)
    ensures Positive(s + (t + [u])) && Numel(t + [u]) > 0 && n / Numel(t + [u]) >= 0
    ensures Unravel(s + (t + [u]), n) == Unravel(s, n / Numel(t + [u])) + Unravel(t + [u], n)
  {
    hide Numel, Unravel;
    assert s + (t + [u]) == (s + t) + [u];
    UnravelSnoc(s + t, u, n);
    UnravelSnoc(t, u, n);
    NumelSnoc(t, u);
    NestedQuotient(n, u, Numel(t));
  }

  /** Changing one digit moves the flat index by the weight of the digit. */
  lemma {:induction false} RavelUpdate(s: Shape, d: seq<int>, i: nat, v: int)
    requires |d| == |s| && i < |s|
    ensures Ravel(s, d[i := v]) == Ravel(s, d) + (v - d[i]) * Numel(s[i + 1..])
  {
    if i == 0 {
      assert d[i := v][1..] == d[1..];
      assert v * Numel(s[1..]) - d[0] * Numel(s[1..]) == (v - d[0]) * Numel(s[1..]);
    } else {
      assert d[i := v][1..] == d[1..][i - 1 := v];
      RavelUpdate(s[1..], d[1..], i - 1, v);
      assert s[1..][i..] == s[i + 1..];
    }
  }

  /** A full digit is one of the next higher weight. */
  lemma CarryKeepsRavel(s: Shape, d: seq<int>, i: nat)
    requires |d| == |s| && 0 < i < |s| && d[i] == s[i]
    ensures Ravel(s, d[i := 0][i - 1 := d[i - 1] + 1]) == Ravel(s, d)
  {
    hide Ravel, Numel;
    RavelUpdate(s, d, i, 0);
    RavelUpdate(s, d[i := 0], i - 1, d[i - 1] + 1);
    NumelFrom(s, i);
    assert s[i - 1 + 1..] == s[i..];
  }

  lemma NumelFrom(s: Shape, i: nat)
    requires i < |s|
    ensures Numel(s[i..]) == s[i] * Numel(s[i + 1..])
  {
    assert s[i..][1..] == s[i + 1..];
  }

  /** A flat index with a full leading digit lies outside. */
  lemma FullLeadingDigit(s: Shape, d: seq<int>)
    requires Positive(s) && |d| == |s| > 0 && d[0] == s[0]
    requires forall k :: 1 <= k < |s| ==> 0 <= d[k] < s[k]
    ensures Ravel(s, d) >= Numel(s)
  {
    RavelInRange(s[1..], d[1..]);
  }

  /** Digits before position i below their radix, digit i at most at it, the rest below. */
  ghost predicate CarryAt(s: Shape, d: seq<int>, i: int) {
    && |d| == |s|
    && forall k :: 0 <= k < |s| ==> 0 <= d[k] && if k == i then d[k] <= s[k] else d[k] < s[k]
  }

  // ----- the helpers -----

  /** The radices of a tile number: the dimensions before the split axis, and the number
      of tiles along it. */
  function Radices(dims: Shape, axis: nat, outer: int): (r: Shape)
    requires axis <= |dims|
    ensures |r| == axis + 1
  {
    dims[..axis] + [outer]
  }

  /** What is left of n once the digits before position i are taken off. */
  function Remaining(r: Shape, i: nat, n: nat): (m: nat)
    requires Positive(r) && i <= |r|
  {
    NumelPositive(r[i..]);
    n % Numel(r[i..])
  }

  lemma NothingTakenOff(r: Shape, n: nat)
    requires Positive(r) && n < Numel(r)
    ensures Remaining(r, 0, n) == n
  {
    assert r[0..] == r;
    DivModUnique(n, 0, Numel(r), n);
  }

  /** One round of the division loop: the leading digit of what is left. */
  lemma LeadingDigit(r: Shape, i: nat, n: nat)
    requires Positive(r) && i < |r|
    ensures Numel(r[i + 1..]) > 0 && Numel(r[i..]) == r[i] * Numel(r[i + 1..])
    ensures Numel(r[i..]) / r[i] == Numel(r[i + 1..])
    ensures Remaining(r, i, n) / Numel(r[i + 1..]) == Unravel(r, n)[i]
    ensures Remaining(r, i, n) - Unravel(r, n)[i] * Numel(r[i + 1..]) == Remaining(r, i + 1, n)
  {
    hide Numel, Unravel;
    NumelFrom(r, i);
    UnravelFrom(r, i, n);
    assert r[i..][1..] == r[i + 1..];
    UnravelCons(r[i..], n);
    assert Unravel(r, n)[i..][0] == Unravel(r, n)[i];
    TakeOff(Remaining(r, i, n), Unravel(r, n)[i], r[i], Numel(r[i + 1..]), Remaining(r, i + 1, n));
  }

  lemma TakeOff(left: nat, digit: int, radix: int, weight: int, rest: nat)
    requires radix > 0 && weight > 0 && rest < weight && left == digit * weight + rest
    ensures radix * weight / radix == weight && left / weight == digit && left - digit * weight == rest
  {
    DivModUnique(left, digit, weight, rest);
    DivModUnique(radix * weight, weight, radix, 0);
  }

  lemma LastDigit(r: Shape, n: nat)
    requires Positive(r) && r != []
    ensures Remaining(r, |r| - 1, n) == Unravel(r, n)[|r| - 1]
  {
    LeadingDigit(r, |r| - 1, n);
    assert r[|r| - 1 + 1..] == [];
  }

  lemma {:induction false} UnravelFrom(r: Shape, i: nat, n: int)
    requires Positive(r) && i <= |r| && n >= 0
    ensures Unravel(r, n)[i..] == Unravel(r[i..], n)
  {
    if i > 0 {
      assert Unravel(r, n)[1..] == Unravel(r[1..], n);
      UnravelFrom(r[1..], i - 1, n);
      assert r[1..][i - 1..] == r[i..];
      assert Unravel(r, n)[1..][i - 1..] == Unravel(r, n)[i..];
    }
  }

  /** BroadcastGetAxesIndices: the digits of prodIdx by repeated division. */
  method GetAxesIndices(axes: array<int>, prodIdx: nat, totalDims: Shape, endIdx: nat, totalProduct: nat,
    ghost outer: int)
    requires endIdx < axes.Length && endIdx <= |totalDims|
    requires outer > 0 && Positive(totalDims[..endIdx])
    requires totalProduct == Numel(Radices(totalDims, endIdx, outer)) && prodIdx < totalProduct
    modifies axes
    ensures Positive(Radices(totalDims, endIdx, outer))
    ensures axes[..endIdx + 1] == Unravel(Radices(totalDims, endIdx, outer), prodIdx)
    ensures forall k :: endIdx < k < axes.Length ==> axes[k] == old(axes[k])
  {
    hide Numel, Unravel, Remaining;
    ghost var r := Radices(totalDims, endIdx, outer);
    var product, rest := totalProduct, prodIdx;
    NothingTakenOff(r, prodIdx);
    assert r[0..] == r;
    for idx := 0 to endIdx
      invariant product == Numel(r[idx..]) && rest == Remaining(r, idx, prodIdx)
      invariant forall k :: 0 <= k < idx ==> axes[k] == Unravel(r, prodIdx)[k]
      invariant forall k :: endIdx < k < axes.Length ==> axes[k] == old(axes[k])
    {
      LeadingDigit(r, idx, prodIdx);
      assert r[idx] == totalDims[idx];
      product := product / totalDims[idx];
      var cur := rest / product;
      axes[idx] := cur;
      rest := rest - cur * product;
    }
    LastDigit(r, prodIdx);
    axes[endIdx] := rest;
  }

  /** BroadcastUpdateAxesIndices: increment and carry, for all but the last tile. */
  method UpdateAxesIndices(axes: array<int>, totalDims: Shape, endIdx: nat, endDim: int, ghost n: nat)
    requires endIdx < axes.Length && endIdx <= |totalDims|
    requires Positive(Radices(totalDims, endIdx, endDim)) && n + 1 < Numel(Radices(totalDims, endIdx, endDim))
    requires axes[..endIdx + 1] == Unravel(Radices(totalDims, endIdx, endDim), n)
    modifies axes
    ensures axes[..endIdx + 1] == Unravel(Radices(totalDims, endIdx, endDim), n + 1)
    ensures forall k :: endIdx < k < axes.Length ==> axes[k] == old(axes[k])
  {
    hide Ravel, Unravel, Numel, CarryAt;
    ghost var r := Radices(totalDims, endIdx, endDim);
    ghost var d := axes[..endIdx + 1];
    StartCarry(r, d, n);
    axes[endIdx] := axes[endIdx] + 1;
    assert axes[..endIdx + 1] == d[endIdx := d[endIdx] + 1];
    CarryOut(axes, endIdx, endDim, r, n + 1);
    var idx := endIdx - 1;
    while idx >= 0
      invariant -1 <= idx < endIdx && Ravel(r, axes[..endIdx + 1]) == n + 1
      invariant CarryAt(r, axes[..endIdx + 1], idx)
      invariant forall k :: endIdx < k < axes.Length ==> axes[k] == old(axes[k])
    {
      CarryOut(axes, idx, totalDims[idx], r, n + 1);
      idx := idx - 1;
    }
    CarriedOut(r, axes[..endIdx + 1]);
  }

  /** The step of the carry loops: a digit that reached its radix is carried. */
  method CarryOut(axes: array<int>, idx: nat, radix: int, ghost r: Shape, ghost n: nat)
    requires idx < |r| <= axes.Length && Positive(r) && r[idx] == radix
    requires CarryAt(r, axes[..|r|], idx) && Ravel(r, axes[..|r|]) == n < Numel(r)
    modifies axes
    ensures CarryAt(r, axes[..|r|], idx - 1) && Ravel(r, axes[..|r|]) == n
    ensures forall k :: |r| <= k < axes.Length ==> axes[k] == old(axes[k])
  {
    hide Ravel, Numel;
    ghost var d := axes[..|r|];
    if axes[idx] == radix {
      Carry(r, d, idx, n);
      axes[idx] := 0;
      axes[idx - 1] := axes[idx - 1] + 1;
      assert axes[..|r|] == d[idx := 0][idx - 1 := d[idx - 1] + 1];
    }
  }

  lemma CarriedOut(r: Shape, d: seq<int>)
    requires Positive(r) && CarryAt(r, d, -1)
    ensures Unravel(r, Ravel(r, d)) == d
  {
    UnravelRavel(r, d);
  }

  lemma StartCarry(r: Shape, d: seq<int>, n: nat)
    requires Positive(r) && r != [] && n < Numel(r) && d == Unravel(r, n)
    ensures var e := d[|r| - 1 := d[|r| - 1] + 1]; CarryAt(r, e, |r| - 1) && Ravel(r, e) == n + 1
  {
    RavelUnravel(r, n);
    DivModUnique(n, 0, Numel(r), n);
    RavelUpdate(r, d, |r| - 1, d[|r| - 1] + 1);
    assert r[|r| - 1 + 1..] == [];
  }

  /** A carry out of position i moves to position i - 1, which exists. */
  lemma Carry(r: Shape, d: seq<int>, i: nat, n: nat)
    requires Positive(r) && i < |r| && CarryAt(r, d, i) && d[i] == r[i] && Ravel(r, d) == n < Numel(r)
    ensures i > 0
    ensures var e := d[i := 0][i - 1 := d[i - 1] + 1]; CarryAt(r, e, i - 1) && Ravel(r, e) == n
  {
    if i == 0 {
      FullLeadingDigit(r, d);
    } else {
      CarryKeepsRavel(r, d, i);
    }
  }

  /** BroadcastUpdateNddmaAxesIndices: the same for the dimensions from startIdx on. */
  method UpdateNddmaAxesIndices(axes: array<int>, totalDims: Shape, startIdx: nat, endIdx: nat, ghost n: nat)
    requires endIdx < axes.Length && startIdx + endIdx < |totalDims|
    requires Positive(totalDims[startIdx..startIdx + endIdx + 1])
    requires n + 1 < Numel(totalDims[startIdx..startIdx + endIdx + 1])
    requires axes[..endIdx + 1] == Unravel(totalDims[startIdx..startIdx + endIdx + 1], n)
    modifies axes
    ensures axes[..endIdx + 1] == Unravel(totalDims[startIdx..startIdx + endIdx + 1], n + 1)
  {
    hide Ravel, Unravel, Numel, CarryAt;
    ghost var r := totalDims[startIdx..startIdx + endIdx + 1];
    ghost var d := axes[..endIdx + 1];
    StartCarry(r, d, n);
    axes[endIdx] := axes[endIdx] + 1;
    assert axes[..endIdx + 1] == d[endIdx := d[endIdx] + 1];
    var idx: int := endIdx;
    while idx >= 0
      invariant -1 <= idx <= endIdx && Ravel(r, axes[..endIdx + 1]) == n + 1
      invariant CarryAt(r, axes[..endIdx + 1], idx)
    {
      CarryOut(axes, idx, totalDims[idx + startIdx], r, n + 1);
      idx := idx - 1;
    }
    CarriedOut(r, axes[..endIdx + 1]);
  }

  /** BroadcastGetGmOffset: the address of a tile. */
  method GetGmOffset(axes: array<int>, strides: seq<int>, endIdx: nat, endDim: int) returns (gmOffset: int)
    requires endIdx < axes.Length && endIdx < |strides|
    ensures gmOffset == Dot(axes[..endIdx], strides[..endIdx]) + axes[endIdx] * strides[endIdx] * endDim
  {
    gmOffset := 0;
    for idx := 0 to endIdx
      invariant gmOffset == Dot(axes[..idx], strides[..idx])
    {
      DotSnoc(axes[..endIdx], strides[..endIdx], idx);
      assert axes[..endIdx][..idx + 1] == axes[..idx + 1] && axes[..endIdx][..idx] == axes[..idx];
      assert strides[..endIdx][..idx + 1] == strides[..idx + 1] && strides[..endIdx][..idx] == strides[..idx];
      gmOffset := gmOffset + axes[idx] * strides[idx];
    }
    gmOffset := gmOffset + axes[endIdx] * strides[endIdx] * endDim;
  }

  /** BroadcastGetNddmaOffset: the address of one of the copies a large tile is loaded in. */
  method GetNddmaOffset(axes: array<int>, strides: seq<int>, startIdx: nat, endIdx: nat) returns (offset: int)
    requires startIdx <= endIdx <= |strides| && endIdx - startIdx <= axes.Length
    ensures offset == Dot(axes[..endIdx - startIdx], strides[startIdx..endIdx])
  {
    ghost var s := strides[startIdx..endIdx];
    offset := 0;
    for idx := 0 to endIdx - startIdx
      invariant offset == Dot(axes[..idx], s[..idx])
    {
      DotSnoc(axes[..idx + 1], s[..idx + 1], idx);
      assert axes[..idx + 1][..idx + 1] == axes[..idx + 1] && axes[..idx + 1][..idx] == axes[..idx];
      assert s[..idx + 1][..idx + 1] == s[..idx + 1] && s[..idx + 1][..idx] == s[..idx];
      offset := offset + axes[idx] * strides[idx + startIdx];
    }
    assert s[..endIdx - startIdx] == s;
  }

  /** BroadcastFuseAxes: the number of elements of some neighbouring dimensions. */
  method FuseAxes(totalDims: Shape, startIdx: nat, endIdx: nat) returns (product: int)
    requires startIdx <= endIdx <= |totalDims|
    ensures product == Numel(totalDims[startIdx..endIdx])
  {
    product := 1;
    assert totalDims[startIdx..startIdx] == [];
    for idx := startIdx to endIdx
      invariant product == Numel(totalDims[startIdx..idx])
    {
      assert totalDims[startIdx..idx + 1] == totalDims[startIdx..idx] + [totalDims[idx]];
      NumelSnoc(totalDims[startIdx..idx], totalDims[idx]);
      product := product * totalDims[idx];
    }
  }
}
