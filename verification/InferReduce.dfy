/** Shape inference for reductions, with and without keeping the reduced dimensions. */
module InferReduce {
  import opened Shapes
  import opened BroadcastIndex
  import opened Wrappers

  predicate CheckAxisBounds(dimNum: nat, axis: int) {
    if dimNum == 0 then axis == 0 else 0 - dimNum <= axis <= dimNum - 1
  }

  function Normalised(axis: int, dimNum: nat): (d: int) {
    if axis < 0 then axis + dimNum else axis
  }

  function AxisSet(axes: seq<int>, dimNum: nat): (s: set<int>) {
    set i | 0 <= i < |axes| :: Normalised(axes[i], dimNum)
  }

  /** The position of the first axis that is out of bounds, or the length. */
  function FirstBad(axes: seq<int>, dimNum: nat): (p: nat)
    ensures p <= |axes|
    ensures forall i :: 0 <= i < p ==> CheckAxisBounds(dimNum, axes[i])
    ensures p < |axes| ==> !CheckAxisBounds(dimNum, axes[p])
  {
    if axes == [] || !CheckAxisBounds(dimNum, axes[0]) then 0 else 1 + FirstBad(axes[1..], dimNum)
  }

  /** x with the dimensions in s replaced by one. */
  function KeepOf(x: Shape, s: set<int>): (r: Shape)
    ensures |r| == |x| && forall j :: 0 <= j < |x| ==> r[j] == if j in s then 1 else x[j]
  {
    seq(|x|, j requires 0 <= j < |x| => if j in s then 1 else x[j])
  }

  /** x without the dimensions in s. */
  function DropOf(x: Shape, s: set<int>): (r: Shape) {
    if x == [] then [] else
      var n := |x| - 1;
      DropOf(x[..n], s) + if n in s then [] else [x[n]]
  }

  /** The dimensions of x that are in s. */
  function PickOf(x: Shape, s: set<int>): (r: Shape) {
    if x == [] then [] else
      var n := |x| - 1;
      PickOf(x[..n], s) + if n in s then [x[n]] else []
  }

  // ----- what the selections are -----

  /** The members of p below n. */
  ghost function Below(p: set<int>, n: nat): (b: set<int>) {
    set j | 0 <= j < n && j in p
  }

  /** The positions of x that are not in s. */
  ghost function Outside(x: Shape, s: set<int>): (p: set<int>) {
    set j | 0 <= j < |x| && j !in s
  }

  /** r holds the dimensions of x at the positions p in their order: one entry for each, and
      what stands at position j of x comes behind as many entries as p has positions below j. */
  ghost predicate Lists(r: Shape, x: Shape, p: set<int>) {
    && |r| == |Below(p, |x|)|
    && forall j :: 0 <= j < |x| && j in p ==> |Below(p, j)| < |r| && r[|Below(p, j)|] == x[j]
  }

  lemma BelowNext(p: set<int>, n: nat, next: nat)
    requires next == n + 1
    ensures Below(p, next) == if n in p then Below(p, n) + {n} else Below(p, n)
    ensures |Below(p, next)| == |Below(p, n)| + if n in p then 1 else 0
  {
    if n in p {
      assert Below(p, next) == Below(p, n) + {n};
    } else {
      assert Below(p, next) == Below(p, n);
    }
  }

  lemma {:induction false} BelowGrows(p: set<int>, j: nat, n: nat)
    requires j < n && j in p
    ensures |Below(p, j)| < |Below(p, n)|
  {
    BelowNext(p, n - 1, n);
    if j < n - 1 {
      BelowGrows(p, j, n - 1);
    }
  }

  /** One more dimension, listed or not. */
  lemma ListsSnoc(r: Shape, x: Shape, p: set<int>)
    requires x != [] && Lists(r, x[..|x| - 1], p)
    ensures Lists(r + if |x| - 1 in p then [x[|x| - 1]] else [], x, p)
  {
    hide Below;
    var n := |x| - 1;
    BelowNext(p, n, |x|);
    var next := r + if n in p then [x[n]] else [];
    forall j | 0 <= j < |x| && j in p ensures |Below(p, j)| < |next| && next[|Below(p, j)|] == x[j] {
      BelowGrows(p, j, |x|);
      if j < n {
        assert x[..n][j] == x[j];
      }
    }
  }

  /** Dropping keeps the dimensions outside s, picking those in s, both in their order. */
  lemma {:induction false} SelectionsList(x: Shape, s: set<int>)
    ensures Lists(DropOf(x, s), x, Outside(x, s)) && Lists(PickOf(x, s), x, s)
    decreases |x|
  {
    if x == [] {
      assert Below(Outside(x, s), 0) == Below(s, 0) == {};
    } else {
      var n := |x| - 1;
      SelectionsList(x[..n], s);
      ListsWithin(DropOf(x[..n], s), x[..n], Outside(x[..n], s), Outside(x, s));
      ListsSnoc(DropOf(x[..n], s), x, Outside(x, s));
      ListsSnoc(PickOf(x[..n], s), x, s);
    }
  }

  /** Only positions inside x matter. */
  lemma ListsWithin(r: Shape, x: Shape, p: set<int>, q: set<int>)
    requires Lists(r, x, p) && forall j :: 0 <= j < |x| ==> (j in p <==> j in q)
    ensures Lists(r, x, q)
  {
    forall n: nat | n <= |x| ensures Below(p, n) == Below(q, n) {}
  }

  /** An axis names dimension j, counting from the front or from the back. */
  predicate Names(axis: int, dimNum: nat, j: int) {
    axis == j || axis == j - dimNum
  }

  /** Some axis names dimension j. */
  ghost predicate Reduced(axes: seq<int>, dimNum: nat, j: int) {
    exists i :: 0 <= i < |axes| && Names(axes[i], dimNum, j)
  }

  /** An axis is in bounds exactly if it names a dimension, which is then the only one and
      the normalised one. */
  lemma AxisMeaning(dimNum: nat, axis: int)
    requires dimNum > 0
    ensures CheckAxisBounds(dimNum, axis) <==> exists j :: 0 <= j < dimNum && Names(axis, dimNum, j)
    ensures forall j :: 0 <= j < dimNum && Names(axis, dimNum, j) ==> j == Normalised(axis, dimNum)
  {
    if CheckAxisBounds(dimNum, axis) {
      assert Names(axis, dimNum, Normalised(axis, dimNum));
    }
  }

  /** The normalised axes are the dimensions some axis names. */
  lemma AxisSetMeaning(axes: seq<int>, dimNum: nat, j: int)
    requires dimNum > 0 && forall i :: 0 <= i < |axes| ==> CheckAxisBounds(dimNum, axes[i])
    ensures j in AxisSet(axes, dimNum) <==> 0 <= j < dimNum && Reduced(axes, dimNum, j)
  {
    if j in AxisSet(axes, dimNum) {
      var i :| 0 <= i < |axes| && Normalised(axes[i], dimNum) == j;
      assert Names(axes[i], dimNum, j);
    }
  }

  // ----- the code -----

  /** The number of dimensions axes are checked against: a scalar counts as one. */
  function KeepRank(x: Shape): (n: nat) {
    if |x| == 0 then 1 else |x|
  }

  /** The shape with the reduced dimensions kept as ones, unless an axis is bad. */
  function KeepResult(x: Shape, axes: seq<int>): (r: Option<Shape>) {
    if FirstBad(axes, KeepRank(x)) < |axes| then None else Some(KeepOf(x, AxisSet(axes, |x|)))
  }

  method ReduceDimsWithKeepDims(x: Shape, axes: seq<int>) returns (r: Option<Shape>)
    ensures r == KeepResult(x, axes)
    ensures r.None? <==> exists i :: 0 <= i < |axes| && !(0 - KeepRank(x) <= axes[i] < KeepRank(x))
    ensures r.Some? ==> |r.value| == |x|
    ensures r.Some? ==> forall j :: 0 <= j < |x| ==> r.value[j] == if Reduced(axes, |x|, j) then 1 else x[j]
  {
    var isScalar := |x| == 0;
    var dimNum := if isScalar then 1 else |x|;
    var out := x;
    var i := 0;
    while i < |axes|
      invariant 0 <= i <= |axes| && forall k :: 0 <= k < i ==> CheckAxisBounds(dimNum, axes[k])
      invariant out == KeepOf(x, AxisSet(axes[..i], |x|))
    {
      if !CheckAxisBounds(dimNum, axes[i]) {
        assert FirstBad(axes, dimNum) == i;
        return None;
      }
      AxisSetSnoc(axes, i, |x|);
      if !isScalar {
        var dim := if axes[i] < 0 then axes[i] + dimNum else axes[i];
        out := out[dim := 1];
      }
      i := i + 1;
    }
    assert axes[..|axes|] == axes;
    forall j | 0 <= j < |x| ensures out[j] == if Reduced(axes, |x|, j) then 1 else x[j] {
      AxisSetMeaning(axes, |x|, j);
    }
    return Some(out);
  }

  lemma AxisSetSnoc(axes: seq<int>, i: nat, dimNum: nat)
    requires i < |axes|
    ensures AxisSet(axes[..i + 1], dimNum) == AxisSet(axes[..i], dimNum) + {Normalised(axes[i], dimNum)}
  {}

  /** Dimension j meets a bad axis before one that names it. */
  ghost predicate HitsBad(axes: seq<int>, dimNum: nat, j: int) {
    FirstBad(axes, dimNum) < |axes| && j !in AxisSet(axes[..FirstBad(axes, dimNum)], dimNum)
  }

  /** The shape without the reduced dimensions, unless some dimension meets a bad axis. */
  ghost function DropResult(x: Shape, axes: seq<int>): (r: Option<Shape>) {
    if exists j :: 0 <= j < |x| && HitsBad(axes, |x|, j) then None
    else Some(DropOf(x, AxisSet(axes[..FirstBad(axes, |x|)], |x|)))
  }

  method ReduceDimsWithoutKeepDims(x: Shape, axes: seq<int>) returns (r: Option<Shape>)
    ensures r == DropResult(x, axes)
    ensures r.None? <==> FirstBad(axes, |x|) < |axes| && Unnamed(x, axes[..FirstBad(axes, |x|)]) != {}
    ensures r.Some? ==> Lists(r.value, x, Unnamed(x, axes[..FirstBad(axes, |x|)]))
  {
    hide Lists, Unnamed;
    DropMeaning(x, axes);
    var dimNum := |x|;
    ghost var s := AxisSet(axes[..FirstBad(axes, dimNum)], dimNum);
    var out := [];
    var j := 0;
    while j < dimNum
      invariant 0 <= j <= dimNum && out == DropOf(x[..j], s)
      invariant forall k :: 0 <= k < j ==> !HitsBad(axes, dimNum, k)
    {
      var reduce := Scan(axes, dimNum, j);
      if reduce.None? {
        return None;
      }
      assert x[..j + 1][..j] == x[..j];
      if !reduce.value {
        out := out + [x[j]];
      }
      j := j + 1;
    }
    assert x[..|x|] == x;
    return Some(out);
  }

  /** The dimensions of x that no axis names. */
  ghost function Unnamed(x: Shape, axes: seq<int>): (p: set<int>) {
    set j | 0 <= j < |x| && !Reduced(axes, |x|, j)
  }

  /** They are the dimensions outside the normalised axes. */
  lemma UnnamedOutside(x: Shape, axes: seq<int>)
    requires forall i :: 0 <= i < |axes| ==> CheckAxisBounds(|x|, axes[i])
    ensures Outside(x, AxisSet(axes, |x|)) == Unnamed(x, axes)
  {
    forall j | 0 <= j < |x| ensures j in AxisSet(axes, |x|) <==> Reduced(axes, |x|, j) {
      AxisSetMeaning(axes, |x|, j);
    }
  }

  /** Dropping fails exactly if some axis is bad and the axes before it leave a dimension
      unnamed; otherwise the result lists the dimensions those axes leave unnamed. */
  lemma DropMeaning(x: Shape, axes: seq<int>)
    ensures var r, rest := DropResult(x, axes), Unnamed(x, axes[..FirstBad(axes, |x|)]);
      && (r.None? <==> FirstBad(axes, |x|) < |axes| && rest != {})
      && (r.Some? ==> Lists(r.value, x, rest))
  {
    hide Lists, Reduced, DropOf;
    var before := axes[..FirstBad(axes, |x|)];
    DropSucceeds(x, axes);
    UnnamedOutside(x, before);
    SelectionsList(x, AxisSet(before, |x|));
  }

  lemma DropSucceeds(x: Shape, axes: seq<int>)
    ensures DropResult(x, axes).None? <==>
      FirstBad(axes, |x|) < |axes| && Outside(x, AxisSet(axes[..FirstBad(axes, |x|)], |x|)) != {}
  {
    hide AxisSet, FirstBad;
    var rest := Outside(x, AxisSet(axes[..FirstBad(axes, |x|)], |x|));
    if rest != {} {
      var j :| j in rest;
      assert HitsBad(axes, |x|, j) <==> FirstBad(axes, |x|) < |axes|;
    }
    forall j | 0 <= j < |x| && HitsBad(axes, |x|, j) ensures j in rest {}
  }

  /** The inner loop: is dimension j reduced, unless a bad axis comes first. */
  method Scan(axes: seq<int>, dimNum: nat, j: nat) returns (r: Option<bool>)
    requires j < dimNum
    ensures r.None? <==> HitsBad(axes, dimNum, j)
    ensures r.Some? ==> r.value == (j in AxisSet(axes[..FirstBad(axes, dimNum)], dimNum))
  {
    ghost var bad := FirstBad(axes, dimNum);
    var i := 0;
    while i < |axes|
      invariant 0 <= i <= bad && j !in AxisSet(axes[..i], dimNum)
    {
      if !CheckAxisBounds(dimNum, axes[i]) {
        assert bad == i;
        return None;
      }
      AxisSetSnoc(axes, i, dimNum);
      var dim := if axes[i] < 0 then axes[i] + dimNum else axes[i];
      if dim == j {
        AxisSetPrefix(axes, i + 1, bad, dimNum);
        return Some(true);
      }
      i := i + 1;
    }
    return Some(false);
  }

  lemma AxisSetPrefix(axes: seq<int>, i: nat, k: nat, dimNum: nat)
    requires i <= k <= |axes|
    ensures AxisSet(axes[..i], dimNum) <= AxisSet(axes[..k], dimNum)
  {}

  // ----- properties -----

  /** numel(x) splits into the surviving and the reduced dimensions. */
  lemma {:induction false} NumelSplits(x: Shape, s: set<int>)
    ensures Numel(x) == Numel(DropOf(x, s)) * Numel(PickOf(x, s))
    decreases |x|
  {
    if x != [] {
      var n := |x| - 1;
      NumelSplits(x[..n], s);
      assert x == x[..n] + [x[n]];
      NumelSnoc(x[..n], x[n]);
      NumelSnoc(DropOf(x[..n], s), x[n]);
      NumelSnoc(PickOf(x[..n], s), x[n]);
      assert DropOf(x[..n], s) + [] == DropOf(x[..n], s) && PickOf(x[..n], s) + [] == PickOf(x[..n], s);
      ProductMoves(Numel(DropOf(x[..n], s)), Numel(PickOf(x[..n], s)), x[n]);
    }
  }

  lemma ProductMoves(d: int, p: int, v: int)
    ensures d * p * v == d * (p * v) && d * p * v == d * v * p
  {}

  /** Replacing dimensions by one and then dropping them is dropping them. */
  lemma {:induction false} DropAfterKeep(x: Shape, s: set<int>)
    ensures DropOf(KeepOf(x, s), s) == DropOf(x, s)
    ensures Numel(KeepOf(x, s)) == Numel(DropOf(x, s))
    decreases |x|
  {
    if x == [] {
      assert KeepOf(x, s) == [];
    } else {
      var n := |x| - 1;
      DropAfterKeep(x[..n], s);
      var d := if n in s then 1 else x[n];
      assert KeepOf(x, s)[..n] == KeepOf(x[..n], s);
      assert KeepOf(x, s) == KeepOf(x[..n], s) + [d];
      NumelSnoc(KeepOf(x[..n], s), d);
      NumelSnoc(DropOf(x[..n], s), d);
      assert DropOf(x[..n], s) + [] == DropOf(x[..n], s);
    }
  }

  predicate InBounds(x: Shape, axes: seq<int>) {
    forall i :: 0 <= i < |axes| ==> CheckAxisBounds(KeepRank(x), axes[i])
  }

  lemma InBoundsResults(x: Shape, axes: seq<int>)
    requires InBounds(x, axes)
    ensures KeepResult(x, axes) == Some(KeepOf(x, AxisSet(axes, |x|)))
    ensures DropResult(x, axes) == Some(DropOf(x, AxisSet(axes, |x|)))
  {
    if |x| > 0 {
      assert axes[..FirstBad(axes, |x|)] == axes;
    } else {
      assert DropOf(x, AxisSet(axes[..FirstBad(axes, |x|)], |x|)) == [] == DropOf(x, AxisSet(axes, |x|));
    }
  }

  /** With every axis in bounds both variants succeed and depend only on the set of
      reduced dimensions: repeats, order and negative spelling do not matter. The
      shorter result is the other one without the reduced positions, and the element
      count is the product of the result and the reduced dimensions. */
  lemma ReductionsAgree(x: Shape, axes: seq<int>, other: seq<int>)
    requires InBounds(x, axes) && InBounds(x, other) && AxisSet(axes, |x|) == AxisSet(other, |x|)
    ensures KeepResult(x, axes) == KeepResult(x, other) && DropResult(x, axes) == DropResult(x, other)
    ensures KeepResult(x, axes).Some? && DropResult(x, axes).Some?
    ensures var s, kept, dropped := AxisSet(axes, |x|), KeepResult(x, axes).value, DropResult(x, axes).value;
      && dropped == DropOf(kept, s)
      && Lists(dropped, x, Outside(x, s)) && Lists(dropped, kept, Outside(x, s)) && Lists(PickOf(x, s), x, s)
      && Numel(x) == Numel(dropped) * Numel(PickOf(x, s)) == Numel(kept) * Numel(PickOf(x, s))
  {
    InBoundsResults(x, axes);
    InBoundsResults(x, other);
    NumelSplits(x, AxisSet(axes, |x|));
    DropAfterKeep(x, AxisSet(axes, |x|));
    SelectionsList(x, AxisSet(axes, |x|));
    SelectionsList(KeepOf(x, AxisSet(axes, |x|)), AxisSet(axes, |x|));
    assert Outside(KeepOf(x, AxisSet(axes, |x|)), AxisSet(axes, |x|)) == Outside(x, AxisSet(axes, |x|));
  }

  /** The two variants differ on errors: dropping dimensions stops looking at the axes
      once a dimension is found, so a bad axis goes unnoticed exactly when the axes
      before the first bad one already cover every dimension. */
  lemma MissedBadAxis(x: Shape, axes: seq<int>)
    ensures KeepResult(x, axes).None? && DropResult(x, axes).Some? <==>
      FirstBad(axes, KeepRank(x)) < |axes| &&
      forall j :: 0 <= j < |x| ==> j in AxisSet(axes[..FirstBad(axes, KeepRank(x))], |x|)
    ensures DropResult(x, axes).None? ==> KeepResult(x, axes).None?
  {
    if |x| > 0 && DropResult(x, axes).Some? && KeepResult(x, axes).None? {
      forall j | 0 <= j < |x| ensures j in AxisSet(axes[..FirstBad(axes, |x|)], |x|) {
        assert !HitsBad(axes, |x|, j);
      }
    }
  }

  lemma BadAxisExample()
    ensures KeepResult([2, 3], [0, 1, 7]) == None && DropResult([2, 3], [0, 1, 7]) == Some([])
  {
    var x, axes := [2, 3], [0, 1, 7];
    assert FirstBad(axes, 2) == 2 by {
      assert axes[1..] == [1, 7] && axes[1..][1..] == [7];
    }
    var s := AxisSet(axes[..2], 2);
    assert Normalised(axes[..2][0], 2) in s && Normalised(axes[..2][1], 2) in s;
    assert s == {0, 1};
    assert DropOf(x[..1][..0], s) == [];
    assert DropOf(x[..1], s) == [] && DropOf(x, s) == [];
  }
}
