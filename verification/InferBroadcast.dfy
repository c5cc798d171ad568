/** Broadcast shape inference over shapes with unknown dimensions (-1) and unknown
    rank ([-2]): an abstract interpretation of concrete broadcasting. */
module InferBroadcast {
  import opened Shapes
  import opened Wrappers

  const UNKNOWN_DIM := -1
  const UNKNOWN_RANK: Shape := [-2]

  /** The dimension two dimensions broadcast to. */
  function JoinDims(a: int, b: int): (r: Option<int>) {
    if a == b then Some(a)
    else if a != 1 && b != 1 then
      if a == UNKNOWN_DIM then Some(b) else if b == UNKNOWN_DIM then Some(a) else None
    else if a == 1 then Some(b) else Some(a)
  }

  predicate DimsJoin(a: Shape, b: Shape, r: nat)
    requires |a| <= r && |b| <= r
  {
    forall i :: 0 <= i < r ==> JoinDims(Dim(a, r, i), Dim(b, r, i)).Some?
  }

  /** The right-aligned, dimension by dimension join; unknown rank absorbs everything. */
  function Join(a: Shape, b: Shape): (s: Option<Shape>) {
    if a == UNKNOWN_RANK || b == UNKNOWN_RANK then Some(UNKNOWN_RANK)
    else
      var r := Rank(a, b);
      if DimsJoin(a, b, r) then
        Some(seq(r, i requires 0 <= i < r && JoinDims(Dim(a, r, i), Dim(b, r, i)).Some? =>
          JoinDims(Dim(a, r, i), Dim(b, r, i)).value))
      else None
  }

  // ----- the code, in place -----

  /** gert::Shape: a fixed buffer and a dimension count. */
  class ShapeBuffer {
    const dims: array<int>
    var num: nat

    constructor (capacity: nat)
      ensures fresh(dims) && dims.Length == capacity && num == 0
    {
      dims := new int[capacity];
      num := 0;
    }

    ghost predicate Valid()
      reads this
    {
      num <= dims.Length
    }

    ghost function Value(): (s: Shape)
      requires Valid()
      reads this, dims
    {
      dims[..num]
    }
  }

  /** Joins dim2 into dim1. */
  method BroadcastDim(dim1: int, dim2: int) returns (ok: bool, d: int)
    ensures ok <==> JoinDims(dim1, dim2).Some?
    ensures ok ==> d == JoinDims(dim1, dim2).value
    ensures !ok ==> d == dim1
  {
    d := dim1;
    if dim1 == dim2 {
      return true, d;
    }
    if dim1 != 1 && dim2 != 1 {
      if dim1 == -1 || dim2 == -1 {
        d := if dim1 == -1 then dim2 else dim1;
        return true, d;
      }
      return false, d;
    }
    d := if dim1 == 1 then dim2 else dim1;
    ok := true;
  }

  lemma JoinDimsCommutes(a: int, b: int)
    ensures JoinDims(a, b) == JoinDims(b, a)
  {}

  /** Joins a shape into the output shape, reusing the output's own buffer: the
      result equals the pure join of the two original shapes. */
  method BroadcastShapeToOutShape(shape: Shape, out: ShapeBuffer) returns (ok: bool)
    requires out.Valid() && |shape| <= out.dims.Length && out.dims.Length >= 1
    modifies out, out.dims
    ensures out.Valid()
    ensures ok <==> Join(old(out.Value()), shape).Some?
    ensures ok ==> out.Value() == Join(old(out.Value()), shape).value
  {
    ghost var y := out.Value();
    assert out.num == 1 ==> (out.dims[0] == -2 <==> out.Value() == UNKNOWN_RANK);
    if (|shape| == 1 && shape[0] == -2) || (out.num == 1 && out.dims[0] == -2) {
      out.num := 0;
      out.dims[0] := -2;
      out.num := 1;
      assert out.Value() == UNKNOWN_RANK;
      return true;
    }
    if |shape| > out.num {
      ok := WidenInto(shape, out);
    } else {
      ok := JoinInto(shape, out);
    }
  }

  /** A shape of the joined dimensions is the join. */
  lemma JoinIs(y: Shape, shape: Shape, s: Shape)
    requires y != UNKNOWN_RANK && shape != UNKNOWN_RANK && |s| == Rank(y, shape)
    requires forall k :: 0 <= k < |s| ==> JoinDims(Dim(y, |s|, k), Dim(shape, |s|, k)) == Some(s[k])
    ensures Join(y, shape) == Some(s)
  {
    assert DimsJoin(y, shape, |s|);
    assert Join(y, shape).value == s;
  }

  lemma JoinFails(y: Shape, shape: Shape, k: nat)
    requires y != UNKNOWN_RANK && shape != UNKNOWN_RANK && k < Rank(y, shape)
    requires JoinDims(Dim(y, Rank(y, shape), k), Dim(shape, Rank(y, shape), k)) == None
    ensures Join(y, shape) == None
  {}

  /** The shape has more dimensions: the output's are moved right while joining, the
      last one first, and the leading ones are copied. */
  method WidenInto(shape: Shape, out: ShapeBuffer) returns (ok: bool)
    requires out.Valid() && out.num < |shape| <= out.dims.Length
    requires shape != UNKNOWN_RANK && out.Value() != UNKNOWN_RANK
    modifies out, out.dims
    ensures out.Valid()
    ensures ok <==> Join(old(out.Value()), shape).Some?
    ensures ok ==> out.Value() == Join(old(out.Value()), shape).value
  {
    hide Join, JoinDims;
    ghost var y := out.Value();
    var yLen, r := out.num, |shape|;
    out.num := r;
    var lenSub := r - yLen;
    var i := yLen;
    while i > 0
      invariant 0 <= i <= yLen && out.num == r
      invariant out.dims[..i] == y[..i]
      invariant forall k :: lenSub + i <= k < r ==> JoinDims(Dim(y, r, k), shape[k]) == Some(out.dims[k])
    {
      assert out.dims[i - 1] == out.dims[..i][i - 1] == y[i - 1] == Dim(y, r, lenSub + i - 1);
      JoinDimsCommutes(shape[lenSub + i - 1], out.dims[i - 1]);
      var joined, d := BroadcastDim(shape[lenSub + i - 1], out.dims[i - 1]);
      if !joined {
        JoinFails(y, shape, lenSub + i - 1);
        return false;
      }
      out.dims[lenSub + i - 1] := d;
      i := i - 1;
      assert out.dims[..i] == y[..i];
    }
    i := 0;
    while i < lenSub
      invariant 0 <= i <= lenSub && out.num == r
      invariant forall k :: 0 <= k < i ==> out.dims[k] == shape[k]
      invariant forall k :: lenSub <= k < r ==> JoinDims(Dim(y, r, k), shape[k]) == Some(out.dims[k])
    {
      out.dims[i] := shape[i];
      i := i + 1;
    }
    forall k | 0 <= k < lenSub ensures JoinDims(1, shape[k]) == Some(shape[k]) {
      JoinOne(shape[k]);
    }
    JoinIs(y, shape, out.Value());
    return true;
  }

  lemma JoinOne(d: int)
    ensures JoinDims(1, d) == Some(d) && JoinDims(d, 1) == Some(d)
  {}

  /** The output has at least as many dimensions: its last ones are joined in place. */
  method JoinInto(shape: Shape, out: ShapeBuffer) returns (ok: bool)
    requires out.Valid() && |shape| <= out.num
    requires shape != UNKNOWN_RANK && out.Value() != UNKNOWN_RANK
    modifies out.dims
    ensures out.Valid()
    ensures ok <==> Join(old(out.Value()), shape).Some?
    ensures ok ==> out.Value() == Join(old(out.Value()), shape).value
  {
    hide Join, JoinDims;
    ghost var y := out.Value();
    var r := out.num;
    var lenSub := r - |shape|;
    var i := 0;
    while i < |shape|
      invariant 0 <= i <= |shape|
      invariant forall k :: 0 <= k < r && !(lenSub <= k < lenSub + i) ==> out.dims[k] == y[k]
      invariant forall k :: lenSub <= k < lenSub + i ==> JoinDims(y[k], shape[k - lenSub]) == Some(out.dims[k])
    {
      var joined, d := BroadcastDim(out.dims[lenSub + i], shape[i]);
      if !joined {
        JoinFails(y, shape, lenSub + i);
        return false;
      }
      out.dims[lenSub + i] := d;
      i := i + 1;
    }
    forall k | 0 <= k < lenSub ensures JoinDims(y[k], 1) == Some(y[k]) {
      JoinOne(y[k]);
    }
    JoinIs(y, shape, out.Value());
    return true;
  }

  /** Copies the first shape to the output and joins the second into it. */
  method BroadcastShape(in1: Shape, in2: Shape, out: ShapeBuffer) returns (ok: bool)
    requires out.dims.Length >= 1 && |in1| <= out.dims.Length && |in2| <= out.dims.Length
    modifies out, out.dims
    ensures out.Valid()
    ensures ok <==> Join(in1, in2).Some?
    ensures ok ==> out.Value() == Join(in1, in2).value
  {
    forall i | 0 <= i < |in1| {
      out.dims[i] := in1[i];
    }
    out.num := |in1|;
    assert out.Value() == in1;
    ok := BroadcastShapeToOutShape(in2, out);
  }

  // ----- meaning -----

  /** The concrete shapes an inferred shape stands for. */
  ghost predicate Describes(s: Shape, c: Shape) {
    s == UNKNOWN_RANK ||
    (|c| == |s| && forall i :: 0 <= i < |s| ==> s[i] == UNKNOWN_DIM || s[i] == c[i])
  }

  lemma DescribesDim(s: Shape, c: Shape, r: nat, i: nat)
    requires s != UNKNOWN_RANK && Describes(s, c) && |s| <= r && i < r
    ensures Dim(s, r, i) == UNKNOWN_DIM || Dim(s, r, i) == Dim(c, r, i)
  {}

  /** Inference is sound: whenever shapes described by a and b broadcast, inference
      succeeds and describes their result; so where it fails, none broadcast. */
  lemma JoinSound(a: Shape, b: Shape, x: Shape, y: Shape)
    requires Describes(a, x) && Describes(b, y) && NonNegative(x) && NonNegative(y) && Compatible(x, y)
    ensures Join(a, b).Some? && Describes(Join(a, b).value, OutShape(x, y))
  {
    if a != UNKNOWN_RANK && b != UNKNOWN_RANK {
      var r := Rank(a, b);
      assert Rank(x, y) == r;
      forall i | 0 <= i < r
        ensures JoinDims(Dim(a, r, i), Dim(b, r, i)).Some?
        ensures var d := JoinDims(Dim(a, r, i), Dim(b, r, i)).value;
          d == UNKNOWN_DIM || d == OutDim(Dim(x, r, i), Dim(y, r, i))
      {
        DescribesDim(a, x, r, i);
        DescribesDim(b, y, r, i);
        assert DimsCompatible(Dim(x, r, i), Dim(y, r, i));
        assert Dim(x, r, i) >= 0 && Dim(y, r, i) >= 0;
      }
      assert DimsJoin(a, b, r);
    }
  }

  /** A concrete shape for s that leads to the output o: unknown dimensions follow o. */
  function Follow(s: Shape, o: Shape): (c: Shape)
    requires |s| <= |o|
    ensures |c| == |s|
  {
    seq(|s|, i requires 0 <= i < |s| => if s[i] == UNKNOWN_DIM then o[|o| - |s| + i] else s[i])
  }

  /** Inference is exact for known ranks: every shape the result describes is the
      broadcast of shapes described by a and b. */
  lemma JoinExact(a: Shape, b: Shape, o: Shape)
    requires a != UNKNOWN_RANK && b != UNKNOWN_RANK && Join(a, b).Some?
    requires forall i :: 0 <= i < |a| ==> a[i] >= UNKNOWN_DIM
    requires forall i :: 0 <= i < |b| ==> b[i] >= UNKNOWN_DIM
    requires Describes(Join(a, b).value, o) && NonNegative(o)
    ensures |o| == Rank(a, b)
    ensures var x, y := Follow(a, o), Follow(b, o);
      && Describes(a, x) && Describes(b, y) && NonNegative(x) && NonNegative(y)
      && Compatible(x, y) && OutShape(x, y) == o
  {
    hide Join, Dim, OutDim, Compatible, OutShape, JoinDims, Follow;
    var r := Rank(a, b);
    NotUnknownRank(a, b);
    DimOfJoin(a, b, r);
    var x, y := Follow(a, o), Follow(b, o);
    FollowDescribes(a, o);
    FollowDescribes(b, o);
    forall i | 0 <= i < r
      ensures DimsCompatible(Dim(x, r, i), Dim(y, r, i)) && OutDim(Dim(x, r, i), Dim(y, r, i)) == o[i]
    {
      DimIsEntry(Join(a, b).value, i);
      FollowDim(Dim(a, r, i), Dim(b, r, i), o[i]);
    }
    BroadcastIs(x, y, o);
  }

  lemma DimIsEntry(s: Shape, i: nat)
    requires i < |s|
    ensures Dim(s, |s|, i) == s[i]
  {}

  /** Following the output, every dimension is unknown or kept. */
  lemma FollowDescribes(s: Shape, o: Shape)
    requires |s| <= |o| && NonNegative(o) && forall i :: 0 <= i < |s| ==> s[i] >= UNKNOWN_DIM
    ensures |Follow(s, o)| == |s| && Describes(s, Follow(s, o)) && NonNegative(Follow(s, o))
    ensures forall i :: 0 <= i < |o| ==>
      Dim(Follow(s, o), |o|, i) == if Dim(s, |o|, i) == UNKNOWN_DIM then o[i] else Dim(s, |o|, i)
  {}

  lemma FollowDim(a: int, b: int, o: int)
    requires JoinDims(a, b).Some? && (JoinDims(a, b).value == UNKNOWN_DIM || JoinDims(a, b).value == o)
    ensures var x, y := if a == UNKNOWN_DIM then o else a, if b == UNKNOWN_DIM then o else b;
      DimsCompatible(x, y) && OutDim(x, y) == o
  {}

  lemma BroadcastIs(x: Shape, y: Shape, o: Shape)
    requires |o| == Rank(x, y)
    requires forall i :: 0 <= i < |o| ==>
      DimsCompatible(Dim(x, |o|, i), Dim(y, |o|, i)) && OutDim(Dim(x, |o|, i), Dim(y, |o|, i)) == o[i]
    ensures Compatible(x, y) && OutShape(x, y) == o
  {}

  /** Joining shapes of known rank gives a known rank. */
  lemma NotUnknownRank(a: Shape, b: Shape)
    requires a != UNKNOWN_RANK && b != UNKNOWN_RANK && Join(a, b).Some?
    ensures Join(a, b).value != UNKNOWN_RANK && |Join(a, b).value| == Rank(a, b)
  {}

  // ----- algebra -----

  lemma JoinCommutes(a: Shape, b: Shape)
    ensures Join(a, b) == Join(b, a)
  {
    var r := Rank(a, b);
    forall i | 0 <= i < r ensures JoinDims(Dim(a, r, i), Dim(b, r, i)) == JoinDims(Dim(b, r, i), Dim(a, r, i)) {
      JoinDimsCommutes(Dim(a, r, i), Dim(b, r, i));
    }
    assert Rank(b, a) == r && DimsJoin(a, b, r) == DimsJoin(b, a, r);
    if Join(a, b).Some? && a != UNKNOWN_RANK && b != UNKNOWN_RANK {
      assert Join(a, b).value == Join(b, a).value;
    }
  }

  function Bind(s: Option<Shape>, b: Shape): (r: Option<Shape>) {
    match s
    case None => None
    case Some(v) => Join(v, b)
  }

  function BindRight(a: Shape, s: Option<Shape>): (r: Option<Shape>) {
    match s
    case None => None
    case Some(v) => Join(a, v)
  }

  function BindDims(d: Option<int>, b: int): (r: Option<int>) {
    match d
    case None => None
    case Some(v) => JoinDims(v, b)
  }

  lemma JoinDimsAssociates(a: int, b: int, c: int)
    ensures BindDims(JoinDims(a, b), c) == BindDims(JoinDims(b, c), a)
  {}

  /** Dimension i of a join, at any rank that is large enough. */
  lemma DimOfJoin(a: Shape, b: Shape, r: nat)
    requires a != UNKNOWN_RANK && b != UNKNOWN_RANK && |a| <= r && |b| <= r
    ensures Join(a, b).Some? <==> DimsJoin(a, b, r)
    ensures Join(a, b).Some? ==>
      (|Join(a, b).value| <= r &&
       forall i :: 0 <= i < r ==> Some(Dim(Join(a, b).value, r, i)) == JoinDims(Dim(a, r, i), Dim(b, r, i)))
  {
    var k := Rank(a, b);
    forall i | 0 <= i < r
      ensures JoinDims(Dim(a, r, i), Dim(b, r, i))
           == if i < r - k then Some(1) else JoinDims(Dim(a, k, i - (r - k)), Dim(b, k, i - (r - k)))
    {}
    if DimsJoin(a, b, r) {
      forall i | 0 <= i < k ensures JoinDims(Dim(a, k, i), Dim(b, k, i)).Some? {
        assert JoinDims(Dim(a, r, i + (r - k)), Dim(b, r, i + (r - k))).Some?;
      }
    }
  }

  lemma SameShape(s: Shape, t: Shape, r: nat)
    requires |s| == |t| <= r && forall i :: 0 <= i < r ==> Dim(s, r, i) == Dim(t, r, i)
    ensures s == t
  {
    forall i | 0 <= i < |s| ensures s[i] == t[i] {
      assert Dim(s, r, i + (r - |s|)) == Dim(t, r, i + (r - |t|));
    }
  }

  /** For shapes of known rank the order of joining does not matter. */
  lemma JoinAssociatesKnown(a: Shape, b: Shape, c: Shape)
    requires a != UNKNOWN_RANK && b != UNKNOWN_RANK && c != UNKNOWN_RANK
    ensures Bind(Join(a, b), c) == Bind(Join(b, c), a)
  {
    var r := Rank(a, Ones(Rank(b, c)));
    DimOfJoin(a, b, r);
    DimOfJoin(b, c, r);
    forall i | 0 <= i < r
      ensures BindDims(JoinDims(Dim(a, r, i), Dim(b, r, i)), Dim(c, r, i))
           == BindDims(JoinDims(Dim(b, r, i), Dim(c, r, i)), Dim(a, r, i))
    {
      JoinDimsAssociates(Dim(a, r, i), Dim(b, r, i), Dim(c, r, i));
    }
    var l, m := Join(a, b), Join(b, c);
    if l.Some? {
      NotUnknownRank(a, b);
      DimOfJoin(l.value, c, r);
    }
    if m.Some? {
      NotUnknownRank(b, c);
      DimOfJoin(m.value, a, r);
    }
    LeftSome(a, b, c, r);
    LeftSome(b, c, a, r);
    if Bind(l, c).Some? {
      SameShape(Bind(l, c).value, Bind(m, a).value, r);
    }
  }

  /** A two-step join succeeds exactly when it does in every dimension. */
  lemma LeftSome(a: Shape, b: Shape, c: Shape, r: nat)
    requires a != UNKNOWN_RANK && b != UNKNOWN_RANK && c != UNKNOWN_RANK
    requires |a| <= r && |b| <= r && |c| <= r
    ensures Bind(Join(a, b), c).Some? <==>
      forall i :: 0 <= i < r ==> BindDims(JoinDims(Dim(a, r, i), Dim(b, r, i)), Dim(c, r, i)).Some?
  {
    DimOfJoin(a, b, r);
    if Join(a, b).Some? {
      NotUnknownRank(a, b);
      DimOfJoin(Join(a, b).value, c, r);
    }
  }

  /** Joining is associative exactly unless the outer operand has unknown rank while
      the inner two do not broadcast: unknown rank hides the failure when it comes
      first and not when it comes last. */
  lemma JoinAssociates(a: Shape, b: Shape, c: Shape)
    ensures Bind(Join(a, b), c) == BindRight(a, Join(b, c)) <==>
      !((c == UNKNOWN_RANK && Join(a, b).None?) || (a == UNKNOWN_RANK && Join(b, c).None?))
  {
    if a != UNKNOWN_RANK && b != UNKNOWN_RANK && c != UNKNOWN_RANK {
      JoinAssociatesKnown(a, b, c);
    }
    if Join(b, c).Some? {
      JoinCommutes(a, Join(b, c).value);
    }
  }

  /** Two shapes that never broadcast are accepted once an unknown rank joins first. */
  lemma UnknownRankHidesFailure()
    ensures Bind(Join([2], [3]), UNKNOWN_RANK) == None
    ensures BindRight([2], Join([3], UNKNOWN_RANK)) == Some(UNKNOWN_RANK)
  {
    assert JoinDims(Dim([2], 1, 0), Dim([3], 1, 0)) == None;
  }
}
