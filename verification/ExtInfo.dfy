/** The extended information of a kernel launch: a buffer of tagged records, walked
    once to collect the launch message and once to find the session. */
module ExtInfo {
  import opened Arith
  import opened Wrappers

  const HEAD: nat := 8
  const WORD: nat := 0x1_0000_0000

  datatype Kind =
    | ShapeType | InputShape | OutputShape | SessionInfo | BitMap | TopicType
    | AsyncWait | InputIndex | OutputIndex | WorkSpace | Ignored

  /** The type codes, structure sizes and field positions of the launch interface. */
  datatype Layout = Layout(
    kind: nat -> Kind,
    shapeSize: nat, sessionSize: nat, asyncSize: nat, workspaceSize: nat,
    kernelId: Bytes -> nat, waitType: Bytes -> nat, waitId: Bytes -> nat,
    nullWait: nat, invalidWait: nat,
    spaceSize: Bytes -> nat, spaceAddr: Bytes -> nat)

  /** What the walk collects; shapes and tables are addresses in the buffer. */
  datatype Msg = Msg(
    hasSessInfo: bool, kernelId: nat, unknownShape: bool, asyncFlag: bool, hostFlag: bool,
    waitType: nat, waitId: nat, inputShapes: seq<nat>, outputShapes: seq<nat>,
    inputIndex: map<nat, nat>, outputIndex: map<nat, nat>, workspaceSize: nat, workspaceAddr: nat)

  const EMPTY := Msg(false, 0, false, false, false, 0, 0, [], [], map[], map[], 0, 0)

  // ----- the buffer -----

  function Word32(n: nat): (b: Bytes)
    ensures |b| == 4
  {
    [n % 256, n / 256 % 256, n / 65536 % 256, n / 16777216 % 256]
  }

  function WordOf(b: Bytes, o: nat): (n: nat)
    requires o + 4 <= |b|
    ensures n < WORD
  {
    (b[o] as int) + 256 * (b[o + 1] as int) + 65536 * (b[o + 2] as int) + 16777216 * (b[o + 3] as int)
  }

  datatype Record = Record(code: nat, payload: Bytes)

  ghost predicate Fits(r: Record) {
    r.code < WORD && |r.payload| < WORD
  }

  function Encoded(r: Record): (b: Bytes)
    ensures |b| == HEAD + |r.payload|
  {
    Word32(r.code) + Word32(|r.payload|) + r.payload
  }

  function Concat(rs: seq<Record>): (b: Bytes) {
    if rs == [] then [] else Concat(rs[..|rs| - 1]) + Encoded(rs[|rs| - 1])
  }

  lemma WordRoundTrip(n: nat)
    requires n < WORD
    ensures WordOf(Word32(n), 0) == n
  {
    var a := n / 256;
    var b := a / 256;
    DigitSplit(n, 256, 256);
    DigitSplit(n, 256, 65536);
    DigitSplit(a, 256, 256);
    assert n / 65536 == b && n / 16777216 == b / 256;
    assert n == 256 * a + n % 256 && a == 256 * b + a % 256 && b == 256 * (b / 256) + b % 256;
    assert b / 256 < 256;
  }

  /** The header and payload of record i, read back from the buffer. */
  lemma RecordAt(rs: seq<Record>, i: nat)
    requires i < |rs| && Fits(rs[i])
    ensures var b, o := Concat(rs), |Concat(rs[..i])|;
      && o + HEAD + |rs[i].payload| == |Concat(rs[..i + 1])| <= |b|
      && WordOf(b, o) == rs[i].code && WordOf(b, o + 4) == |rs[i].payload|
      && b[o + HEAD..o + HEAD + |rs[i].payload|] == rs[i].payload
  {
    hide WordOf, Encoded, Fits;
    var b, p := Concat(rs), Concat(rs[..i]);
    ConcatPrefix(rs, i + 1);
    assert rs[..i + 1][..i] == rs[..i];
    assert Concat(rs[..i + 1]) == p + Encoded(rs[i]);
    assert b[|p|..|p| + |Encoded(rs[i])|] == Encoded(rs[i]);
    EncodedAt(b, |p|, rs[i]);
  }

  lemma EncodedAt(b: Bytes, o: nat, r: Record)
    requires Fits(r) && o + HEAD + |r.payload| <= |b| && b[o..o + HEAD + |r.payload|] == Encoded(r)
    ensures WordOf(b, o) == r.code && WordOf(b, o + 4) == |r.payload|
    ensures b[o + HEAD..o + HEAD + |r.payload|] == r.payload
  {
    hide WordAt, Word32;
    var e := Encoded(r);
    assert e[0..4] == Word32(r.code) && e[4..8] == Word32(|r.payload|) && e[8..] == r.payload;
    WordSlice(b, o, e, 0);
    WordSlice(b, o, e, 4);
    WordRoundTrip(r.code);
    WordRoundTrip(|r.payload|);
    assert b[o + HEAD..o + HEAD + |r.payload|] == b[o..o + |e|][8..];
  }

  lemma WordSlice(b: Bytes, o: nat, e: Bytes, k: nat)
    requires o + |e| <= |b| && b[o..o + |e|] == e && k + 4 <= |e|
    ensures WordOf(b, o + k) == WordOf(e[k..k + 4], 0)
  {
    assert b[o + k] == e[k] && b[o + k + 1] == e[k + 1] && b[o + k + 2] == e[k + 2] && b[o + k + 3] == e[k + 3];
  }

  lemma {:induction false} ConcatPrefix(rs: seq<Record>, i: nat)
    requires i <= |rs|
    ensures Concat(rs[..i]) <= Concat(rs)
    decreases |rs|
  {
    if i < |rs| {
      ConcatPrefix(rs[..|rs| - 1], i);
      assert rs[..|rs| - 1][..i] == rs[..i];
    } else {
      assert rs[..i] == rs;
    }
  }

  // ----- one record -----

  function Addresses(at: nat, size: nat, n: nat): (s: seq<nat>)
    ensures |s| == n && forall i :: 0 <= i < n ==> s[i] == at + i * size
  {
    seq(n, i requires 0 <= i => at + i * size)
  }

  function Indexed(m: map<nat, nat>, p: Bytes, n: nat): (r: map<nat, nat>)
    requires 4 * n <= |p|
  {
    if n == 0 then m else Indexed(m, p, n - 1)[WordOf(p, 4 * (n - 1)) := 0]
  }

  function IndexEntry(p: Bytes, j: nat): (w: nat)
    requires 4 * j + 4 <= |p|
  {
    WordOf(p, 4 * j)
  }

  /** w is one of the first n words of p. */
  ghost predicate IsWord(p: Bytes, n: nat, w: nat)
    requires 4 * n <= |p|
  {
    exists j: nat :: j < n && IndexEntry(p, j) == w
  }

  /** The table gets one entry of zero for each word, and keeps the others. */
  lemma {:induction false} IndexedKeys(m: map<nat, nat>, p: Bytes, n: nat)
    requires 4 * n <= |p|
    ensures forall w :: w in Indexed(m, p, n) <==> w in m || IsWord(p, n, w)
    ensures forall w :: w in Indexed(m, p, n) ==> Indexed(m, p, n)[w] == if IsWord(p, n, w) then 0 else m[w]
  {
    hide WordOf;
    if n > 0 {
      IndexedKeys(m, p, n - 1);
      var last := IndexEntry(p, n - 1);
      forall w ensures IsWord(p, n, w) <==> IsWord(p, n - 1, w) || w == last {}
    }
  }

  /** The effect of one record whose payload p lies at address at. */
  function ParseRecord(l: Layout, m: Msg, at: nat, kind: Kind, p: Bytes): (r: Result<Msg>)
    requires l.shapeSize > 0
    ensures r.Ok? ==> (r.value.hasSessInfo <==> m.hasSessInfo || kind == SessionInfo)
    ensures kind == SessionInfo ==> (r.Ok? <==> |p| == l.sessionSize)
  {
    match kind
    case ShapeType => if |p| != 4 then Err else Ok(m.(unknownShape := true))
    case InputShape =>
      if !m.unknownShape then Ok(m)
      else if |p| % l.shapeSize != 0 then Err
      else Ok(m.(inputShapes := m.inputShapes + Addresses(at, l.shapeSize, |p| / l.shapeSize)))
    case OutputShape =>
      if !m.unknownShape then Ok(m)
      else if |p| % l.shapeSize != 0 then Err
      else Ok(m.(outputShapes := m.outputShapes + Addresses(at, l.shapeSize, |p| / l.shapeSize)))
    case SessionInfo =>
      if |p| != l.sessionSize then Err else Ok(m.(hasSessInfo := true, kernelId := l.kernelId(p)))
    case BitMap => if |p| != 8 then Err else Ok(m.(unknownShape := p[0] % 2 == 0))
    case TopicType => if |p| != 4 then Err else Ok(m.(hostFlag := p[0] / 128 % 2 == 1))
    case AsyncWait =>
      if |p| != l.asyncSize then Err else
        var waits := l.waitType(p) != l.nullWait && l.waitType(p) != l.invalidWait;
        Ok(m.(waitType := l.waitType(p), waitId := l.waitId(p), asyncFlag := m.asyncFlag || waits))
    case InputIndex =>
      if |p| % 4 != 0 then Err else Ok(m.(inputIndex := Indexed(m.inputIndex, p, |p| / 4)))
    case OutputIndex =>
      if |p| % 4 != 0 then Err else Ok(m.(outputIndex := Indexed(m.outputIndex, p, |p| / 4)))
    case WorkSpace =>
      if |p| != l.workspaceSize then Err else Ok(m.(workspaceSize := l.spaceSize(p), workspaceAddr := l.spaceAddr(p)))
    case Ignored => Ok(m)
  }

  /** A record as the walk meets it: the address of its payload, type code, payload. */
  datatype Visit = Visit(at: nat, code: nat, payload: Bytes)

  /** The left fold of the records met. */
  function Fold(l: Layout, vs: seq<Visit>): (r: Result<Msg>)
    requires l.shapeSize > 0
  {
    if vs == [] then Ok(EMPTY) else
      var n := |vs| - 1;
      match Fold(l, vs[..n])
      case Err => Err
      case Ok(m) => ParseRecord(l, m, vs[n].at, l.kind(vs[n].code), vs[n].payload)
  }

  lemma FoldSnoc(l: Layout, vs: seq<Visit>, v: Visit)
    requires l.shapeSize > 0
    ensures Fold(l, vs + [v]) ==
      match Fold(l, vs) case Err => Err case Ok(m) => ParseRecord(l, m, v.at, l.kind(v.code), v.payload)
  {
    assert (vs + [v])[..|vs|] == vs;
  }

  // ----- what the message holds -----

  function KindAt(l: Layout, vs: seq<Visit>, i: nat): (k: Kind)
    requires i < |vs|
  {
    l.kind(vs[i].code)
  }

  /** Record i says whether shapes are unknown. */
  ghost predicate Decides(l: Layout, vs: seq<Visit>, i: nat)
    requires i < |vs|
  {
    KindAt(l, vs, i) == ShapeType || KindAt(l, vs, i) == BitMap
  }

  /** The last of the first n records that say whether shapes are unknown says so: it is a
      shape type, or a bit map with an even first byte. */
  ghost predicate UnknownAfter(l: Layout, vs: seq<Visit>, n: nat)
    requires n <= |vs|
  {
    exists i: nat :: i < n && Decides(l, vs, i)
      && (KindAt(l, vs, i) == ShapeType || (vs[i].payload != [] && vs[i].payload[0] % 2 == 0))
      && forall j: nat :: i < j < n ==> !Decides(l, vs, j)
  }

  /** Record i has a length its kind does not allow. */
  ghost predicate BadAt(l: Layout, vs: seq<Visit>, i: nat)
    requires l.shapeSize > 0 && i < |vs|
  {
    var len := |vs[i].payload|;
    match KindAt(l, vs, i)
    case ShapeType => len != 4
    case InputShape => UnknownAfter(l, vs, i) && len % l.shapeSize != 0
    case OutputShape => UnknownAfter(l, vs, i) && len % l.shapeSize != 0
    case SessionInfo => len != l.sessionSize
    case BitMap => len != 8
    case TopicType => len != 4
    case AsyncWait => len != l.asyncSize
    case InputIndex => len % 4 != 0
    case OutputIndex => len % 4 != 0
    case WorkSpace => len != l.workspaceSize
    case Ignored => false
  }

  ghost predicate AnyBad(l: Layout, vs: seq<Visit>, n: nat)
    requires l.shapeSize > 0 && n <= |vs|
  {
    exists i: nat :: i < n && BadAt(l, vs, i)
  }

  /** Record i is the last of its kind among the first n. */
  ghost predicate LastAt(l: Layout, vs: seq<Visit>, n: nat, i: nat, kind: Kind)
    requires i < n <= |vs|
  {
    KindAt(l, vs, i) == kind && forall j: nat :: i < j < n ==> KindAt(l, vs, j) != kind
  }

  /** v is what f reads in the last of the first n records of a kind, or the initial value
      if there is none. */
  ghost predicate IsLast<T(!new)>(l: Layout, vs: seq<Visit>, n: nat, kind: Kind, f: Bytes -> T, initial: T, v: T)
    requires n <= |vs|
  {
    && (forall i: nat :: i < n && LastAt(l, vs, n, i, kind) ==> v == f(vs[i].payload))
    && ((forall i: nat :: i < n ==> KindAt(l, vs, i) != kind) ==> v == initial)
  }

  lemma LastStep<T(!new)>(l: Layout, vs: seq<Visit>, n: nat, kind: Kind, f: Bytes -> T, initial: T, v: T, next: T)
    requires n < |vs| && IsLast(l, vs, n, kind, f, initial, v)
    requires next == if KindAt(l, vs, n) == kind then f(vs[n].payload) else v
    ensures IsLast(l, vs, n + 1, kind, f, initial, next)
  {
    hide LastAt, KindAt;
    forall i: nat | i < n + 1 && LastAt(l, vs, n + 1, i, kind) ensures next == f(vs[i].payload) {
      LastAtNext(l, vs, n, i, kind);
    }
    if forall i: nat :: i < n + 1 ==> KindAt(l, vs, i) != kind {
      assert KindAt(l, vs, n) != kind;
    }
  }

  lemma LastAtNext(l: Layout, vs: seq<Visit>, n: nat, i: nat, kind: Kind)
    requires i <= n < |vs| && LastAt(l, vs, n + 1, i, kind)
    ensures KindAt(l, vs, i) == kind
    ensures i < n ==> LastAt(l, vs, n, i, kind) && KindAt(l, vs, n) != kind
  {}

  /** b says whether some record of a kind among the first n satisfies p. */
  ghost predicate IsAny(l: Layout, vs: seq<Visit>, n: nat, kind: Kind, p: Bytes -> bool, b: bool)
    requires n <= |vs|
  {
    b <==> exists i: nat :: i < n && KindAt(l, vs, i) == kind && p(vs[i].payload)
  }

  lemma AnyStep(l: Layout, vs: seq<Visit>, n: nat, kind: Kind, p: Bytes -> bool, b: bool, next: bool)
    requires n < |vs| && IsAny(l, vs, n, kind, p, b)
    requires next == (b || (KindAt(l, vs, n) == kind && p(vs[n].payload)))
    ensures IsAny(l, vs, n + 1, kind, p, next)
  {}

  /** Record i is one of a kind whose shapes are collected. */
  ghost predicate Collected(l: Layout, vs: seq<Visit>, i: nat, kind: Kind)
    requires i < |vs|
  {
    KindAt(l, vs, i) == kind && UnknownAfter(l, vs, i)
  }

  /** How many shapes the first n records of a kind contribute. */
  ghost function ShapeCount(l: Layout, vs: seq<Visit>, n: nat, kind: Kind): (c: nat)
    requires l.shapeSize > 0 && n <= |vs|
  {
    if n == 0 then 0 else
      ShapeCount(l, vs, n - 1, kind) + if Collected(l, vs, n - 1, kind) then |vs[n - 1].payload| / l.shapeSize else 0
  }

  /** s holds the addresses of the shapes in the first n records of a kind, record by record
      and in each one behind the other. */
  ghost predicate AreShapes(l: Layout, vs: seq<Visit>, n: nat, kind: Kind, s: seq<nat>)
    requires l.shapeSize > 0 && n <= |vs|
  {
    && |s| == ShapeCount(l, vs, n, kind)
    && forall i: nat :: i < n && Collected(l, vs, i, kind) ==> ShapesOfRecord(l, vs, i, kind, s)
  }

  ghost predicate ShapesOfRecord(l: Layout, vs: seq<Visit>, i: nat, kind: Kind, s: seq<nat>)
    requires l.shapeSize > 0 && i < |vs|
  {
    var first, count := ShapeCount(l, vs, i, kind), |vs[i].payload| / l.shapeSize;
    && first + count <= |s|
    && forall k :: first <= k < first + count ==> s[k] == vs[i].at + (k - first) * l.shapeSize
  }

  lemma ShapesStay(l: Layout, vs: seq<Visit>, i: nat, kind: Kind, s: seq<nat>, next: seq<nat>)
    requires l.shapeSize > 0 && i < |vs| && ShapesOfRecord(l, vs, i, kind, s) && s <= next
    ensures ShapesOfRecord(l, vs, i, kind, next)
  {}

  lemma ShapesAdded(l: Layout, vs: seq<Visit>, n: nat, kind: Kind, s: seq<nat>)
    requires l.shapeSize > 0 && n < |vs| && |s| == ShapeCount(l, vs, n, kind)
    ensures ShapesOfRecord(l, vs, n, kind, s + Addresses(vs[n].at, l.shapeSize, |vs[n].payload| / l.shapeSize))
  {
    hide ShapeCount, Addresses;
  }

  lemma ShapesStep(l: Layout, vs: seq<Visit>, n: nat, kind: Kind, s: seq<nat>, next: seq<nat>)
    requires l.shapeSize > 0 && n < |vs| && AreShapes(l, vs, n, kind, s)
    requires next == if !Collected(l, vs, n, kind) then s
      else s + Addresses(vs[n].at, l.shapeSize, |vs[n].payload| / l.shapeSize)
    ensures AreShapes(l, vs, n + 1, kind, next)
  {
    hide Collected, Addresses, ShapesOfRecord;
    forall i: nat | i < n + 1 && Collected(l, vs, i, kind) ensures ShapesOfRecord(l, vs, i, kind, next) {
      if i < n {
        ShapesStay(l, vs, i, kind, s, next);
      } else {
        ShapesAdded(l, vs, n, kind, s);
      }
    }
  }

  /** The table has an entry of zero for each word of the first n records of a kind, and no
      others. */
  ghost predicate IsTable(l: Layout, vs: seq<Visit>, n: nat, kind: Kind, t: map<nat, nat>)
    requires n <= |vs|
  {
    && (forall w :: w in t ==> t[w] == 0)
    && (forall w :: w in t <==>
          exists i: nat :: i < n && KindAt(l, vs, i) == kind && IsWord(vs[i].payload, |vs[i].payload| / 4, w))
  }

  lemma TableStep(l: Layout, vs: seq<Visit>, n: nat, kind: Kind, t: map<nat, nat>, next: map<nat, nat>)
    requires n < |vs| && IsTable(l, vs, n, kind, t)
    requires next == if KindAt(l, vs, n) == kind then Indexed(t, vs[n].payload, |vs[n].payload| / 4) else t
    ensures IsTable(l, vs, n + 1, kind, next)
  {
    hide KindAt, IsWord, Indexed;
    IndexedKeys(t, vs[n].payload, |vs[n].payload| / 4);
    forall w ensures w in next <==>
      exists i: nat :: i < n + 1 && KindAt(l, vs, i) == kind && IsWord(vs[i].payload, |vs[i].payload| / 4, w)
    {
      if KindAt(l, vs, n) == kind && IsWord(vs[n].payload, |vs[n].payload| / 4, w) {
        assert w in next;
      }
    }
  }

  function Always(p: Bytes): (b: bool) {
    true
  }

  /** The top bit of the first byte. */
  function HostBit(p: Bytes): (b: bool) {
    p != [] && p[0] >= 128
  }

  /** The wait is for something. */
  function Waits(l: Layout): (f: Bytes -> bool) {
    p => l.waitType(p) != l.nullWait && l.waitType(p) != l.invalidWait
  }

  /** m is the message of the first n records. */
  ghost predicate IsMessage(l: Layout, vs: seq<Visit>, n: nat, m: Msg)
    requires l.shapeSize > 0 && n <= |vs|
  {
    && (m.unknownShape <==> UnknownAfter(l, vs, n))
    && AreShapes(l, vs, n, InputShape, m.inputShapes)
    && AreShapes(l, vs, n, OutputShape, m.outputShapes)
    && IsAny(l, vs, n, SessionInfo, Always, m.hasSessInfo)
    && IsLast(l, vs, n, SessionInfo, l.kernelId, 0, m.kernelId)
    && IsLast(l, vs, n, TopicType, HostBit, false, m.hostFlag)
    && IsLast(l, vs, n, AsyncWait, l.waitType, 0, m.waitType)
    && IsLast(l, vs, n, AsyncWait, l.waitId, 0, m.waitId)
    && IsAny(l, vs, n, AsyncWait, Waits(l), m.asyncFlag)
    && IsTable(l, vs, n, InputIndex, m.inputIndex)
    && IsTable(l, vs, n, OutputIndex, m.outputIndex)
    && IsLast(l, vs, n, WorkSpace, l.spaceSize, 0, m.workspaceSize)
    && IsLast(l, vs, n, WorkSpace, l.spaceAddr, 0, m.workspaceAddr)
  }

  lemma UnknownStep(l: Layout, vs: seq<Visit>, n: nat)
    requires n < |vs|
    ensures UnknownAfter(l, vs, n + 1) <==>
      if Decides(l, vs, n) then KindAt(l, vs, n) == ShapeType || (vs[n].payload != [] && vs[n].payload[0] % 2 == 0)
      else UnknownAfter(l, vs, n)
  {}

  /** The effect of a record on the shapes. */
  lemma ShapeEffects(l: Layout, m: Msg, at: nat, kind: Kind, p: Bytes)
    requires l.shapeSize > 0 && ParseRecord(l, m, at, kind, p).Ok?
    ensures var r, shapes := ParseRecord(l, m, at, kind, p).value, Addresses(at, l.shapeSize, |p| / l.shapeSize);
      && r.inputShapes == (if kind == InputShape && m.unknownShape then m.inputShapes + shapes else m.inputShapes)
      && r.outputShapes == (if kind == OutputShape && m.unknownShape then m.outputShapes + shapes else m.outputShapes)
  {
    hide Indexed, Addresses;
  }

  /** The effect on the tables. */
  lemma InputTableEffect(l: Layout, m: Msg, at: nat, kind: Kind, p: Bytes)
    requires l.shapeSize > 0 && ParseRecord(l, m, at, kind, p).Ok?
    ensures ParseRecord(l, m, at, kind, p).value.inputIndex ==
      if kind == InputIndex then Indexed(m.inputIndex, p, |p| / 4) else m.inputIndex
  {
    hide Indexed, Addresses;
  }

  lemma OutputTableEffect(l: Layout, m: Msg, at: nat, kind: Kind, p: Bytes)
    requires l.shapeSize > 0 && ParseRecord(l, m, at, kind, p).Ok?
    ensures ParseRecord(l, m, at, kind, p).value.outputIndex ==
      if kind == OutputIndex then Indexed(m.outputIndex, p, |p| / 4) else m.outputIndex
  {
    hide Indexed, Addresses;
  }

  /** The effect on the fields that hold one value. */
  lemma FieldEffects(l: Layout, m: Msg, at: nat, kind: Kind, p: Bytes)
    requires l.shapeSize > 0 && ParseRecord(l, m, at, kind, p).Ok?
    ensures var r := ParseRecord(l, m, at, kind, p).value;
      && r.hasSessInfo == (m.hasSessInfo || (kind == SessionInfo && Always(p)))
      && r.kernelId == (if kind == SessionInfo then l.kernelId(p) else m.kernelId)
      && r.hostFlag == (if kind == TopicType then HostBit(p) else m.hostFlag)
      && r.workspaceSize == (if kind == WorkSpace then l.spaceSize(p) else m.workspaceSize)
      && r.workspaceAddr == (if kind == WorkSpace then l.spaceAddr(p) else m.workspaceAddr)
  {
    hide Indexed, Addresses;
  }

  lemma WaitEffects(l: Layout, m: Msg, at: nat, kind: Kind, p: Bytes)
    requires l.shapeSize > 0 && ParseRecord(l, m, at, kind, p).Ok?
    ensures var r := ParseRecord(l, m, at, kind, p).value;
      && r.waitType == (if kind == AsyncWait then l.waitType(p) else m.waitType)
      && r.waitId == (if kind == AsyncWait then l.waitId(p) else m.waitId)
      && r.asyncFlag == (m.asyncFlag || (kind == AsyncWait && Waits(l)(p)))
  {
    hide Indexed, Addresses;
  }

  lemma UnknownEffect(l: Layout, vs: seq<Visit>, n: nat, m: Msg)
    requires l.shapeSize > 0 && n < |vs| && (m.unknownShape <==> UnknownAfter(l, vs, n))
    ensures var r := ParseRecord(l, m, vs[n].at, KindAt(l, vs, n), vs[n].payload);
      && (r.Err? <==> BadAt(l, vs, n))
      && (r.Ok? ==> (r.value.unknownShape <==> UnknownAfter(l, vs, n + 1)))
  {
    hide UnknownAfter, Addresses, Indexed;
    UnknownStep(l, vs, n);
  }

  lemma MessageStep(l: Layout, vs: seq<Visit>, n: nat, m: Msg)
    requires l.shapeSize > 0 && n < |vs| && IsMessage(l, vs, n, m)
    ensures var r := ParseRecord(l, m, vs[n].at, KindAt(l, vs, n), vs[n].payload);
      && (r.Err? <==> BadAt(l, vs, n))
      && (r.Ok? ==> IsMessage(l, vs, n + 1, r.value))
  {
    hide UnknownAfter, AreShapes, IsAny, IsLast, IsTable, Addresses, Indexed, ParseRecord, BadAt, KindAt, Always,
      HostBit;
    var r := ParseRecord(l, m, vs[n].at, KindAt(l, vs, n), vs[n].payload);
    UnknownEffect(l, vs, n, m);
    if r.Ok? {
      var next := r.value;
      ShapeEffects(l, m, vs[n].at, KindAt(l, vs, n), vs[n].payload);
      InputTableEffect(l, m, vs[n].at, KindAt(l, vs, n), vs[n].payload);
      OutputTableEffect(l, m, vs[n].at, KindAt(l, vs, n), vs[n].payload);
      FieldEffects(l, m, vs[n].at, KindAt(l, vs, n), vs[n].payload);
      WaitEffects(l, m, vs[n].at, KindAt(l, vs, n), vs[n].payload);
      ShapesStep(l, vs, n, InputShape, m.inputShapes, next.inputShapes);
      ShapesStep(l, vs, n, OutputShape, m.outputShapes, next.outputShapes);
      TableStep(l, vs, n, InputIndex, m.inputIndex, next.inputIndex);
      TableStep(l, vs, n, OutputIndex, m.outputIndex, next.outputIndex);
      AnyStep(l, vs, n, SessionInfo, Always, m.hasSessInfo, next.hasSessInfo);
      AnyStep(l, vs, n, AsyncWait, Waits(l), m.asyncFlag, next.asyncFlag);
      LastStep(l, vs, n, SessionInfo, l.kernelId, 0, m.kernelId, next.kernelId);
      LastStep(l, vs, n, TopicType, HostBit, false, m.hostFlag, next.hostFlag);
      LastStep(l, vs, n, AsyncWait, l.waitType, 0, m.waitType, next.waitType);
      LastStep(l, vs, n, AsyncWait, l.waitId, 0, m.waitId, next.waitId);
      LastStep(l, vs, n, WorkSpace, l.spaceSize, 0, m.workspaceSize, next.workspaceSize);
      LastStep(l, vs, n, WorkSpace, l.spaceAddr, 0, m.workspaceAddr, next.workspaceAddr);
    }
  }

  /** The fold fails exactly if a record has a bad length, and otherwise yields the message
      of the records. */
  lemma {:induction false} FoldMeaning(l: Layout, vs: seq<Visit>, n: nat)
    requires l.shapeSize > 0 && n <= |vs|
    ensures Fold(l, vs[..n]).Err? <==> AnyBad(l, vs, n)
    ensures Fold(l, vs[..n]).Ok? ==> IsMessage(l, vs, n, Fold(l, vs[..n]).value)
  {
    hide IsMessage, BadAt, ParseRecord;
    if n == 0 {
      EmptyMessage(l, vs);
    } else {
      FoldMeaning(l, vs, n - 1);
      assert vs[..n] == vs[..n - 1] + [vs[n - 1]];
      FoldSnoc(l, vs[..n - 1], vs[n - 1]);
      if Fold(l, vs[..n - 1]).Ok? {
        MessageStep(l, vs, n - 1, Fold(l, vs[..n - 1]).value);
      }
    }
  }

  lemma EmptyMessage(l: Layout, vs: seq<Visit>)
    requires l.shapeSize > 0
    ensures IsMessage(l, vs, 0, EMPTY)
  {}

  /** The first session record met, or none; an error if it has the wrong length. */
  function FindSession(l: Layout, vs: seq<Visit>): (r: Result<Option<nat>>)
    ensures r.Ok? && r.value.Some? ==> r.value.value < |vs|
  {
    if vs == [] then Ok(None) else
      var n := |vs| - 1;
      var before := FindSession(l, vs[..n]);
      if before != Ok(None) then before
      else if l.kind(vs[n].code) != SessionInfo then Ok(None)
      else if |vs[n].payload| != l.sessionSize then Err
      else Ok(Some(n))
  }

  lemma FindSnoc(l: Layout, vs: seq<Visit>, v: Visit)
    ensures FindSession(l, vs + [v]) ==
      if FindSession(l, vs) != Ok(None) then FindSession(l, vs)
      else if l.kind(v.code) != SessionInfo then Ok(None)
      else if |v.payload| != l.sessionSize then Err
      else Ok(Some(|vs|))
  {
    assert (vs + [v])[..|vs|] == vs;
  }

  ghost predicate NoSession(l: Layout, vs: seq<Visit>, n: nat)
    requires n <= |vs|
  {
    forall i: nat :: i < n ==> KindAt(l, vs, i) != SessionInfo
  }

  /** Record k is the first session record. */
  ghost predicate FirstSession(l: Layout, vs: seq<Visit>, k: nat)
    requires k < |vs|
  {
    KindAt(l, vs, k) == SessionInfo && NoSession(l, vs, k)
  }

  /** What the search finds is the first session record; it fails exactly if that one has
      the wrong length. */
  lemma {:induction false} FindMeaning(l: Layout, vs: seq<Visit>, n: nat)
    requires n <= |vs|
    ensures FindSession(l, vs[..n]) == Ok(None) <==> NoSession(l, vs, n)
    ensures forall k: nat :: k < n && FirstSession(l, vs, k) ==>
      FindSession(l, vs[..n]) == if |vs[k].payload| == l.sessionSize then Ok(Some(k)) else Err
  {
    hide FindSession;
    if n == 0 {
      NoSessionYet(l);
      assert vs[..0] == [];
    } else {
      FindMeaning(l, vs, n - 1);
      assert vs[..n] == vs[..n - 1] + [vs[n - 1]];
      FindSnoc(l, vs[..n - 1], vs[n - 1]);
      assert KindAt(l, vs, n - 1) == l.kind(vs[n - 1].code);
    }
  }

  /** r is none without a session record, and otherwise the address of the first one, or an
      error if that one has the wrong length. */
  ghost predicate YieldsSession(l: Layout, vs: seq<Visit>, r: Result<Option<nat>>) {
    && (r == Ok(None) <==> NoSession(l, vs, |vs|))
    && forall k: nat :: k < |vs| && FirstSession(l, vs, k) ==>
         r == if |vs[k].payload| == l.sessionSize then Ok(Some(vs[k].at)) else Err
  }

  lemma SearchMeaning(l: Layout, vs: seq<Visit>)
    ensures YieldsSession(l, vs, match FindSession(l, vs)
                                 case Err => Err
                                 case Ok(None) => Ok(None)
                                 case Ok(Some(k)) => Ok(Some(vs[k].at)))
  {
    hide FindSession, NoSession, FirstSession;
    FindMeaning(l, vs, |vs|);
    assert vs[..|vs|] == vs;
  }

  /** Whenever the message walk succeeds, the session walk succeeds too, and it finds a
      session exactly when the message says there is one. */
  lemma {:induction false} WalksAgree(l: Layout, vs: seq<Visit>)
    requires l.shapeSize > 0 && Fold(l, vs).Ok?
    ensures FindSession(l, vs).Ok?
    ensures FindSession(l, vs).value.Some? <==> Fold(l, vs).value.hasSessInfo
    decreases |vs|
  {
    if vs != [] {
      WalksAgree(l, vs[..|vs| - 1]);
    }
  }

  // ----- the walk over any memory -----

  /** The bytes from the start of the buffer on; the buffer is the first length of them,
      and nothing stops a record from reaching beyond. */
  type Memory = nat -> Byte

  function Slice(m: Memory, o: nat, n: nat): (b: Bytes)
    ensures |b| == n && forall i :: 0 <= i < n ==> b[i] == m(o + i)
  {
    seq(n, i requires 0 <= i => m(o + i))
  }

  function WordAt(m: Memory, o: nat): (n: nat)
    ensures n < WORD
  {
    WordOf(Slice(m, o, 4), 0)
  }

  /** The 32-bit offset of the record behind the one at o. */
  function NextOffset(o: nat, len: nat): (n: nat)
    ensures n < WORD
  {
    ((o + HEAD) % WORD + len) % WORD
  }

  /** The two 32-bit additions at the end of a round. */
  method Advance(offset: nat, len: nat) returns (next: nat)
    ensures next == NextOffset(offset, len)
  {
    next := (offset + HEAD) % WORD;
    next := (next + len) % WORD;
  }

  function VisitAt(m: Memory, o: nat): (v: Visit) {
    Visit(o + HEAD, WordAt(m, o), Slice(m, o + HEAD, WordAt(m, o + 4)))
  }

  /** One round from offset o, if there is room for a header. */
  function Round(m: Memory, length: nat, o: nat): (r: Option<nat>)
    ensures r.Some? <==> o + HEAD <= length
  {
    if o + HEAD <= length then Some(NextOffset(o, WordAt(m, o + 4))) else None
  }

  /** The offset after k rounds of the walk; none if it has ended before. */
  function OffsetAfter(m: Memory, length: nat, k: nat): (o: Option<nat>) {
    if k == 0 then Some(0) else
      match OffsetAfter(m, length, k - 1)
      case None => None
      case Some(o) => Round(m, length, o)
  }

  /** The walk ends after exactly n rounds. */
  predicate EndsAfter(m: Memory, length: nat, n: nat) {
    OffsetAfter(m, length, n).Some? && OffsetAfter(m, length, n).value + HEAD > length
  }

  /** The records met in n rounds. */
  function Visited(m: Memory, length: nat, n: nat): (vs: seq<Visit>)
    requires OffsetAfter(m, length, n).Some?
    ensures |vs| == n
  {
    if n == 0 then [] else Visited(m, length, n - 1) + [VisitAt(m, OffsetAfter(m, length, n - 1).value)]
  }

  lemma {:induction false} RunsUpTo(m: Memory, length: nat, k: nat, n: nat)
    requires k <= n && OffsetAfter(m, length, n).Some?
    ensures OffsetAfter(m, length, k).Some?
    ensures k < n ==> OffsetAfter(m, length, k).value + HEAD <= length
    decreases n - k
  {
    hide Round, WordAt, VisitAt;
    if k < n {
      RunsUpTo(m, length, k + 1, n);
    }
  }

  lemma NextRound(m: Memory, length: nat, i: nat)
    requires OffsetAfter(m, length, i).Some? && OffsetAfter(m, length, i).value + HEAD <= length
    ensures var o := OffsetAfter(m, length, i).value;
      OffsetAfter(m, length, i + 1) == Some(NextOffset(o, WordAt(m, o + 4)))
  {}

  // ----- when the walk ends -----

  /** A record keeps the walk in place exactly when its length undoes the header. */
  lemma StallsIff(o: nat, len: nat)
    requires o < WORD && len < WORD
    ensures NextOffset(o, len) == o <==> len == WORD - HEAD
  {}

  /** It moves behind the payload, up to the wrap-around of 32 bits. */
  lemma AdvancesIff(o: nat, len: nat)
    requires o < WORD && len < WORD
    ensures NextOffset(o, len) == o + HEAD + len <==> o + HEAD + len < WORD
    ensures NextOffset(o, len) == (o + HEAD + len) % WORD
  {}

  /** The same offset twice: from there on the walk repeats itself. */
  lemma {:induction false} RepeatsForever(m: Memory, length: nat, i: nat, j: nat, t: nat)
    requires OffsetAfter(m, length, i) == OffsetAfter(m, length, j)
    ensures OffsetAfter(m, length, i + t) == OffsetAfter(m, length, j + t)
  {
    hide Round, WordAt, VisitAt;
    if t > 0 {
      RepeatsForever(m, length, i, j, t - 1);
    }
  }

  /** Two rounds of the walk start at the same offset. */
  ghost predicate Repeats(m: Memory, length: nat, i: nat, j: nat) {
    i < j && OffsetAfter(m, length, i).Some? && OffsetAfter(m, length, i) == OffsetAfter(m, length, j)
  }

  lemma RepeatNeverEnds(m: Memory, length: nat, i: nat, j: nat, n: nat)
    requires Repeats(m, length, i, j)
    ensures !EndsAfter(m, length, n)
  {
    hide Round, WordAt, VisitAt;
    if EndsAfter(m, length, n) {
      if j <= n {
        RepeatsForever(m, length, i, j, n - j);
        RunsUpTo(m, length, i + (n - j), n);
      } else {
        RunsUpTo(m, length, n, j);
      }
    }
  }

  ghost function Offsets(m: Memory, length: nat, k: nat): (s: set<int>) {
    set i | 0 <= i < k && OffsetAfter(m, length, i).Some? :: OffsetAfter(m, length, i).value
  }

  lemma {:induction false} DistinctOffsets(m: Memory, length: nat, k: nat)
    requires OffsetAfter(m, length, k).Some? && forall i, j :: !Repeats(m, length, i, j)
    ensures |Offsets(m, length, k)| == k
    ensures forall o :: o in Offsets(m, length, k) ==> 0 <= o < length
  {
    hide Round, WordAt, VisitAt;
    if k > 0 {
      RunsUpTo(m, length, k - 1, k);
      DistinctOffsets(m, length, k - 1);
      var o := OffsetAfter(m, length, k - 1).value;
      assert Offsets(m, length, k) == Offsets(m, length, k - 1) + {o};
      forall i | 0 <= i < k - 1 && OffsetAfter(m, length, i).Some? ensures OffsetAfter(m, length, i).value != o {
        assert !Repeats(m, length, i, k - 1);
      }
    }
  }

  lemma {:induction false} BelowSize(s: set<int>, n: nat)
    requires forall o :: o in s ==> 0 <= o < n
    ensures |s| <= n
  {
    if n == 0 {
      assert forall o :: o !in s;
      assert s == {};
    } else {
      BelowSize(s - {n - 1}, n - 1);
    }
  }

  /** Without a repeat the walk is over after at most one round per byte. */
  lemma {:induction false} EndsWithin(m: Memory, length: nat, k: nat) returns (n: nat)
    requires OffsetAfter(m, length, k).Some? && forall i, j :: !Repeats(m, length, i, j)
    ensures n <= length && EndsAfter(m, length, n)
    decreases length + 1 - k
  {
    hide Round, WordAt, VisitAt;
    DistinctOffsets(m, length, k);
    BelowSize(Offsets(m, length, k), length);
    if OffsetAfter(m, length, k).value + HEAD > length {
      n := k;
    } else {
      assert OffsetAfter(m, length, k + 1).Some?;
      n := EndsWithin(m, length, k + 1);
    }
  }

  /** On any memory the walk ends exactly when it ends within one round per byte of the
      buffer, which is exactly when it never comes back to an offset. */
  lemma WalkEndsIff(m: Memory, length: nat)
    ensures (exists n :: EndsAfter(m, length, n)) <==> (exists n :: 0 <= n <= length && EndsAfter(m, length, n))
    ensures (exists n :: EndsAfter(m, length, n)) <==> forall i, j :: !Repeats(m, length, i, j)
  {
    hide Round, WordAt, VisitAt;
    if forall i, j :: !Repeats(m, length, i, j) {
      var n := EndsWithin(m, length, 0);
    } else {
      var i, j :| Repeats(m, length, i, j);
      forall n ensures !EndsAfter(m, length, n) {
        RepeatNeverEnds(m, length, i, j, n);
      }
    }
  }

  /** No header met reaches past the 32-bit range. */
  ghost predicate NoWrap(m: Memory, length: nat) {
    forall k: nat :: OffsetAfter(m, length, k).Some? ==> StaysInRange(m, length, OffsetAfter(m, length, k).value)
  }

  predicate StaysInRange(m: Memory, length: nat, o: nat) {
    o + HEAD <= length ==> o + HEAD + WordAt(m, o + 4) < WORD
  }

  lemma {:induction false} Ascends(m: Memory, length: nat, i: nat, j: nat)
    requires NoWrap(m, length) && i < j && OffsetAfter(m, length, j).Some?
    ensures OffsetAfter(m, length, i).Some? && OffsetAfter(m, length, i).value < OffsetAfter(m, length, j).value
    decreases j
  {
    RunsUpTo(m, length, j - 1, j);
    var o := OffsetAfter(m, length, j - 1).value;
    assert StaysInRange(m, length, o);
    AdvancesIff(o, WordAt(m, o + 4));
    if i < j - 1 {
      Ascends(m, length, i, j - 1);
    }
  }

  /** On every buffer whose headers stay in range, the walk ends. */
  lemma EndsIfNoWrap(m: Memory, length: nat)
    requires NoWrap(m, length)
    ensures exists n :: EndsAfter(m, length, n)
  {
    forall i: nat, j: nat ensures !Repeats(m, length, i, j) {
      if Repeats(m, length, i, j) {
        Ascends(m, length, i, j);
      }
    }
    WalkEndsIff(m, length);
  }

  /** Eight bytes: a type code of zero and the length 0xFFFFFFF8, then zeros. */
  function StallingMemory(i: nat): (b: Byte) {
    if i == 4 then 0xF8 else if 5 <= i <= 7 then 0xFF else 0
  }

  /** On that buffer no number of rounds ends the walk. */
  lemma {:induction false} StallingExample(k: nat)
    ensures OffsetAfter(StallingMemory, 8, k) == Some(0) && !EndsAfter(StallingMemory, 8, k)
  {
    if k > 0 {
      StallingExample(k - 1);
      StallingWord();
      StallsIff(0, WORD - HEAD);
    }
  }

  lemma StallingWord()
    ensures WordAt(StallingMemory, 4) == WORD - HEAD
  {
    var b := Slice(StallingMemory, 4, 4);
    assert b[0] == 0xF8 && b[1] == 0xFF && b[2] == 0xFF && b[3] == 0xFF;
  }

  // ----- the two walks -----

  /** The message walk returns after n rounds: it has ended, or a record was bad. */
  predicate MessageReturns(l: Layout, m: Memory, length: nat, n: nat)
    requires l.shapeSize > 0
  {
    OffsetAfter(m, length, n).Some? && (EndsAfter(m, length, n) || Fold(l, Visited(m, length, n)).Err?)
  }

  /** Collects the launch message: the left fold of the records met. */
  method ParseExtMsg(l: Layout, m: Memory, length: nat, ghost n: nat) returns (r: Result<Msg>)
    requires l.shapeSize > 0 && length < WORD && MessageReturns(l, m, length, n)
    ensures r == Fold(l, Visited(m, length, n))
    ensures r.Err? <==> AnyBad(l, Visited(m, length, n), n)
    ensures r.Ok? ==> IsMessage(l, Visited(m, length, n), n, r.value)
  {
    hide ParseRecord, VisitAt, Fold, WordAt, Slice, NextOffset, Round, AnyBad, IsMessage;
    FoldMeaning(l, Visited(m, length, n), n);
    assert Visited(m, length, n)[..n] == Visited(m, length, n);
    var msg := EMPTY;
    var offset := 0;
    ghost var i := 0;
    EmptyFold(l);
    while offset + HEAD <= length
      invariant 0 <= i <= n && OffsetAfter(m, length, i) == Some(offset)
      invariant Fold(l, Visited(m, length, i)) == Ok(msg)
      decreases n - i
    {
      assert i < n;
      var code, len := WordAt(m, offset), WordAt(m, offset + 4);
      var parsed := ParseRecord(l, msg, offset + HEAD, l.kind(code), Slice(m, offset + HEAD, len));
      NextRound(m, length, i);
      FoldVisit(l, m, length, i);
      if parsed.Err? {
        FoldErrStays(l, m, length, i + 1, n);
        return Err;
      }
      msg := parsed.value;
      offset := Advance(offset, len);
      i := i + 1;
    }
    if i < n {
      RunsUpTo(m, length, i, n);
    }
    return Ok(msg);
  }

  lemma EmptyFold(l: Layout)
    requires l.shapeSize > 0
    ensures Fold(l, []) == Ok(EMPTY)
  {}

  /** One more round of the fold. */
  lemma FoldVisit(l: Layout, m: Memory, length: nat, i: nat)
    requires l.shapeSize > 0 && OffsetAfter(m, length, i).Some? && OffsetAfter(m, length, i + 1).Some?
    ensures var o := OffsetAfter(m, length, i).value;
      Fold(l, Visited(m, length, i + 1)) ==
        match Fold(l, Visited(m, length, i)) case Err => Err
        case Ok(msg) => ParseRecord(l, msg, o + HEAD, l.kind(WordAt(m, o)), Slice(m, o + HEAD, WordAt(m, o + 4)))
  {
    hide Round, WordAt, Slice, Fold, ParseRecord;
    FoldSnoc(l, Visited(m, length, i), VisitAt(m, OffsetAfter(m, length, i).value));
  }

  lemma {:induction false} FoldErrStays(l: Layout, m: Memory, length: nat, i: nat, n: nat)
    requires l.shapeSize > 0 && i <= n && OffsetAfter(m, length, i).Some? && OffsetAfter(m, length, n).Some?
    requires Fold(l, Visited(m, length, i)).Err?
    ensures Fold(l, Visited(m, length, n)).Err?
  {
    hide Round, WordAt, VisitAt, Fold, ParseRecord;
    if i < n {
      RunsUpTo(m, length, n - 1, n);
      FoldErrStays(l, m, length, i, n - 1);
      FoldVisit(l, m, length, n - 1);
    }
  }

  /** The session walk returns after n rounds: it has ended, or met a session record. */
  predicate SessionReturns(l: Layout, m: Memory, length: nat, n: nat) {
    OffsetAfter(m, length, n).Some? && (EndsAfter(m, length, n) || FindSession(l, Visited(m, length, n)) != Ok(None))
  }

  /** The second walk: stops at the first session record and yields its address. */
  method ParseExtSessionInfo(l: Layout, m: Memory, length: nat, ghost n: nat) returns (r: Result<Option<nat>>)
    requires length < WORD && SessionReturns(l, m, length, n)
    ensures r == match FindSession(l, Visited(m, length, n))
                 case Err => Err
                 case Ok(None) => Ok(None)
                 case Ok(Some(k)) => Ok(Some(Visited(m, length, n)[k].at))
    ensures YieldsSession(l, Visited(m, length, n), r)
  {
    hide VisitAt, FindSession, WordAt, Slice, NextOffset, Round, YieldsSession;
    SearchMeaning(l, Visited(m, length, n));
    var offset := 0;
    ghost var i := 0;
    NoSessionYet(l);
    while offset + HEAD <= length
      invariant 0 <= i <= n && OffsetAfter(m, length, i) == Some(offset)
      invariant FindSession(l, Visited(m, length, i)) == Ok(None)
      decreases n - i
    {
      assert i < n;
      var code, len := WordAt(m, offset), WordAt(m, offset + 4);
      NextRound(m, length, i);
      SearchRound(l, m, length, i, n);
      if l.kind(code) == SessionInfo {
        if len != l.sessionSize {
          return Err;
        }
        return Ok(Some(offset + HEAD));
      }
      offset := Advance(offset, len);
      i := i + 1;
    }
    if i < n {
      RunsUpTo(m, length, i, n);
    }
    return Ok(None);
  }

  lemma NoSessionYet(l: Layout)
    ensures FindSession(l, []) == Ok(None)
  {}

  /** One more round of the search. */
  lemma FindVisit(l: Layout, m: Memory, length: nat, i: nat)
    requires OffsetAfter(m, length, i).Some? && OffsetAfter(m, length, i + 1).Some?
    requires FindSession(l, Visited(m, length, i)) == Ok(None)
    ensures var o := OffsetAfter(m, length, i).value;
      && Visited(m, length, i + 1)[i].at == o + HEAD
      && FindSession(l, Visited(m, length, i + 1)) ==
           if l.kind(WordAt(m, o)) != SessionInfo then Ok(None)
           else if WordAt(m, o + 4) != l.sessionSize then Err
           else Ok(Some(i))
  {
    hide Round, WordAt, Slice, FindSession;
    FindSnoc(l, Visited(m, length, i), VisitAt(m, OffsetAfter(m, length, i).value));
  }

  /** What a round of the search means for the result. */
  lemma SearchRound(l: Layout, m: Memory, length: nat, i: nat, n: nat)
    requires i < n && OffsetAfter(m, length, i).Some? && OffsetAfter(m, length, i + 1).Some?
    requires OffsetAfter(m, length, n).Some? && FindSession(l, Visited(m, length, i)) == Ok(None)
    ensures var o := OffsetAfter(m, length, i).value;
      if l.kind(WordAt(m, o)) != SessionInfo then FindSession(l, Visited(m, length, i + 1)) == Ok(None)
      else if WordAt(m, o + 4) != l.sessionSize then FindSession(l, Visited(m, length, n)) == Err
      else FindSession(l, Visited(m, length, n)) == Ok(Some(i)) && Visited(m, length, n)[i].at == o + HEAD
  {
    hide Round, WordAt, VisitAt, FindSession;
    FindVisit(l, m, length, i);
    if FindSession(l, Visited(m, length, i + 1)) != Ok(None) {
      FoundStays(l, m, length, i + 1, n);
    }
  }

  /** Later rounds do not change what was found, nor the records met before. */
  lemma {:induction false} FoundStays(l: Layout, m: Memory, length: nat, i: nat, n: nat)
    requires i <= n && OffsetAfter(m, length, i).Some? && OffsetAfter(m, length, n).Some?
    requires FindSession(l, Visited(m, length, i)) != Ok(None)
    ensures FindSession(l, Visited(m, length, n)) == FindSession(l, Visited(m, length, i))
    ensures Visited(m, length, i) <= Visited(m, length, n)
  {
    hide Round, WordAt, VisitAt, FindSession;
    if i < n {
      RunsUpTo(m, length, n - 1, n);
      FoundStays(l, m, length, i, n - 1);
      FindSnoc(l, Visited(m, length, n - 1), VisitAt(m, OffsetAfter(m, length, n - 1).value));
    }
  }

  // ----- buffers of well-formed records -----

  /** The buffer is the records one behind the other, and then too few bytes for another
      header; its length is a 32-bit number. */
  ghost predicate WellFormed(m: Memory, length: nat, rs: seq<Record>) {
    && Slice(m, 0, |Concat(rs)|) == Concat(rs) && |Concat(rs)| <= length < |Concat(rs)| + HEAD && length < WORD
    && forall i :: 0 <= i < |rs| ==> Fits(rs[i])
  }

  /** Record i as the walk must meet it. */
  function RecordVisit(rs: seq<Record>, i: nat): (v: Visit)
    requires i < |rs|
  {
    Visit(|Concat(rs[..i])| + HEAD, rs[i].code, rs[i].payload)
  }

  /** At the boundary of record i the walk meets that record and steps to the next one. */
  lemma StepsToBoundary(m: Memory, length: nat, rs: seq<Record>, i: nat)
    requires WellFormed(m, length, rs) && i < |rs|
    ensures var o := |Concat(rs[..i])|;
      && o + HEAD <= length && VisitAt(m, o) == RecordVisit(rs, i)
      && NextOffset(o, WordAt(m, o + 4)) == |Concat(rs[..i + 1])|
  {
    hide Concat, WordOf;
    assert Fits(rs[i]);
    RecordAt(rs, i);
    var o, n, b := |Concat(rs[..i])|, |rs[i].payload|, Concat(rs);
    WordInSlice(m, b, o);
    WordInSlice(m, b, o + 4);
    assert Slice(m, o + HEAD, n) == b[o + HEAD..o + HEAD + n];
    AdvancesIff(o, n);
  }

  lemma WordInSlice(m: Memory, b: Bytes, o: nat)
    requires Slice(m, 0, |b|) == b && o + 4 <= |b|
    ensures WordAt(m, o) == WordOf(b, o)
  {
    var s := Slice(m, o, 4);
    assert forall i :: 0 <= i < 4 ==> s[i] == b[o + i];
  }

  /** On a buffer of well-formed records the walk stops on exactly the record boundaries,
      meets exactly the records in order, and ends behind the last one. */
  lemma {:induction false} MeetsTheRecords(m: Memory, length: nat, rs: seq<Record>, k: nat)
    requires WellFormed(m, length, rs) && k <= |rs|
    ensures OffsetAfter(m, length, k) == Some(|Concat(rs[..k])|)
    ensures forall i :: 0 <= i < k ==> Visited(m, length, k)[i] == RecordVisit(rs, i)
    ensures k == |rs| ==> EndsAfter(m, length, k)
  {
    hide Concat, VisitAt;
    if k == 0 {
      assert rs[..0] == [];
      EmptyConcat();
    } else {
      MeetsTheRecords(m, length, rs, k - 1);
      StepsToBoundary(m, length, rs, k - 1);
    }
    assert k == |rs| ==> rs[..k] == rs;
  }

  lemma EmptyConcat()
    ensures Concat([]) == []
  {}
}
