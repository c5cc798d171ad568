/** Kernel caches per session, bounded in number, and per stream, unbounded. */
module SessionCache {
  import opened CachePolicy
  import opened Wrappers

  const SESSION_CACHE_NUM: nat := 256

  /** How the creation of a kernel cache ends. */
  datatype Outcome = NoMemory | InitReturns(code: int)

  const CREATED := InitReturns(0)

  datatype Call = Session(id: nat, outcome: Outcome) | Stream(id: nat, outcome: Outcome)

  /** ids lists session ids newest first; a kernel cache is named by the number
      of its creation attempt. */
  datatype State = State(ids: seq<nat>, sessions: map<nat, nat>, streams: map<nat, nat>, attempts: nat)

  const EMPTY := State([], map[], map[], 0)

  predicate Creates(s: State, c: Call) {
    c.id !in if c.Session? then s.sessions else s.streams
  }

  function Step(s: State, c: Call): (r: State) {
    if !Creates(s, c) then s
    else if c.Stream? then
      s.(streams := if c.outcome == CREATED then s.streams[c.id := s.attempts] else s.streams,
         attempts := s.attempts + 1)
    else
      var full := |s.ids| > SESSION_CACHE_NUM;
      var ids := [c.id] + if full then s.ids[..|s.ids| - 1] else s.ids;
      var kept := if full then s.sessions - {s.ids[|s.ids| - 1]} else s.sessions;
      s.(ids := ids,
         sessions := if c.outcome == CREATED then kept[c.id := s.attempts] else kept,
         attempts := s.attempts + 1)
  }

  function Run(calls: seq<Call>): (s: State) {
    if calls == [] then EMPTY else Step(Run(calls[..|calls| - 1]), calls[|calls| - 1])
  }

  predicate NoRepeat(ids: seq<nat>) {
    forall i, j :: 0 <= i < j < |ids| ==> ids[i] != ids[j]
  }

  /** The id list and the session map describe the same sessions. */
  ghost predicate Consistent(s: State) {
    NoRepeat(s.ids) && forall k :: k in s.ids <==> k in s.sessions
  }

  /** From a consistent state a call keeps consistency exactly unless it is a
      session creation that fails: that call leaves an id without a cache. */
  lemma ConsistentIffCreated(s: State, c: Call)
    requires Consistent(s)
    ensures Consistent(Step(s, c)) <==> !(c.Session? && Creates(s, c) && c.outcome != CREATED)
  {
    if c.Session? && Creates(s, c) {
      var r := Step(s, c);
      var n := |s.ids| - 1;
      assert r.ids[0] == c.id && c.id !in s.sessions;
      assert forall i :: 0 < i < |r.ids| ==> r.ids[i] == s.ids[i - 1];
      if c.outcome == CREATED {
        forall k | k in r.sessions ensures k in r.ids {
          if k != c.id {
            assert k in s.ids;
            var i :| 0 <= i < |s.ids| && s.ids[i] == k;
            assert r.ids[i + 1] == k;
          }
        }
        forall k | k in r.ids ensures k in r.sessions {
          var i :| 0 <= i < |r.ids| && r.ids[i] == k;
          if i > 0 {
            assert s.ids[i - 1] in s.ids;
          }
        }
      } else {
        assert c.id in r.ids && c.id !in r.sessions;
      }
    }
  }

  /** A session creation that fails leaves an id without a cache. */
  lemma FailedCreationExample()
    ensures Consistent(Run([])) && !Consistent(Run([Session(7, NoMemory)]))
  {
    var calls := [Session(7, NoMemory)];
    assert calls[..0] == [];
    ConsistentIffCreated(EMPTY, calls[0]);
  }

  // ----- the two sides -----

  /** The session calls of a run, or its stream calls. */
  function Only(calls: seq<Call>, session: bool): (r: seq<Call>) {
    if calls == [] then [] else
      var n := |calls| - 1;
      Only(calls[..n], session) + if calls[n].Session? == session then [calls[n]] else []
  }

  lemma RunSnoc(calls: seq<Call>, c: Call)
    ensures Run(calls + [c]) == Step(Run(calls), c)
  {
    assert (calls + [c])[..|calls|] == calls;
  }

  /** States that agree on one side still do after a call on that side, and a call on the
      other side changes nothing on this one. */
  lemma SideStep(s: State, t: State, c: Call)
    ensures c.Stream? ==> Step(s, c).ids == s.ids && Step(s, c).sessions == s.sessions
    ensures c.Session? ==> Step(s, c).streams == s.streams
    ensures c.Session? && s.ids == t.ids && s.sessions.Keys == t.sessions.Keys ==>
      Step(s, c).ids == Step(t, c).ids && Step(s, c).sessions.Keys == Step(t, c).sessions.Keys
    ensures c.Stream? && s.streams.Keys == t.streams.Keys ==> Step(s, c).streams.Keys == Step(t, c).streams.Keys
  {}

  /** Over every run, what the registry holds for sessions does not depend on the stream
      calls in between, nor what it holds for streams on the session calls. */
  lemma {:induction false} SidesIndependent(calls: seq<Call>)
    ensures Run(calls).ids == Run(Only(calls, true)).ids
    ensures Run(calls).sessions.Keys == Run(Only(calls, true)).sessions.Keys
    ensures Run(calls).streams.Keys == Run(Only(calls, false)).streams.Keys
    decreases |calls|
  {
    hide Step;
    if calls != [] {
      var n := |calls| - 1;
      var c, a, b := calls[n], Only(calls[..n], true), Only(calls[..n], false);
      SidesIndependent(calls[..n]);
      SideStep(Run(calls[..n]), Run(a), c);
      SideStep(Run(calls[..n]), Run(b), c);
      RunSnoc(a, c);
      RunSnoc(b, c);
      assert a + [] == a && b + [] == b;
    }
  }

  // ----- residency -----

  /** The session ids for which a cache creation was attempted, oldest first. */
  function Attempted(calls: seq<Call>): (t: seq<nat>) {
    if calls == [] then [] else
      var n := |calls| - 1;
      var before := Attempted(calls[..n]);
      if calls[n].Session? && Creates(Run(calls[..n]), calls[n]) then before + [calls[n].id] else before
  }

  /** Call i of the run is a session creation that fails. */
  predicate FailsAt(calls: seq<Call>, i: nat)
    requires i < |calls|
  {
    calls[i].Session? && Creates(Run(calls[..i]), calls[i]) && calls[i].outcome != CREATED
  }

  predicate NoSessionFails(calls: seq<Call>) {
    forall i :: 0 <= i < |calls| ==> !FailsAt(calls, i)
  }

  /** A session creation puts its id in front of the newest 256. */
  lemma IdsStep(s: State, c: Call)
    requires |s.ids| <= SESSION_CACHE_NUM + 1
    ensures Step(s, c).ids == if c.Session? && Creates(s, c) then [c.id] + Take(s.ids, SESSION_CACHE_NUM) else s.ids
  {}

  /** In every run, failures included, the id list is the newest 257 attempts. */
  lemma {:induction false} IdsAreNewest(calls: seq<Call>)
    ensures Run(calls).ids == Take(Backwards(Attempted(calls)), SESSION_CACHE_NUM + 1)
    decreases |calls|
  {
    hide Step, Creates, Backwards;
    if calls != [] {
      var n := |calls| - 1;
      IdsAreNewest(calls[..n]);
      var s, t := Run(calls[..n]), Attempted(calls[..n]);
      IdsStep(s, calls[n]);
      NewestInsert(SESSION_CACHE_NUM, t, calls[n].id);
      assert Take(s.ids, SESSION_CACHE_NUM) == Take(Backwards(t), SESSION_CACHE_NUM);
    }
  }

  lemma RunNext(calls: seq<Call>, i: nat)
    requires i < |calls|
    ensures Run(calls[..i + 1]) == Step(Run(calls[..i]), calls[i])
  {
    assert calls[..i + 1] == calls[..i] + [calls[i]];
    RunSnoc(calls[..i], calls[i]);
  }

  /** Up to the first failing session creation, every state is consistent. */
  lemma {:induction false} ConsistentUpTo(calls: seq<Call>, k: nat)
    requires k <= |calls| && forall i :: 0 <= i < k ==> !FailsAt(calls, i)
    ensures Consistent(Run(calls[..k]))
  {
    if k > 0 {
      ConsistentUpTo(calls, k - 1);
      RunNext(calls, k - 1);
      assert !FailsAt(calls, k - 1);
      ConsistentIffCreated(Run(calls[..k - 1]), calls[k - 1]);
    } else {
      assert calls[..0] == [];
    }
  }

  /** A run stays consistent throughout exactly when none of its session creations fails. */
  lemma RunConsistentIff(calls: seq<Call>)
    ensures (forall k :: 0 <= k <= |calls| ==> Consistent(Run(calls[..k]))) <==> NoSessionFails(calls)
  {
    if NoSessionFails(calls) {
      forall k | 0 <= k <= |calls| ensures Consistent(Run(calls[..k])) {
        ConsistentUpTo(calls, k);
      }
    } else {
      var i :| 0 <= i < |calls| && FailsAt(calls, i);
      RunNext(calls, i);
      if Consistent(Run(calls[..i])) {
        ConsistentIffCreated(Run(calls[..i]), calls[i]);
        assert !Consistent(Run(calls[..i + 1]));
      }
    }
  }

  /** In every run whose session creations succeed, the id list has no repeats and
      equals the key set of the map, never exceeds 257, and a session is resident
      exactly when at most 256 sessions were created after it. */
  lemma SessionResidency(calls: seq<Call>, k: nat)
    requires NoSessionFails(calls)
    ensures var s, t := Run(calls), Attempted(calls);
      && Consistent(s) && |s.ids| <= SESSION_CACHE_NUM + 1
      && (k in s.sessions <==> k in t && CountAfter(t, k) <= SESSION_CACHE_NUM)
  {
    ConsistentUpTo(calls, |calls|);
    assert calls[..|calls|] == calls;
    IdsAreNewest(calls);
    NewestByCount(Attempted(calls), k, SESSION_CACHE_NUM + 1);
  }

  function IdSet(ids: seq<nat>): (s: set<nat>) {
    set k | k in ids
  }

  lemma {:induction false} IdSetSize(ids: seq<nat>)
    ensures |IdSet(ids)| <= |ids|
  {
    if ids != [] {
      IdSetSize(ids[1..]);
      assert IdSet(ids) == IdSet(ids[1..]) + {ids[0]};
    }
  }

  /** Over every run, failures included, each session cache has its id listed, so there
      are never more than 257 of them. */
  lemma {:induction false} SessionsListed(calls: seq<Call>)
    ensures Run(calls).sessions.Keys <= IdSet(Run(calls).ids)
    ensures |Run(calls).sessions| <= SESSION_CACHE_NUM + 1
    decreases |calls|
  {
    if calls != [] {
      var n := |calls| - 1;
      SessionsListed(calls[..n]);
      var s := Run(calls[..n]);
      if calls[n].Session? && Creates(s, calls[n]) {
        ListedStep(s, calls[n]);
      }
    }
    IdsAreNewest(calls);
    IdSetSize(Run(calls).ids);
    SubsetSize(Run(calls).sessions.Keys, IdSet(Run(calls).ids));
    assert |Run(calls).sessions.Keys| == |Run(calls).sessions|;
  }

  lemma ListedStep(s: State, c: Call)
    requires s.sessions.Keys <= IdSet(s.ids) && c.Session? && Creates(s, c)
    ensures Step(s, c).sessions.Keys <= IdSet(Step(s, c).ids)
  {
    var r := Step(s, c);
    forall k | k in r.sessions.Keys ensures k in r.ids {
      if k == c.id {
        assert r.ids[0] == k;
      } else {
        var i :| 0 <= i < |s.ids| && s.ids[i] == k;
        assert r.ids[i + 1] == k;
      }
    }
  }

  lemma {:induction false} SubsetSize(a: set<nat>, b: set<nat>)
    requires a <= b
    ensures |a| <= |b|
  {
    if a != {} {
      var x :| x in a;
      SubsetSize(a - {x}, b - {x});
    }
  }

  // ----- which cache an id leads to -----

  /** The caches of one side. */
  function Side(s: State, session: bool): (m: map<nat, nat>) {
    if session then s.sessions else s.streams
  }

  /** The cache a call gets: the one held for its id, or the one it creates. */
  function Reply(s: State, c: Call): (k: Option<nat>) {
    if !Creates(s, c) then Some(Side(s, c.Session?)[c.id])
    else if c.outcome == NoMemory then None
    else Some(s.attempts)
  }

  /** No two ids, of sessions or of streams, share a cache, and none has one still to be created. */
  ghost predicate Unshared(s: State) {
    && (forall a, x :: x in Side(s, a) ==> Side(s, a)[x] < s.attempts)
    && (forall a, x, b, y :: x in Side(s, a) && y in Side(s, b) && (a != b || x != y) ==>
          Side(s, a)[x] != Side(s, b)[y])
  }

  /** Every cache held after a call was held for the same id before, or is the one created. */
  lemma HeldStep(s: State, c: Call, session: bool, x: nat)
    ensures var before, after := Side(s, session), Side(Step(s, c), session);
      x in after ==>
        if c.Session? == session && x == c.id && Creates(s, c)
        then c.outcome == CREATED && Reply(s, c) == Some(s.attempts) == Some(after[x])
        else x in before && after[x] == before[x]
    ensures Step(s, c).attempts == s.attempts + if Creates(s, c) then 1 else 0
  {}

  lemma UnsharedStep(s: State, c: Call)
    requires Unshared(s)
    ensures Unshared(Step(s, c)) && s.attempts <= Step(s, c).attempts
    ensures Reply(s, c).Some? ==> Reply(s, c).value < Step(s, c).attempts
  {
    hide Step;
    HeldStep(s, c, true, 0);
    var r := Step(s, c);
    forall a, x | x in Side(r, a) ensures Side(r, a)[x] < r.attempts {
      HeldStep(s, c, a, x);
    }
    forall a, x, b, y | x in Side(r, a) && y in Side(r, b) && (a != b || x != y)
      ensures Side(r, a)[x] != Side(r, b)[y]
    {
      HeldStep(s, c, a, x);
      HeldStep(s, c, b, y);
    }
    assert !Creates(s, c) ==> c.id in Side(s, c.Session?);
  }

  /** In every run different ids, of sessions and of streams together, lead to different caches. */
  lemma {:induction false} CachesUnshared(calls: seq<Call>)
    ensures Unshared(Run(calls))
    decreases |calls|
  {
    if calls != [] {
      CachesUnshared(calls[..|calls| - 1]);
      UnsharedStep(Run(calls[..|calls| - 1]), calls[|calls| - 1]);
    }
  }

  /** Call i of a run creates a cache, or tries to. */
  predicate CreatesAt(calls: seq<Call>, i: nat)
    requires i < |calls|
  {
    Creates(Run(calls[..i]), calls[i])
  }

  function ReplyAt(calls: seq<Call>, i: nat): (k: Option<nat>)
    requires i < |calls|
  {
    Reply(Run(calls[..i]), calls[i])
  }

  predicate SameId(c: Call, d: Call) {
    c.Session? == d.Session? && c.id == d.id
  }

  /** Call i is the last one before n to create a cache for the id of c, and it succeeds. */
  ghost predicate LastCreator(calls: seq<Call>, i: nat, n: nat, c: Call)
    requires n <= |calls|
  {
    && i < n && SameId(calls[i], c) && CreatesAt(calls, i) && calls[i].outcome == CREATED
    && forall k :: i < k < n && SameId(calls[k], c) ==> !CreatesAt(calls, k)
  }

  /** The cache held for an id is the one its last creation returned. */
  lemma {:induction false} HeldIsCreated(calls: seq<Call>, n: nat, c: Call) returns (i: nat)
    requires n <= |calls| && c.id in Side(Run(calls[..n]), c.Session?)
    ensures LastCreator(calls, i, n, c) && ReplyAt(calls, i) == Some(Side(Run(calls[..n]), c.Session?)[c.id])
    decreases n
  {
    hide Step, Creates, Reply;
    if n == 0 {
      assert false;
    } else {
      RunNext(calls, n - 1);
      HeldStep(Run(calls[..n - 1]), calls[n - 1], c.Session?, c.id);
      if SameId(calls[n - 1], c) && CreatesAt(calls, n - 1) {
        i := n - 1;
      } else {
        i := HeldIsCreated(calls, n - 1, c);
      }
    }
  }

  lemma {:induction false} AttemptsGrow(calls: seq<Call>, i: nat, n: nat)
    requires i < n <= |calls|
    ensures ReplyAt(calls, i).Some? ==> ReplyAt(calls, i).value < Run(calls[..n]).attempts
    decreases n
  {
    RunNext(calls, n - 1);
    CachesUnshared(calls[..n - 1]);
    UnsharedStep(Run(calls[..n - 1]), calls[n - 1]);
    if i < n - 1 {
      AttemptsGrow(calls, i, n - 1);
    }
  }

  lemma CreationReply(calls: seq<Call>, i: nat)
    requires i < |calls| && CreatesAt(calls, i)
    ensures ReplyAt(calls, i).None? <==> calls[i].outcome == NoMemory
  {}

  lemma CreationIsNew(calls: seq<Call>, j: nat, i: nat)
    requires j < i < |calls| && CreatesAt(calls, i)
    ensures ReplyAt(calls, i).Some? ==> ReplyAt(calls, j) != ReplyAt(calls, i)
  {
    AttemptsGrow(calls, j, i);
  }

  lemma ResidentIsCreated(calls: seq<Call>, i: nat) returns (j: nat)
    requires i < |calls| && !CreatesAt(calls, i)
    ensures j < i && LastCreator(calls, j, i, calls[i]) && SameId(calls[j], calls[i]) && CreatesAt(calls, j)
    ensures ReplyAt(calls, j) == ReplyAt(calls, i) && ReplyAt(calls, i).Some?
  {
    j := HeldIsCreated(calls, i, calls[i]);
  }

  /** Two calls of a run that get the same cache name the same id on the same side. */
  lemma SharedMeansSameId(calls: seq<Call>, i: nat, j: nat)
    requires j < i < |calls| && ReplyAt(calls, i).Some? && ReplyAt(calls, i) == ReplyAt(calls, j)
    ensures SameId(calls[i], calls[j])
  {
    hide CreatesAt, ReplyAt, LastCreator;
    if CreatesAt(calls, i) {
      CreationIsNew(calls, j, i);
    } else {
      var a := ResidentIsCreated(calls, i);
      var b := j;
      if !CreatesAt(calls, j) {
        b := ResidentIsCreated(calls, j);
      }
      if a < b {
        CreationIsNew(calls, a, b);
      } else if b < a {
        CreationIsNew(calls, b, a);
      }
    }
  }

  /** A call that creates a cache gets one no earlier call got, unless there is no memory;
      a call for an id that is held gets the one its last creation returned; and calls that
      get the same cache name the same session or the same stream. */
  ghost predicate RightCaches(calls: seq<Call>, kernels: seq<Option<nat>>)
    requires |kernels| == |calls|
  {
    && (forall i: nat :: i < |calls| && CreatesAt(calls, i) ==> (kernels[i].None? <==> calls[i].outcome == NoMemory))
    && (forall i: nat, j: nat :: j < i < |calls| && CreatesAt(calls, i) && kernels[i].Some? ==>
          kernels[j] != kernels[i])
    && (forall i: nat :: i < |calls| && !CreatesAt(calls, i) ==>
          kernels[i].Some? && exists j: nat :: j < i && LastCreator(calls, j, i, calls[i]) && kernels[j] == kernels[i])
    && (forall i: nat, j: nat :: j < i < |calls| && kernels[i].Some? && kernels[i] == kernels[j] ==>
          SameId(calls[i], calls[j]))
  }

  lemma RepliesRight(calls: seq<Call>, kernels: seq<Option<nat>>)
    requires |kernels| == |calls| && forall i: nat :: i < |calls| ==> kernels[i] == ReplyAt(calls, i)
    ensures RightCaches(calls, kernels)
  {
    hide CreatesAt, ReplyAt, SameId, LastCreator;
    forall i: nat | i < |calls| && CreatesAt(calls, i) ensures kernels[i].None? <==> calls[i].outcome == NoMemory {
      CreationReply(calls, i);
    }
    forall i: nat, j: nat | j < i < |calls| && CreatesAt(calls, i) && kernels[i].Some?
      ensures kernels[j] != kernels[i]
    {
      CreationIsNew(calls, j, i);
    }
    forall i: nat | i < |calls| && !CreatesAt(calls, i)
      ensures kernels[i].Some?
      ensures exists j: nat :: j < i && LastCreator(calls, j, i, calls[i]) && kernels[j] == kernels[i]
    {
      var j := ResidentIsCreated(calls, i);
      assert kernels[j] == kernels[i];
    }
    forall i: nat, j: nat | j < i < |calls| && kernels[i].Some? && kernels[i] == kernels[j]
      ensures SameId(calls[i], calls[j])
    {
      SharedMeansSameId(calls, i, j);
    }
  }

  /** Streams are never given up: one has a cache exactly if some call created one. */
  lemma {:induction false} StreamResidency(calls: seq<Call>, k: nat)
    ensures k in Run(calls).streams <==> exists i :: 0 <= i < |calls| && calls[i] == Stream(k, CREATED)
    decreases |calls|
  {
    if calls != [] {
      var n := |calls| - 1;
      StreamResidency(calls[..n], k);
      if k in Run(calls[..n]).streams {
        var i :| 0 <= i < |calls[..n]| && calls[..n][i] == Stream(k, CREATED);
        assert calls[i] == Stream(k, CREATED);
      }
      if i :| 0 <= i < |calls| && calls[i] == Stream(k, CREATED) {
        assert i < n ==> calls[..n][i] == Stream(k, CREATED);
      }
    }
  }

  class Registry {
    var sessionIds: seq<nat>
    var sessionKernels: map<nat, nat>
    var streamKernels: map<nat, nat>
    var attempts: nat

    ghost function View(): (s: State)
      reads this
    {
      State(sessionIds, sessionKernels, streamKernels, attempts)
    }

    constructor ()
      ensures View() == EMPTY
    {
      sessionIds, sessionKernels, streamKernels, attempts := [], map[], map[], 0;
    }

    /** Returns zero and the cache for the id, or the error of a failed creation. */
    method GetOrCreateKernelCache(c: Call) returns (ret: int, kernel: Option<nat>)
      modifies this
      ensures View() == Step(old(View()), c)
      ensures ret == 0 <==> !Creates(old(View()), c) || c.outcome == CREATED
      ensures kernel == Reply(old(View()), c)
      ensures ret == 0 ==> var m := if c.Session? then sessionKernels else streamKernels;
        c.id in m && kernel == Some(m[c.id])
      ensures ret != 0 ==> (c.outcome == NoMemory && ret == -1 && kernel == None) || c.outcome == InitReturns(ret)
    {
      var kernels := if c.Session? then sessionKernels else streamKernels;
      if c.id in kernels {
        return 0, Some(kernels[c.id]);
      }
      if c.Session? {
        if |sessionIds| > SESSION_CACHE_NUM {
          var delKey := sessionIds[|sessionIds| - 1];
          sessionIds := sessionIds[..|sessionIds| - 1];
          if delKey in kernels {
            kernels := kernels - {delKey};
          }
        }
        sessionIds := [c.id] + sessionIds;
        sessionKernels := kernels;
      }
      attempts := attempts + 1;
      if c.outcome == NoMemory {
        return -1, None;
      }
      kernel := Some(attempts - 1);
      ret := c.outcome.code;
      if ret != 0 {
        return;
      }
      kernels := kernels[c.id := attempts - 1];
      if c.Session? {
        sessionKernels := kernels;
      } else {
        streamKernels := kernels;
      }
    }
  }
  /** Any calls on a new registry: each gets the right cache, or an error. */
  method Execute(calls: seq<Call>) returns (rets: seq<int>, kernels: seq<Option<nat>>)
    ensures |rets| == |kernels| == |calls|
    ensures forall i: nat :: i < |calls| ==> (rets[i] == 0 <==> !CreatesAt(calls, i) || calls[i].outcome == CREATED)
    ensures RightCaches(calls, kernels)
  {
    hide Step, Reply, RightCaches, Creates, Side;
    var registry := new Registry();
    rets, kernels := [], [];
    assert calls[..0] == [];
    for i := 0 to |calls|
      invariant |rets| == |kernels| == i && registry.View() == Run(calls[..i]) && fresh(registry)
      invariant forall k: nat :: k < i ==> kernels[k] == ReplyAt(calls, k)
      invariant forall k: nat :: k < i ==> (rets[k] == 0 <==> !CreatesAt(calls, k) || calls[k].outcome == CREATED)
    {
      RunNext(calls, i);
      var ret, kernel := registry.GetOrCreateKernelCache(calls[i]);
      rets, kernels := rets + [ret], kernels + [kernel];
    }
    RepliesRight(calls, kernels);
  }
}
