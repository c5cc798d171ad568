/** Whole runs of the operator cache. What the cache holds, and in which order its
    iterators list it, follows from the history of the calls alone. */
module OpCacheRuns {
  import Arith
  import opened CachePolicy
  import opened OpCacheLinks
  import opened OpCacheContainer
  import opened OpCacheSizing
  import opened Wrappers

  /** Keys share a bucket exactly if their hashes differ by a multiple of the bucket count. */
  lemma HomeShared(hash: Key -> nat, n: nat, j: Key, k: Key)
    requires n > 0
    ensures Home(hash, n, j) == Home(hash, n, k) <==> (hash(j) - hash(k)) % n == 0
  {
    var a, b := hash(j), hash(k);
    var q := a / n - b / n;
    assert a - b == q * n + (a % n - b % n);
    if a % n >= b % n {
      Arith.DivModUnique(a - b, q, n, a % n - b % n);
    } else {
      assert (q - 1) * n == q * n - n;
      Arith.DivModUnique(a - b, q - 1, n, n + a % n - b % n);
    }
  }

  datatype Call = Lookup(key: Key) | Insert(key: Key, payload: Payload) | Erase(key: Key)

  /** One call on the recency list. */
  function AfterCall(es: seq<Entry<Payload>>, c: Call): (r: seq<Entry<Payload>>) {
    match c
    case Lookup(k) => AfterGet(false, es, k)
    case Insert(k, v) => if Find(es, k).None? then [Entry(k, v)] + es else AfterGet(false, es, k)
    case Erase(k) => Drop(es, k)
  }

  /** The recency list after a run from the empty cache. */
  function AfterCalls(calls: seq<Call>): (es: seq<Entry<Payload>>) {
    if calls == [] then [] else AfterCall(AfterCalls(calls[..|calls| - 1]), calls[|calls| - 1])
  }

  // ----- the history -----

  /** The payload of the first insertion of k since its last erasure. */
  function Stored(calls: seq<Call>, k: Key): (v: Option<Payload>) {
    if calls == [] then None else
      var before, last := Stored(calls[..|calls| - 1], k), calls[|calls| - 1];
      if last.key != k then before
      else match last
        case Lookup(_) => before
        case Insert(_, v) => if before.Some? then before else Some(v)
        case Erase(_) => None
  }

  predicate Uses(calls: seq<Call>, c: Call) {
    c.Insert? || (c.Lookup? && Stored(calls, c.key).Some?)
  }

  /** The number of the last call that inserted k or found it; zero if there is none. */
  function LastUse(calls: seq<Call>, k: Key): (n: nat)
    ensures n <= |calls|
  {
    if calls == [] then 0 else
      var n := |calls| - 1;
      if calls[n].key == k && Uses(calls[..n], calls[n]) then n + 1 else LastUse(calls[..n], k)
  }

  /** Strictly from the most to the least recently used key. */
  predicate InOrder(calls: seq<Call>, es: seq<Entry<Payload>>) {
    forall i, j :: 0 <= i < j < |es| ==> LastUse(calls, es[i].key) > LastUse(calls, es[j].key)
  }

  // ----- contents -----

  lemma FindDropped(es: seq<Entry<Payload>>, k: Key)
    requires forall i, j :: 0 <= i < j < |es| ==> es[i].key != es[j].key
    ensures Find(Drop(es, k), k) == None
  {
    if Resident(es, k) {
      var p := Position(es, k);
      FindAt(es, p);
      FindMiss(es[..p] + es[p + 1..], k);
    } else {
      DropMiss(es, k);
    }
  }

  lemma {:induction false} DropMiss(es: seq<Entry<Payload>>, k: Key)
    requires Find(es, k) == None
    ensures Drop(es, k) == es
  {
    if es != [] {
      DropMiss(es[1..], k);
      assert es == [es[0]] + es[1..];
    }
  }

  /** Where the first entry for k is. */
  lemma {:induction false} Position(es: seq<Entry<Payload>>, k: Key) returns (p: nat)
    requires Resident(es, k)
    ensures p < |es| && es[p].key == k && forall i :: 0 <= i < p ==> es[i].key != k
  {
    if es[0].key == k {
      p := 0;
    } else {
      var q := Position(es[1..], k);
      p := q + 1;
      assert forall i :: 0 < i < p ==> es[i] == es[1..][i - 1];
    }
  }

  /** One call changes the payload of one key only, as the history says. */
  lemma StoredStep(es: seq<Entry<Payload>>, c: Call, k: Key)
    requires forall i, j :: 0 <= i < j < |es| ==> es[i].key != es[j].key
    ensures Find(AfterCall(es, c), k)
         == if c.key != k then Find(es, k)
            else match c
              case Lookup(_) => Find(es, k)
              case Insert(_, v) => if Find(es, k).Some? then Find(es, k) else Some(v)
              case Erase(_) => None
  {
    if c.key != k {
      FindDrop(es, c.key, k);
    } else {
      FindDropped(es, k);
    }
    if Resident(es, c.key) {
      FindCons(Entry(c.key, Find(es, c.key).value), Drop(es, c.key), k);
    } else if c.Insert? {
      FindCons(Entry(c.key, c.payload), es, k);
    }
  }

  // ----- order -----

  lemma LastUseOther(calls: seq<Call>, c: Call, k: Key)
    requires c.key != k || !Uses(calls, c)
    ensures LastUse(calls + [c], k) == LastUse(calls, k)
  {}

  lemma LastUseNow(calls: seq<Call>, c: Call)
    requires Uses(calls, c)
    ensures LastUse(calls + [c], c.key) == |calls| + 1
  {}

  /** Dropping a key skips one position, or none. */
  lemma DropSkips(es: seq<Entry<Payload>>, k: Key) returns (q: nat)
    requires forall i, j :: 0 <= i < j < |es| ==> es[i].key != es[j].key
    ensures q <= |es| && |Drop(es, k)| == if q < |es| then |es| - 1 else |es|
    ensures forall i :: 0 <= i < |Drop(es, k)| ==>
      Drop(es, k)[i] == es[if i < q then i else i + 1] && Drop(es, k)[i].key != k
  {
    hide Drop;
    if Resident(es, k) {
      q := Position(es, k);
      FindAt(es, q);
    } else {
      q := |es|;
      DropMiss(es, k);
      AbsentKey(es, k);
    }
  }

  /** Dropping the entry for c.key leaves the others in order. */
  lemma DropInOrder(calls: seq<Call>, c: Call, es: seq<Entry<Payload>>)
    requires InOrder(calls, es)
    ensures InOrder(calls + [c], Drop(es, c.key))
    ensures forall i :: 0 <= i < |Drop(es, c.key)| ==> LastUse(calls + [c], Drop(es, c.key)[i].key) <= |calls|
  {
    hide Drop, LastUse;
    var d := Drop(es, c.key);
    var q := DropSkips(es, c.key);
    forall i | 0 <= i < |d| ensures LastUse(calls + [c], d[i].key) == LastUse(calls, d[i].key) {
      LastUseOther(calls, c, d[i].key);
    }
    forall i, j | 0 <= i < j < |d| ensures LastUse(calls + [c], d[i].key) > LastUse(calls + [c], d[j].key) {
      var i', j' := if i < q then i else i + 1, if j < q then j else j + 1;
      assert d[i] == es[i'] && d[j] == es[j'] && i' < j';
    }
  }

  lemma {:induction false} AbsentKey(es: seq<Entry<Payload>>, k: Key)
    requires Find(es, k) == None
    ensures forall i :: 0 <= i < |es| ==> es[i].key != k
  {
    if es != [] {
      AbsentKey(es[1..], k);
      assert forall i :: 0 < i < |es| ==> es[i] == es[1..][i - 1];
    }
  }

  lemma OrderStep(calls: seq<Call>, c: Call, es: seq<Entry<Payload>>)
    requires InOrder(calls, es) && Find(es, c.key) == Stored(calls, c.key)
    ensures InOrder(calls + [c], AfterCall(es, c))
  {
    hide Drop, LastUse, Find, Stored;
    DropInOrder(calls, c, es);
    if Find(es, c.key).None? {
      DropMiss(es, c.key);
    }
    if Uses(calls, c) {
      LastUseNow(calls, c);
    }
  }

  /** Over every run: a key is held exactly when it was inserted after its last
      erasure, with the payload of the first such insertion; and the entries are
      listed strictly from the most to the least recently used, so no key twice. */
  lemma {:induction false} RunsFollowHistory(calls: seq<Call>)
    ensures forall k :: Find(AfterCalls(calls), k) == Stored(calls, k)
    ensures InOrder(calls, AfterCalls(calls))
    decreases |calls|
  {
    hide AfterCall, LastUse;
    if calls != [] {
      var n := |calls| - 1;
      var before, c := calls[..n], calls[n];
      RunsFollowHistory(before);
      var es := AfterCalls(before);
      assert calls == before + [c];
      OrderStep(before, c, es);
      forall k ensures Find(AfterCalls(calls), k) == Stored(calls, k) {
        StoredStep(es, c, k);
      }
    }
  }

  // ----- the container -----

  /** Any run of the container is a run of the recency list, and its iterator visits
      the entries in that order. */
  method Execute(hash: Key -> nat, primes: seq<nat>, capacity: nat, calls: seq<Call>) returns (listed: seq<Node>)
    requires primes != [] && Ascending(primes) && primes[0] > 0
    requires capacity < BUCKET_NUM_FACTOR * primes[|primes| - 1]
    ensures View(listed) == AfterCalls(calls)
  {
    hide AfterCall, View, Container.Valid, Container.Listed, LinksOf;
    var c := new Container(hash);
    c.IdleView();
    var ok := c.Init(primes, capacity);
    for i := 0 to |calls|
      invariant c.Valid() && fresh(c) && fresh(c.buckets) && fresh(c.sentinel)
      invariant forall e :: e in c.ring ==> fresh(e) && fresh(e.link)
      invariant View(c.ring) == AfterCalls(calls[..i])
    {
      assert calls[..i + 1][..i] == calls[..i] && calls[..i + 1][i] == calls[i];
      CycleMembers(c);
      assert forall l :: l in c.Cycle() ==> fresh(l);
      Perform(c, calls[i]);
    }
    assert calls[..|calls|] == calls;
    c.ValidIsListed();
    listed := c.Traverse(false);
    assert listed == c.ring;
  }

  lemma CycleMembers(c: Container)
    ensures forall l :: l in c.Cycle() ==> l == c.sentinel || exists e :: e in c.ring && e.link == l
  {}

  /** One call on the container. */
  method Perform(c: Container, call: Call)
    requires c.Valid()
    modifies c, c.buckets, c.ring, c.Cycle()
    ensures c.Valid() && c.buckets == old(c.buckets) && c.frees == old(c.frees)
    ensures View(c.ring) == AfterCall(old(View(c.ring)), call)
    ensures forall e :: e in c.ring ==> e in old(c.ring) || (fresh(e) && fresh(e.link))
  {
    hide AfterGet, Drop, Find, View, Coherent, Ring, Owned, AllHeaded, LinksOf;
    match call {
      case Lookup(k) =>
        var r := c.FindKey(k);
      case Insert(k, v) =>
        var link := new Link();
        var value := new Node(k, v, link);
        var r, inserted := c.Insert(value);
      case Erase(k) =>
        var node := c.Lookup(k);
        if node != null {
          ghost var p :| 0 <= p < |c.ring| && c.ring[p] == node;
          SameMembers(c.ring, p);
          c.Erase(node, p);
        } else {
          ViewMiss(c.ring, k);
          DropMiss(View(c.ring), k);
        }
    }
  }

  // ----- the life of the bucket arrays -----

  /** What a client does with a cache before it is destroyed. */
  datatype Event = Init(capacity: nat) | Use(call: Call) | Clear

  /** How often each bucket array was freed, in the order of their allocation. */
  ghost function FreeCounts(run: seq<Event>): (f: seq<nat>) {
    if run == [] then [] else
      var before := FreeCounts(run[..|run| - 1]);
      match run[|run| - 1]
      case Init(_) => before + [0]
      case Use(_) => before
      case Clear => Freed(before)
  }

  /** The entries held after a run of events. */
  function Held(run: seq<Event>): (es: seq<Entry<Payload>>) {
    if run == [] then [] else
      var before := Held(run[..|run| - 1]);
      match run[|run| - 1]
      case Init(_) => before
      case Use(c) => AfterCall(before, c)
      case Clear => []
  }

  datatype Phase = Missing | InUse | Gone

  /** Whether there is a bucket array, told from the events alone. */
  function PhaseOf(run: seq<Event>): (p: Phase) {
    if run == [] then Missing else
      var before := PhaseOf(run[..|run| - 1]);
      match run[|run| - 1]
      case Init(_) => InUse
      case Use(_) => before
      case Clear => if before == Missing then Missing else Gone
  }

  /** An array is in use exactly when there is one and it was not freed. */
  lemma {:induction false} InUseIffNotFreed(run: seq<Event>)
    ensures PhaseOf(run) == Missing <==> FreeCounts(run) == []
    ensures PhaseOf(run) == InUse <==> FreeCounts(run) != [] && FreeCounts(run)[|FreeCounts(run)| - 1] == 0
    decreases |run|
  {
    if run != [] {
      InUseIffNotFreed(run[..|run| - 1]);
    }
  }

  /** No initialisation while an array is in use, no clearing of one that is gone. */
  predicate InTurn(run: seq<Event>) {
    && (forall i :: 0 <= i < |run| && run[i].Init? ==> PhaseOf(run[..i]) != InUse)
    && (forall i :: 0 <= i < |run| && run[i].Clear? ==> PhaseOf(run[..i]) != Gone)
  }

  /** All arrays freed once, but for the last one if it is in use. */
  ghost predicate Tidy(f: seq<nat>, p: Phase) {
    forall i :: 0 <= i < |f| ==> f[i] == if i == |f| - 1 && p == InUse then 0 else 1
  }

  /** An array is freed twice, or lost without being freed. */
  ghost predicate Spoiled(f: seq<nat>) {
    exists i :: 0 <= i < |f| && (f[i] > 1 || (i < |f| - 1 && f[i] != 1))
  }

  lemma InTurnSnoc(run: seq<Event>)
    requires run != []
    ensures var n := |run| - 1;
      InTurn(run) <==>
        && InTurn(run[..n])
        && (run[n].Init? ==> PhaseOf(run[..n]) != InUse)
        && (run[n].Clear? ==> PhaseOf(run[..n]) != Gone)
  {
    var n := |run| - 1;
    assert forall i :: 0 <= i < n ==> run[..n][..i] == run[..i];
  }

  lemma {:induction false} CountsFollowTurns(run: seq<Event>)
    ensures if InTurn(run) then Tidy(FreeCounts(run), PhaseOf(run)) else Spoiled(FreeCounts(run))
    decreases |run|
  {
    if run != [] {
      var n := |run| - 1;
      CountsFollowTurns(run[..n]);
      InUseIffNotFreed(run[..n]);
      InTurnSnoc(run);
      CountsStep(FreeCounts(run[..n]), PhaseOf(run[..n]), run[n], FreeCounts(run));
    }
  }

  /** One event on the free counts. */
  lemma CountsStep(f: seq<nat>, p: Phase, e: Event, g: seq<nat>)
    requires g == match e case Init(_) => f + [0] case Use(_) => f case Clear => Freed(f)
    requires p == Missing <==> f == []
    requires p == InUse <==> f != [] && f[|f| - 1] == 0
    ensures Spoiled(f) ==> Spoiled(g)
    ensures Tidy(f, p) && e.Init? ==> if p == InUse then Spoiled(g) else Tidy(g, InUse)
    ensures Tidy(f, p) && e.Clear? ==> if p == Gone then Spoiled(g) else Tidy(g, Gone)
  {
    if Spoiled(f) {
      var i :| 0 <= i < |f| && (f[i] > 1 || (i < |f| - 1 && f[i] != 1));
      assert g[i] > 1 || (i < |g| - 1 && g[i] != 1);
    }
    if f != [] && e.Clear? {
      assert g[|f| - 1] == f[|f| - 1] + 1;
    }
    if f != [] && e.Init? {
      assert g[|f| - 1] == f[|f| - 1];
    }
  }

  /** Destruction clears once more. Over every run, each bucket array is then freed exactly
      once if and only if initialisations and clearings took turns and the last array
      was not cleared by hand. */
  lemma FreedOnceIff(run: seq<Event>)
    ensures AllOnce(FreeCounts(run + [Clear])) <==> InTurn(run) && PhaseOf(run) != Gone
  {
    hide InTurn;
    var all := run + [Clear];
    assert all[..|run|] == run;
    CountsFollowTurns(all);
    InTurnSnoc(all);
    ClearedPhase(run);
    OnceIffTidy(FreeCounts(all), PhaseOf(all), InTurn(all));
  }

  ghost predicate AllOnce(f: seq<nat>) {
    forall i :: 0 <= i < |f| ==> f[i] == 1
  }

  lemma OnceIffTidy(f: seq<nat>, p: Phase, inTurn: bool)
    requires p != InUse && if inTurn then Tidy(f, p) else Spoiled(f)
    ensures AllOnce(f) <==> inTurn
  {}

  lemma ClearedPhase(run: seq<Event>)
    ensures PhaseOf(run + [Clear]) == if PhaseOf(run) == Missing then Missing else Gone
  {
    assert (run + [Clear])[..|run|] == run;
  }

  predicate NoClear(rest: seq<Event>) {
    forall i :: 0 <= i < |rest| ==> !rest[i].Clear?
  }

  predicate NoInit(rest: seq<Event>) {
    forall i :: 0 <= i < |rest| ==> !rest[i].Init?
  }

  lemma {:induction false} PhaseAfterInit(capacity: nat, rest: seq<Event>)
    requires NoInit(rest)
    ensures PhaseOf([Init(capacity)] + rest) == if NoClear(rest) then InUse else Gone
    ensures NoClear(rest) ==> InTurn([Init(capacity)] + rest)
    decreases |rest|
  {
    hide InTurn;
    var run := [Init(capacity)] + rest;
    InTurnSnoc(run);
    if rest == [] {
      assert run[..0] == [];
      NothingInTurn();
    } else {
      var n := |rest| - 1;
      PhaseAfterInit(capacity, rest[..n]);
      assert run[..n + 1] == [Init(capacity)] + rest[..n] && rest == rest[..n] + [rest[n]];
    }
  }

  lemma NothingInTurn()
    ensures InTurn([])
  {}

  /** A cache initialised once frees its bucket array exactly once if and only if it is
      never cleared by hand. */
  lemma FreedOnceIffNeverCleared(capacity: nat, rest: seq<Event>)
    requires NoInit(rest)
    ensures AllOnce(FreeCounts([Init(capacity)] + rest + [Clear])) <==> NoClear(rest)
  {
    PhaseAfterInit(capacity, rest);
    FreedOnceIff([Init(capacity)] + rest);
  }

  /** One explicit clear and then destruction: the bucket array is freed twice. */
  lemma ClearThenDestroy(capacity: nat)
    ensures FreeCounts([Init(capacity), Clear] + [Clear]) == [2]
  {
    var run := [Init(capacity), Clear] + [Clear];
    assert run[..2][..1][..0] == [] && run[..2][..1] == [Init(capacity)] && run[..2] == [Init(capacity), Clear];
    assert FreeCounts(run[..2][..1]) == [0];
    assert FreeCounts(run[..2]) == [1];
  }

  /** What an event demands: a capacity the sizing loop can leave and no entries for an
      initialisation, an array in use for a call. */
  predicate Allowed(primes: seq<nat>, run: seq<Event>, i: nat)
    requires primes != [] && i < |run|
  {
    match run[i]
    case Init(capacity) => Held(run[..i]) == [] && capacity < BUCKET_NUM_FACTOR * primes[|primes| - 1]
    case Use(_) => PhaseOf(run[..i]) == InUse
    case Clear => true
  }

  /** Everything the cache writes to. */
  ghost function Footprint(c: Container): (o: set<object>)
    reads c
    ensures c in o && c.buckets in o
    ensures forall e :: e in c.ring ==> e in o
    ensures forall l :: l in c.Cycle() ==> l in o
  {
    {c, c.buckets} + (set e: Node | e in c.ring) + (set l: Link | l in c.Cycle())
  }

  /** The cache in a phase of its life. */
  ghost predicate Stands(c: Container, run: seq<Event>)
    reads c, c.buckets, c.ring, c.Cycle()
  {
    && (if PhaseOf(run) == InUse then c.Valid() else c.Idle())
    && c.frees == FreeCounts(run) && View(c.ring) == Held(run)
  }

  method Handle(c: Container, primes: seq<nat>, e: Event, ghost run: seq<Event>, ghost owned: set<object>)
    requires primes != [] && Ascending(primes) && primes[0] > 0
    requires Stands(c, run) && Allowed(primes, run + [e], |run|) && owned == Footprint(c)
    modifies owned
    ensures Stands(c, run + [e])
    ensures c.buckets == old(c.buckets) || fresh(c.buckets)
    ensures forall n :: n in c.ring ==> n in old(c.ring) || (fresh(n) && fresh(n.link))
  {
    hide AfterCall, View, Container.Valid, Container.Listed, Freed, LinksOf;
    assert (run + [e])[..|run|] == run;
    match e {
      case Init(capacity) =>
        c.NoEntriesIsIdle();
        var ok := c.Init(primes, capacity);
      case Use(call) =>
        Perform(c, call);
      case Clear =>
        var freed := c.Clear();
        c.IdleView();
    }
  }

  /** The destructor is one more clear. */
  method Destroy(c: Container, ghost owned: set<object>) returns (freed: seq<Node>)
    requires (c.Valid() || c.Idle()) && owned == Footprint(c)
    modifies owned
    ensures freed == old(c.ring) && c.frees == Freed(old(c.frees))
  {
    hide Container.Valid, Container.Listed;
    freed := c.Clear();
  }

  /** A whole life: whatever the client does, the bucket arrays are freed as often as the
      events say, and destruction frees exactly the entries still held. */
  method Live(hash: Key -> nat, primes: seq<nat>, run: seq<Event>) returns (c: Container, freed: seq<Node>)
    requires primes != [] && Ascending(primes) && primes[0] > 0
    requires forall i :: 0 <= i < |run| ==> Allowed(primes, run, i)
    ensures c.frees == FreeCounts(run + [Clear]) && View(freed) == Held(run)
  {
    hide View, FreeCounts, Held, PhaseOf, Allowed, Container.Valid, Container.Idle, LinksOf;
    c := new Container(hash);
    NewStands(c);
    for i := 0 to |run|
      invariant Stands(c, run[..i]) && fresh(c) && fresh(c.buckets) && fresh(c.sentinel)
      invariant forall e :: e in c.ring ==> fresh(e) && fresh(e.link)
    {
      CycleMembers(c);
      ghost var owned := Footprint(c);
      assert fresh(owned);
      AllowedNext(primes, run, i);
      Handle(c, primes, run[i], run[..i], owned);
      assert run[..i + 1] == run[..i] + [run[i]];
    }
    assert run[..|run|] == run;
    CycleMembers(c);
    ghost var owned := Footprint(c);
    assert fresh(owned);
    freed := Destroy(c, owned);
    Destroyed(run);
  }

  lemma Destroyed(run: seq<Event>)
    ensures FreeCounts(run + [Clear]) == Freed(FreeCounts(run))
  {
    assert (run + [Clear])[..|run|] == run;
  }

  lemma NewStands(c: Container)
    requires c.Idle() && c.frees == []
    ensures Stands(c, [])
  {}

  lemma AllowedNext(primes: seq<nat>, run: seq<Event>, i: nat)
    requires primes != [] && i < |run| && Allowed(primes, run, i)
    ensures Allowed(primes, run[..i] + [run[i]], i)
  {
    assert (run[..i] + [run[i]])[..i] == run[..i];
  }
}
