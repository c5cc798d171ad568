/** What KernelCache keeps: an entry list, most recent first, run either as an
    LRU cache or, in session mode, as a FIFO. The whole-run theorems say exactly
    which keys are resident, in terms of the operation history alone. */
module CachePolicy {
  import opened Wrappers

  datatype Entry<V> = Entry(key: nat, value: V)

  datatype Op<V> = Get(key: nat) | Set(key: nat, value: V)

  predicate Distinct<T(==)>(s: seq<T>) {
    s == [] || (s[0] !in s[1..] && Distinct(s[1..]))
  }

  function Keys<V>(es: seq<Entry<V>>): (ks: seq<nat>)
    ensures |ks| == |es|
  {
    if es == [] then [] else [es[0].key] + Keys(es[1..])
  }

  function Find<V>(es: seq<Entry<V>>, k: nat): (v: Option<V>) {
    if es == [] then None else if es[0].key == k then Some(es[0].value) else Find(es[1..], k)
  }

  /** es without its first entry for k. */
  function Drop<V>(es: seq<Entry<V>>, k: nat): (r: seq<Entry<V>>) {
    if es == [] then [] else if es[0].key == k then es[1..] else [es[0]] + Drop(es[1..], k)
  }

  /** es with the value of its first entry for k replaced. */
  function Update<V>(es: seq<Entry<V>>, k: nat, v: V): (r: seq<Entry<V>>) {
    if es == [] then [] else if es[0].key == k then [Entry(k, v)] + es[1..] else [es[0]] + Update(es[1..], k, v)
  }

  function MinNat(a: nat, b: nat): (m: nat) { if a < b then a else b }

  function Take<T>(s: seq<T>, n: nat): (r: seq<T>)
    ensures |r| == MinNat(|s|, n)
  {
    if n < |s| then s[..n] else s
  }

  // ----- one operation -----

  function AfterGet<V>(session: bool, es: seq<Entry<V>>, k: nat): (r: seq<Entry<V>>) {
    match Find(es, k)
    case None => es
    case Some(v) => if session then es else [Entry(k, v)] + Drop(es, k)
  }

  /** The list made ready for a new entry: a full list loses its last entry. */
  function Evicted<V>(capacity: nat, es: seq<Entry<V>>): (r: seq<Entry<V>>) {
    if capacity < |es| then es[..|es| - 1] else es
  }

  function AfterSet<V>(session: bool, capacity: nat, es: seq<Entry<V>>, k: nat, v: V): (r: seq<Entry<V>>) {
    if Find(es, k).None? then [Entry(k, v)] + Evicted(capacity, es)
    else if session then Update(es, k, v)
    else [Entry(k, v)] + Drop(es, k)
  }

  function Apply<V>(session: bool, capacity: nat, es: seq<Entry<V>>, op: Op<V>): (r: seq<Entry<V>>) {
    match op
    case Get(k) => AfterGet(session, es, k)
    case Set(k, v) => AfterSet(session, capacity, es, k, v)
  }

  /** The entries after a run from the empty cache. */
  function Run<V>(session: bool, capacity: nat, ops: seq<Op<V>>): (es: seq<Entry<V>>) {
    if ops == [] then [] else
      Apply(session, capacity, Run(session, capacity, ops[..|ops| - 1]), ops[|ops| - 1])
  }

  predicate Resident<V>(es: seq<Entry<V>>, k: nat) {
    Find(es, k).Some?
  }

  // ----- histories -----

  /** The keys touched by an LRU run, oldest first: every set, and every get that hits. */
  function Touches<V>(capacity: nat, ops: seq<Op<V>>): (t: seq<nat>) {
    if ops == [] then [] else
      var n := |ops| - 1;
      var before := Touches(capacity, ops[..n]);
      if ops[n].Get? && !Resident(Run(false, capacity, ops[..n]), ops[n].key) then before
      else before + [ops[n].key]
  }

  /** The keys other than k touched after the last touch of k. */
  function Since(t: seq<nat>, k: nat): (s: set<nat>) {
    if t == [] || t[|t| - 1] == k then {} else Since(t[..|t| - 1], k) + {t[|t| - 1]}
  }

  /** The value of the last set of k. */
  function LastSet<V>(ops: seq<Op<V>>, k: nat): (v: Option<V>) {
    if ops == [] then None else
      var last := ops[|ops| - 1];
      if last.Set? && last.key == k then Some(last.value) else LastSet(ops[..|ops| - 1], k)
  }

  /** The keys newly inserted by a run in session mode, oldest first. */
  function Inserts<V>(capacity: nat, ops: seq<Op<V>>): (t: seq<nat>) {
    if ops == [] then [] else
      var n := |ops| - 1;
      var before := Inserts(capacity, ops[..n]);
      if ops[n].Set? && !Resident(Run(true, capacity, ops[..n]), ops[n].key) then before + [ops[n].key] else before
  }

  /** How many entries of t follow the last occurrence of k. */
  function CountAfter(t: seq<nat>, k: nat): (n: nat) {
    if t == [] || t[|t| - 1] == k then 0 else 1 + CountAfter(t[..|t| - 1], k)
  }

  // ----- facts about entry lists -----

  lemma {:induction false} ResidentIffKey<V>(es: seq<Entry<V>>, k: nat)
    ensures Resident(es, k) <==> k in Keys(es)
  {
    if es != [] {
      ResidentIffKey(es[1..], k);
    }
  }

  /** The entry at position p, when no earlier entry has its key. */
  lemma {:induction false} FindAt<V>(es: seq<Entry<V>>, p: nat)
    requires p < |es| && forall i :: 0 <= i < p ==> es[i].key != es[p].key
    ensures Find(es, es[p].key) == Some(es[p].value)
    ensures Drop(es, es[p].key) == es[..p] + es[p + 1..]
  {
    if p == 0 {
      assert es[..0] + es[1..] == es[1..];
    } else {
      FindAt(es[1..], p - 1);
      assert es[..p] + es[p + 1..] == [es[0]] + (es[1..][..p - 1] + es[1..][p..]);
    }
  }

  lemma {:induction false} UpdateAt<V>(es: seq<Entry<V>>, p: nat, v: V)
    requires p < |es| && forall i :: 0 <= i < p ==> es[i].key != es[p].key
    ensures Update(es, es[p].key, v) == es[p := Entry(es[p].key, v)]
  {
    if p == 0 {
      assert es[0 := Entry(es[0].key, v)] == [Entry(es[0].key, v)] + es[1..];
    } else {
      UpdateAt(es[1..], p - 1, v);
      assert es[p := Entry(es[p].key, v)] == [es[0]] + es[1..][p - 1 := Entry(es[p].key, v)];
    }
  }

  lemma {:induction false} FindMiss<V>(es: seq<Entry<V>>, k: nat)
    requires forall i :: 0 <= i < |es| ==> es[i].key != k
    ensures Find(es, k) == None
  {
    if es != [] {
      FindMiss(es[1..], k);
    }
  }

  lemma {:induction false} KeysDrop<V>(es: seq<Entry<V>>, k: nat)
    ensures Keys(Drop(es, k)) == Remove(Keys(es), k)
  {
    if es != [] {
      KeysDrop(es[1..], k);
      assert Keys(es)[1..] == Keys(es[1..]);
      assert ([es[0]] + Drop(es[1..], k))[1..] == Drop(es[1..], k);
    }
  }

  lemma {:induction false} KeysUpdate<V>(es: seq<Entry<V>>, k: nat, v: V)
    ensures Keys(Update(es, k, v)) == Keys(es)
  {
    if es != [] {
      KeysUpdate(es[1..], k, v);
      assert ([Entry(k, v)] + es[1..])[1..] == es[1..];
      assert ([es[0]] + Update(es[1..], k, v))[1..] == Update(es[1..], k, v);
    }
  }

  lemma {:induction false} KeysTake<V>(es: seq<Entry<V>>, n: nat)
    ensures Keys(Take(es, n)) == Take(Keys(es), n)
  {
    if es != [] && n > 0 {
      KeysTake(es[1..], n - 1);
      TakeCons(es, n);
      TakeCons(Keys(es), n);
      assert Keys(es)[1..] == Keys(es[1..]);
      KeysCons(es[0], Take(es[1..], n - 1));
    }
  }

  lemma TakeCons<T>(s: seq<T>, n: nat)
    requires s != [] && n > 0
    ensures Take(s, n) == [s[0]] + Take(s[1..], n - 1)
  {}

  lemma KeysCons<V>(e: Entry<V>, es: seq<Entry<V>>)
    ensures Keys([e] + es) == [e.key] + Keys(es)
  {}

  // ----- LRU -----

  function Remove(s: seq<nat>, k: nat): (r: seq<nat>) {
    if s == [] then [] else if s[0] == k then s[1..] else [s[0]] + Remove(s[1..], k)
  }

  /** The elements in front of the first k. */
  function Front(s: seq<nat>, k: nat): (r: set<nat>) {
    if s == [] || s[0] == k then {} else {s[0]} + Front(s[1..], k)
  }

  /** All touched keys, most recently touched first. */
  function Recency(t: seq<nat>): (r: seq<nat>) {
    if t == [] then [] else [t[|t| - 1]] + Remove(Recency(t[..|t| - 1]), t[|t| - 1])
  }

  lemma {:induction false} RemoveFacts(s: seq<nat>, k: nat)
    requires Distinct(s)
    ensures Distinct(Remove(s, k))
    ensures forall x :: x in Remove(s, k) <==> x in s && x != k
  {
    if s != [] {
      RemoveFacts(s[1..], k);
      var r := [s[0]] + Remove(s[1..], k);
      assert r[1..] == Remove(s[1..], k);
    }
  }

  lemma {:induction false} RecencyFacts(t: seq<nat>)
    ensures Distinct(Recency(t))
    ensures forall k :: k in Recency(t) <==> k in t
    decreases |t|
  {
    if t != [] {
      var n := |t| - 1;
      RecencyFacts(t[..n]);
      RemoveFacts(Recency(t[..n]), t[n]);
      assert t == t[..n] + [t[n]];
      assert Recency(t)[1..] == Remove(Recency(t[..n]), t[n]);
    }
  }

  lemma {:induction false} FrontRemove(r: seq<nat>, a: nat, k: nat)
    requires Distinct(r) && a != k
    ensures k in r ==> Front(Remove(r, a), k) == Front(r, k) - {a}
  {
    if r != [] {
      FrontRemove(r[1..], a, k);
      if r[0] == a {
        FrontMembers(r[1..], k);
      } else {
        assert ([r[0]] + Remove(r[1..], a))[1..] == Remove(r[1..], a);
      }
    }
  }

  lemma {:induction false} FrontMembers(r: seq<nat>, k: nat)
    ensures forall x :: x in Front(r, k) ==> x in r
  {
    if r != [] {
      FrontMembers(r[1..], k);
    }
  }

  /** The keys in front of k in the recency order are exactly those touched since k. */
  lemma {:induction false} FrontIsSince(t: seq<nat>, k: nat)
    requires k in t
    ensures Front(Recency(t), k) == Since(t, k)
    decreases |t|
  {
    var n := |t| - 1;
    assert t == t[..n] + [t[n]];
    if t[n] != k {
      FrontIsSince(t[..n], k);
      RecencyFacts(t[..n]);
      FrontRemove(Recency(t[..n]), t[n], k);
      assert Recency(t)[1..] == Remove(Recency(t[..n]), t[n]);
    }
  }

  /** k is among the first n keys exactly when fewer than n keys precede it. */
  lemma {:induction false} TakeByFront(r: seq<nat>, k: nat, n: nat)
    requires Distinct(r)
    ensures k in Take(r, n) <==> k in r && |Front(r, k)| < n
  {
    if r != [] {
      if n == 0 {
        assert Take(r, n) == [];
      } else {
        TakeCons(r, n);
        TakeByFront(r[1..], k, n - 1);
        FrontMembers(r[1..], k);
      }
    }
  }

  /** Removing a key and cutting commute up to one position. */
  lemma {:induction false} TakeRemove(r: seq<nat>, k: nat, c: nat)
    requires Distinct(r)
    ensures Take(Remove(r, k), c) == if k in Take(r, c + 1) then Remove(Take(r, c + 1), k) else Take(r, c)
  {
    if r != [] {
      TakeCons(r, c + 1);
      var s := Take(r, c + 1);
      assert s[1..] == Take(r[1..], c);
      if r[0] != k {
        if c > 0 {
          TakeRemove(r[1..], k, c - 1);
          TakeCons(Remove(r, k), c);
          TakeCons(r, c);
          assert Remove(r, k)[1..] == Remove(r[1..], k);
        } else {
          assert s == [r[0]] && Take(Remove(r, k), 0) == [] == Take(r, 0);
        }
      }
    }
  }

  /** One operation keeps the entries equal to the front of the recency order. */
  lemma LruStep<V>(capacity: nat, es: seq<Entry<V>>, r: seq<nat>, op: Op<V>)
    requires Distinct(r) && Keys(es) == Take(r, capacity + 1)
    ensures Keys(Apply(false, capacity, es, op))
         == if op.Get? && !Resident(es, op.key) then Keys(es)
            else Take([op.key] + Remove(r, op.key), capacity + 1)
  {
    var k := op.key;
    ResidentIffKey(es, k);
    TakeRemove(r, k, capacity);
    TakeCons([k] + Remove(r, k), capacity + 1);
    assert ([k] + Remove(r, k))[1..] == Remove(r, k);
    if Resident(es, k) {
      KeysDrop(es, k);
      KeysCons(Entry(k, if op.Set? then op.value else Find(es, k).value), Drop(es, k));
    } else if op.Set? {
      KeysTake(es, capacity);
      assert Evicted(capacity, es) == Take(es, capacity);
      assert Take(Keys(es), capacity) == Take(r, capacity);
      KeysCons(Entry(k, op.value), Take(es, capacity));
    }
  }

  /** In every LRU run the entry keys are the first capacity + 1 keys of the recency order. */
  lemma {:induction false} LruInvariant<V>(capacity: nat, ops: seq<Op<V>>)
    ensures Keys(Run(false, capacity, ops)) == Take(Recency(Touches(capacity, ops)), capacity + 1)
    decreases |ops|
  {
    if ops != [] {
      var n := |ops| - 1;
      LruInvariant(capacity, ops[..n]);
      var t := Touches(capacity, ops[..n]);
      RecencyFacts(t);
      LruStep(capacity, Run(false, capacity, ops[..n]), Recency(t), ops[n]);
      assert (t + [ops[n].key])[..|t|] == t;
    }
  }

  // ----- values -----

  lemma {:induction false} FindDrop<V>(es: seq<Entry<V>>, a: nat, k: nat)
    requires a != k
    ensures Find(Drop(es, a), k) == Find(es, k)
  {
    if es != [] {
      FindDrop(es[1..], a, k);
      assert ([es[0]] + Drop(es[1..], a))[1..] == Drop(es[1..], a);
    }
  }

  lemma {:induction false} FindUpdate<V>(es: seq<Entry<V>>, a: nat, v: V, k: nat)
    ensures Find(Update(es, a, v), k) == if a == k && Resident(es, a) then Some(v) else Find(es, k)
  {
    if es != [] {
      FindUpdate(es[1..], a, v, k);
      assert ([es[0]] + Update(es[1..], a, v))[1..] == Update(es[1..], a, v);
      assert ([Entry(a, v)] + es[1..])[1..] == es[1..];
    }
  }

  lemma {:induction false} FindPrefix<V>(es: seq<Entry<V>>, n: nat, k: nat)
    requires n <= |es|
    ensures Resident(es[..n], k) ==> Find(es[..n], k) == Find(es, k)
  {
    if n > 0 {
      FindPrefix(es[1..], n - 1, k);
      assert es[..n][1..] == es[1..][..n - 1];
    }
  }

  /** In every run, of either mode, an entry holds the last value set for its key. */
  lemma {:induction false} LastValue<V>(session: bool, capacity: nat, ops: seq<Op<V>>, k: nat)
    ensures Resident(Run(session, capacity, ops), k) ==> Find(Run(session, capacity, ops), k) == LastSet(ops, k)
    decreases |ops|
  {
    if ops != [] {
      var n := |ops| - 1;
      LastValue(session, capacity, ops[..n], k);
      var es, op := Run(session, capacity, ops[..n]), ops[n];
      if op.key != k {
        FindDrop(es, op.key, k);
      }
      if op.Set? {
        FindUpdate(es, op.key, op.value, k);
      }
      FindPrefix(es, if capacity < |es| then |es| - 1 else |es|, k);
      assert es[..|es|] == es;
      if op.Set? {
        FindCons(Entry(op.key, op.value), Drop(es, op.key), k);
        FindCons(Entry(op.key, op.value), Evicted(capacity, es), k);
      } else if Resident(es, op.key) {
        FindCons(Entry(op.key, Find(es, op.key).value), Drop(es, op.key), k);
      }
    }
  }

  lemma FindCons<V>(e: Entry<V>, r: seq<Entry<V>>, k: nat)
    ensures Find([e] + r, k) == if e.key == k then Some(e.value) else Find(r, k)
  {}

  /** LRU residency over every run: a key is resident exactly when it was touched
      and at most capacity other keys were touched since; a hit yields the last
      value set; and the cache never exceeds capacity + 1 entries. */
  lemma LruResidency<V>(capacity: nat, ops: seq<Op<V>>, k: nat)
    ensures var es, t := Run(false, capacity, ops), Touches(capacity, ops);
      && (Resident(es, k) <==> k in t && |Since(t, k)| <= capacity)
      && (Resident(es, k) ==> Find(es, k) == LastSet(ops, k))
      && |es| <= capacity + 1
  {
    var es, t := Run(false, capacity, ops), Touches(capacity, ops);
    LruInvariant(capacity, ops);
    LastValue(false, capacity, ops, k);
    ResidentIffKey(es, k);
    RecencyFacts(t);
    TakeByFront(Recency(t), k, capacity + 1);
    if k in t {
      FrontIsSince(t, k);
    }
  }

  // ----- FIFO -----

  /** t listed from its newest element. */
  function Backwards(t: seq<nat>): (r: seq<nat>)
    ensures |r| == |t|
  {
    if t == [] then [] else [t[|t| - 1]] + Backwards(t[..|t| - 1])
  }

  lemma {:induction false} NewestByCount(t: seq<nat>, k: nat, n: nat)
    ensures k in Take(Backwards(t), n) <==> k in t && CountAfter(t, k) < n
    decreases |t|
  {
    if t != [] {
      var m := |t| - 1;
      assert t == t[..m] + [t[m]];
      if n == 0 {
        assert Take(Backwards(t), n) == [];
      } else {
        TakeCons(Backwards(t), n);
        assert Backwards(t)[1..] == Backwards(t[..m]);
        NewestByCount(t[..m], k, n - 1);
      }
    }
  }

  /** In every session-mode run the entry keys are the newest capacity + 1 insertions. */
  lemma {:induction false} FifoInvariant<V>(capacity: nat, ops: seq<Op<V>>)
    ensures Keys(Run(true, capacity, ops)) == Take(Backwards(Inserts(capacity, ops)), capacity + 1)
    decreases |ops|
  {
    if ops != [] {
      var n := |ops| - 1;
      FifoInvariant(capacity, ops[..n]);
      var es, op, t := Run(true, capacity, ops[..n]), ops[n], Inserts(capacity, ops[..n]);
      if op.Set? {
        if Resident(es, op.key) {
          KeysUpdate(es, op.key, op.value);
        } else {
          FifoInsert(capacity, es, t, op.key, op.value);
        }
      }
    }
  }

  lemma FifoInsert<V>(capacity: nat, es: seq<Entry<V>>, t: seq<nat>, k: nat, v: V)
    requires Keys(es) == Take(Backwards(t), capacity + 1)
    ensures Keys([Entry(k, v)] + Evicted(capacity, es)) == Take(Backwards(t + [k]), capacity + 1)
  {
    KeysTake(es, capacity);
    assert Evicted(capacity, es) == Take(es, capacity);
    KeysCons(Entry(k, v), Take(es, capacity));
    NewestInsert(capacity, t, k);
    assert Take(Keys(es), capacity) == Take(Backwards(t), capacity);
  }

  /** A new element in front of the newest ones. */
  lemma NewestInsert(capacity: nat, t: seq<nat>, k: nat)
    ensures Take(Backwards(t + [k]), capacity + 1) == [k] + Take(Backwards(t), capacity)
  {}

  /** Session-mode residency over every run: a key is resident exactly when it was
      inserted and at most capacity insertions followed its last one. */
  lemma FifoResidency<V>(capacity: nat, ops: seq<Op<V>>, k: nat)
    ensures var es, t := Run(true, capacity, ops), Inserts(capacity, ops);
      && (Resident(es, k) <==> k in t && CountAfter(t, k) <= capacity)
      && (Resident(es, k) ==> Find(es, k) == LastSet(ops, k))
      && |es| <= capacity + 1
  {
    var es, t := Run(true, capacity, ops), Inserts(capacity, ops);
    FifoInvariant(capacity, ops);
    LastValue(true, capacity, ops, k);
    NewestByCount(t, k, capacity + 1);
    ResidentIffKey(es, k);
  }
}
