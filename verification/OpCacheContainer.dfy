/** The operator cache: a hash table of intrusive nodes threaded through a recency
    ring. It refines a recency list of key and payload pairs. */
module OpCacheContainer {
  import opened CachePolicy
  import opened OpCacheLinks
  import opened OpCacheSizing
  import opened Wrappers

  function Home(hash: Key -> nat, n: nat, k: Key): (b: nat)
    requires n > 0
    ensures b < n
  {
    hash(k) % n
  }

  /** The ring and the chains hold the same nodes, each in the bucket of its key,
      and no key occurs twice. */
  ghost predicate Coherent(hash: Key -> nat, ring: seq<Node>, chains: seq<seq<Node>>) {
    && |chains| > 0
    && (forall i, j :: 0 <= i < j < |ring| ==> ring[i].key != ring[j].key)
    && (forall e :: e in ring ==> e in chains[Home(hash, |chains|, e.key)])
    && (forall b, e :: 0 <= b < |chains| && e in chains[b] ==> e in ring && Home(hash, |chains|, e.key) == b)
  }

  function LinksOf(ring: seq<Node>): (c: seq<Link>)
    ensures |c| == |ring| && forall i :: 0 <= i < |ring| ==> c[i] == ring[i].link
  {
    seq(|ring|, i requires 0 <= i < |ring| => ring[i].link)
  }

  /** The abstract contents, most recently used first. */
  function View(ring: seq<Node>): (es: seq<Entry<Payload>>)
    ensures |es| == |ring| && forall i :: 0 <= i < |ring| ==> es[i] == Entry(ring[i].key, ring[i].payload)
  {
    seq(|ring|, i requires 0 <= i < |ring| => Entry(ring[i].key, ring[i].payload))
  }

  function Without(ring: seq<Node>, k: nat): (r: seq<Node>)
    requires k < |ring|
    ensures |r| == |ring| - 1
  {
    ring[..k] + ring[k + 1..]
  }

  lemma ViewWithout(ring: seq<Node>, k: nat)
    requires k < |ring| && forall i, j :: 0 <= i < j < |ring| ==> ring[i].key != ring[j].key
    ensures Find(View(ring), ring[k].key) == Some(ring[k].payload)
    ensures View(Without(ring, k)) == Drop(View(ring), ring[k].key)
    ensures View([ring[k]] + Without(ring, k)) == AfterGet(false, View(ring), ring[k].key)
  {
    hide AfterGet, Find, Drop;
    ViewDropped(ring, k);
    FindAt(View(ring), k);
    ViewActivated(View(ring), k);
    assert View([ring[k]] + Without(ring, k)) == [View(ring)[k]] + View(Without(ring, k));
  }

  lemma ViewDropped(ring: seq<Node>, k: nat)
    requires k < |ring|
    ensures View(Without(ring, k)) == View(ring)[..k] + View(ring)[k + 1..]
  {}

  lemma ViewActivated(es: seq<Entry<Payload>>, k: nat)
    requires k < |es| && Find(es, es[k].key) == Some(es[k].value) && Drop(es, es[k].key) == es[..k] + es[k + 1..]
    ensures AfterGet(false, es, es[k].key) == [es[k]] + (es[..k] + es[k + 1..])
  {}

  lemma CoherentMoved(hash: Key -> nat, ring: seq<Node>, chains: seq<seq<Node>>, k: nat)
    requires Coherent(hash, ring, chains) && k < |ring|
    ensures Coherent(hash, [ring[k]] + Without(ring, k), chains)
  {}

  lemma SameMembers(ring: seq<Node>, k: nat)
    requires k < |ring|
    ensures forall e :: e in ring <==> e in [ring[k]] + Without(ring, k)
    ensures forall e :: e in ring ==> e in Without(ring, k) || e == ring[k]
    ensures forall e :: e in Without(ring, k) ==> e in ring
  {}

  /** Of different nodes exactly the one at k goes. */
  lemma MembersWithout(ring: seq<Node>, k: nat)
    requires k < |ring| && AllDifferent(ring)
    ensures forall e :: e in Without(ring, k) <==> e in ring && e != ring[k]
  {
    SameMembers(ring, k);
    var rest := Without(ring, k);
    assert forall i :: 0 <= i < |rest| ==> rest[i] == ring[if i < k then i else i + 1];
  }

  lemma KeysWithout(ring: seq<Node>, k: nat)
    requires k < |ring| && forall i, j :: 0 <= i < j < |ring| ==> ring[i].key != ring[j].key
    ensures forall i, j :: 0 <= i < j < |ring| - 1 ==> Without(ring, k)[i].key != Without(ring, k)[j].key
    ensures forall e :: e in ring && e != ring[k] ==> e.key != ring[k].key
  {}

  lemma CoherentErased(hash: Key -> nat, ring: seq<Node>, chains: seq<seq<Node>>, k: nat, j: nat)
    requires Coherent(hash, ring, chains) && k < |ring|
    requires var b := Home(hash, |chains|, ring[k].key);
      j < |chains[b]| && chains[b][j] == ring[k] && AllDifferent(chains[b])
    ensures var b := Home(hash, |chains|, ring[k].key);
      Coherent(hash, Without(ring, k), chains[b := Without(chains[b], j)])
  {
    hide Home;
    var b := Home(hash, |chains|, ring[k].key);
    var rest, chains' := Without(ring, k), chains[b := Without(chains[b], j)];
    KeysWithout(ring, k);
    MembersWithout(ring, k);
    MembersWithout(chains[b], j);
    assert ring[k] in ring;
    forall e | e in rest ensures e in chains'[Home(hash, |chains'|, e.key)] {
      assert e in chains[Home(hash, |chains|, e.key)];
    }
    forall c, e | 0 <= c < |chains'| && e in chains'[c] ensures e in rest && Home(hash, |chains'|, e.key) == c {
      assert e in chains[c];
    }
  }

  /** Every link knows the node it belongs to; the sentinel belongs to none. */
  ghost predicate Owned(c: seq<Link>, ring: seq<Node>)
    requires |c| == |ring| + 1
    reads c`owner
  {
    c[0].owner == null && forall i :: 0 <= i < |ring| ==> c[i + 1].owner == ring[i]
  }

  /** Bucket b heads the chain chains[b], whose nodes are among nodes. */
  ghost predicate Headed(buckets: array<Node?>, chains: seq<seq<Node>>, nodes: set<Node>, b: int)
    requires 0 <= b < |chains| == buckets.Length
    reads buckets, nodes`hnext, nodes`pprev
  {
    (forall i :: 0 <= i < |chains[b]| ==> chains[b][i] in nodes) && Chain(buckets[b], b, chains[b])
  }

  ghost predicate AllHeaded(buckets: array<Node?>, chains: seq<seq<Node>>, nodes: set<Node>)
    requires |chains| == buckets.Length
    reads buckets, nodes`hnext, nodes`pprev
  {
    forall b :: 0 <= b < |chains| ==> Headed(buckets, chains, nodes, b)
  }

  /** The entry an iterator at p denotes after operator++. */
  function Advanced(sentinel: Link, p: Node, reverse: bool): (q: Node?)
    reads p.link, p.link.next, p.link.prev
  {
    var l := if reverse then p.link.prev else p.link.next;
    if l == null || l == sentinel then null else l.owner
  }

  ghost function NodeSet(ring: seq<Node>): (r: set<Node>) {
    set e | e in ring
  }

  class Container {
    const hash: Key -> nat
    const sentinel: Link
    var buckets: array<Node?>
    var entryNum: nat
    // the nodes, most recently used first, and the chain of every bucket
    ghost var ring: seq<Node>
    ghost var chains: seq<seq<Node>>
    // how often each bucket array allocated so far was freed; the last one is in use
    ghost var frees: seq<nat>

    ghost function Cycle(): (c: seq<Link>)
      reads this
    {
      [sentinel] + LinksOf(ring)
    }

    /** The ring alone: it needs no buckets. */
    ghost predicate Listed()
      reads this, Cycle()
    {
      entryNum == |ring| && Ring(Cycle()) && Owned(Cycle(), ring)
    }

    /** No entries; the bucket array may be missing or already freed. */
    ghost predicate Idle()
      reads this, Cycle()
    {
      Listed() && ring == []
    }

    /** The bucket array in use was not freed. */
    ghost predicate Live()
      reads this
    {
      frees != [] && frees[|frees| - 1] == 0
    }

    ghost predicate Valid()
      reads this, buckets, ring, Cycle()
    {
      && Live()
      && buckets.Length == |chains|
      && Coherent(hash, ring, chains)
      && Listed()
      && AllHeaded(buckets, chains, NodeSet(ring))
    }

    /** A cache without a bucket array, which is modelled as one without buckets. */
    constructor (h: Key -> nat)
      ensures Idle() && hash == h && frees == [] && fresh(buckets) && fresh(sentinel)
    {
      hash := h;
      sentinel := new Link();
      buckets := new Node?[0];
      entryNum := 0;
      ring, chains, frees := [], [], [];
    }

    /** Allocates the bucket array for a capacity. An array already there is dropped, and
        entries already there are in none of the new buckets. */
    method Init(primes: seq<nat>, capacity: nat) returns (ok: bool)
      requires Listed()
      requires primes != [] && Ascending(primes) && primes[0] > 0
      requires capacity < BUCKET_NUM_FACTOR * primes[|primes| - 1]
      modifies this`buckets, this`chains, this`frees
      ensures ok && fresh(buckets) && frees == old(frees) + [0]
      ensures Valid() <==> ring == []
      ensures buckets.Length in primes && (buckets.Length > capacity <==> capacity < primes[|primes| - 1])
    {
      var bucketNum := BucketCount(primes, capacity);
      buckets := new Node?[bucketNum](_ => null);
      chains := seq(bucketNum, _ => []);
      frees := frees + [0];
      ok := true;
      assert ring != [] ==> ring[0] in ring && ring[0] !in chains[Home(hash, |chains|, ring[0].key)];
    }

    /** The walk through the bucket of a key. */
    method Lookup(key: Key) returns (r: Node?)
      requires Valid()
      ensures r == null ==> forall e :: e in ring ==> e.key != key
      ensures r != null ==> r in ring && r.key == key
    {
      hide Coherent, Ring, Owned, AllHeaded, LinksOf, NodeSet;
      BucketFacts(hash, ring, chains, key);
      var b := hash(key) % buckets.Length;
      ghost var s := chains[Home(hash, |chains|, key)];
      ghost var j := 0;
      BucketChain(buckets, chains, NodeSet(ring), b);
      var node := buckets[b];
      while node != null
        invariant 0 <= j <= |s| && node == if j < |s| then s[j] else null
        invariant forall i :: 0 <= i < j ==> s[i].key != key
        decreases |s| - j
      {
        assert s[j] in ring;
        if key == node.key {
          return node;
        }
        node := node.hnext;
        j := j + 1;
      }
      r := null;
      assert forall e :: e in s ==> e.key != key;
    }

    /** Moves a node to the front of the recency ring. */
    method Active(node: Node, ghost k: nat)
      requires Valid() && k < |ring| && ring[k] == node
      modifies this`ring, Cycle()`next, Cycle()`prev
      ensures Valid() && ring == [node] + Without(old(ring), k)
    {
      hide Coherent, Home, Ring, Owned, AllHeaded, LinksOf, Moved, Without;
      ghost var c, was := Cycle(), ring;
      ghost var d, moved := RingMoved(hash, c, was, chains, k);
      MoveBehind(node.link, sentinel, c, k + 1);
      assert AllHeaded(buckets, chains, NodeSet(was));
      assert Owned(d, moved);
      ring := moved;
      assert Cycle() == d;
    }

    method FindKey(key: Key) returns (r: Node?)
      requires Valid()
      modifies this`ring, Cycle()`next, Cycle()`prev
      ensures Valid() && View(ring) == AfterGet(false, old(View(ring)), key)
      ensures r == null <==> Find(old(View(ring)), key) == None
      ensures r != null ==> r in old(ring) && r.key == key && ring != [] && r == ring[0]
      ensures forall e :: e in ring ==> e in old(ring)
    {
      hide Coherent, Ring, Owned, AllHeaded, LinksOf, AfterGet;
      r := Lookup(key);
      if r != null {
        ghost var k :| 0 <= k < |ring| && ring[k] == r;
        ViewMoved(hash, ring, chains, k);
        SameMembers(ring, k);
        Active(r, k);
      } else {
        ViewMiss(ring, key);
      }
    }

    /** Returns the entry for the key of value, creating it as a copy if needed. */
    method Insert(value: Node) returns (r: Node, inserted: bool)
      requires Valid()
      requires value.link.next == value.link == value.link.prev && value.link !in Cycle()
      modifies this, buckets, ring, Cycle(), value.link`prev, value.link`next
      ensures Valid() && buckets == old(buckets) && frees == old(frees)
      ensures inserted <==> Find(old(View(ring)), value.key) == None
      ensures inserted ==> fresh(r) && fresh(r.link) && ring == [r] + old(ring)
      ensures !inserted ==> forall e :: e in ring ==> e in old(ring)
      ensures View(ring) == if inserted then [Entry(value.key, value.payload)] + old(View(ring))
                            else AfterGet(false, old(View(ring)), value.key)
      ensures r.key == value.key && ring != [] && r == ring[0] && (!inserted ==> r in old(ring))
      ensures value.link.next == value.link == value.link.prev
    {
      hide Coherent, Ring, Owned, AllHeaded, LinksOf, AfterGet;
      var found := Lookup(value.key);
      if found != null {
        ghost var k :| 0 <= k < |ring| && ring[k] == found;
        ViewMoved(hash, ring, chains, k);
        SameMembers(ring, k);
        Active(found, k);
        r, inserted := found, false;
      } else {
        ViewMiss(ring, value.key);
        r := CopyOf(value);
        ViewInserted(ring, r);
        AddNode(r, value.link);
        inserted := true;
      }
    }

    /** Threads a copied node into its bucket and behind the sentinel. Its links
        still name those of the original, which is in no list. */
    method AddNode(node: Node, original: Link)
      requires Valid() && node !in ring && node.link !in Cycle() && node.link.owner == node
      requires forall e :: e in ring ==> e.key != node.key
      requires node.link.next == original == node.link.prev && original != node.link
      requires original.next == original == original.prev && original !in Cycle()
      modifies this`ring, this`chains, this`entryNum, buckets, node`hnext, node`pprev, ring`pprev,
        Cycle()`next, Cycle()`prev, node.link`next, node.link`prev, original`next, original`prev
      ensures Valid() && ring == [node] + old(ring)
      ensures original.next == original == original.prev
    {
      hide Coherent, Ring, Owned, AllHeaded, LinksOf, NodeSet;
      ghost var d, grown, next := LinkIn(node, original);
      chains := next;
      ring := grown;
      entryNum := entryNum + 1;
      assert Cycle() == d;
    }

    /** The links and chains stand for these lists, which are about to become the ring
        and the chains. */
    ghost predicate Rewired(links: seq<Link>, nodes: seq<Node>, next: seq<seq<Node>>)
      reads this, buckets, links, nodes
    {
      && |next| == buckets.Length && |links| == |nodes| + 1
      && links == [sentinel] + LinksOf(nodes) && Ring(links) && Owned(links, nodes)
      && Coherent(hash, nodes, next) && AllHeaded(buckets, next, NodeSet(nodes))
    }

    /** The pointer writes of an insertion. */
    method LinkIn(node: Node, original: Link)
        returns (ghost d: seq<Link>, ghost grown: seq<Node>, ghost next: seq<seq<Node>>)
      requires Valid() && node !in ring && node.link !in Cycle() && node.link.owner == node
      requires forall e :: e in ring ==> e.key != node.key
      requires node.link.next == original == node.link.prev && original != node.link
      requires original.next == original == original.prev && original !in Cycle()
      modifies buckets, node`hnext, node`pprev, ring`pprev,
        Cycle()`next, Cycle()`prev, node.link`next, node.link`prev, original`next, original`prev
      ensures grown == [node] + ring && Rewired(d, grown, next)
      ensures original.next == original == original.prev
    {
      hide Coherent, Ring, Owned, AllHeaded, LinksOf;
      ghost var c := Cycle();
      CoherentInserted(hash, ring, chains, node);
      var b := hash(node.key) % buckets.Length;
      AddToBucket(node, b);
      AddToRing(node, original, c, ring);
      d, grown, next := [sentinel, node.link] + c[1..], [node] + ring, chains[b := [node] + chains[b]];
      assert AllHeaded(buckets, next, NodeSet(grown));
    }

    /** The ring side of an insertion: detach the copied links, then add. */
    method AddToRing(node: Node, original: Link, ghost c: seq<Link>, ghost was: seq<Node>)
      requires c == [sentinel] + LinksOf(was) && Ring(c) && Owned(c, was)
      requires node.link !in c && node.link.owner == node
      requires node.link.next == original == node.link.prev && original != node.link
      requires original.next == original == original.prev && original !in c
      modifies c`next, c`prev, node.link`next, node.link`prev, original`next, original`prev
      ensures [sentinel] + LinksOf([node] + was) == [sentinel, node.link] + c[1..]
      ensures Ring([sentinel, node.link] + c[1..]) && Owned([sentinel, node.link] + c[1..], [node] + was)
      ensures original.next == original == original.prev
    {
      hide Ring, Owned, LinksOf;
      CycleInserted(sentinel, was, node);
      OwnedInserted(c, was, node);
      DelDetached(node.link);
      assert Ring(c);
      Add(node.link, sentinel, c);
    }

    method AddToBucket(node: Node, b: nat)
      requires buckets.Length == |chains| && Coherent(hash, ring, chains) && AllHeaded(buckets, chains, NodeSet(ring))
      requires b < |chains| && node !in ring
      modifies buckets, node`hnext, node`pprev, ring`pprev
      ensures AllHeaded(buckets, chains[b := [node] + chains[b]], NodeSet([node] + ring))
    {
      hide Chain, Home;
      ghost var s := chains[b];
      ghost var next := chains[b := [node] + s];
      assert Headed(buckets, chains, NodeSet(ring), b);
      assert forall e :: e in s ==> e in ring;
      HlistAdd(buckets, b, node, s);
      forall c | 0 <= c < |next| ensures Headed(buckets, next, NodeSet([node] + ring), c) {
        if c != b {
          assert old(Headed(buckets, chains, NodeSet(ring), c));
          assert forall e :: e in chains[c] ==> e in ring && e !in s;
          assert old(Chain(buckets[c], c, chains[c]));
        }
      }
    }

    /** Takes a node out of its chain and out of the ring. */
    method Erase(node: Node, ghost k: nat)
      requires Valid() && k < |ring| && ring[k] == node
      modifies this`ring, this`chains, this`entryNum, buckets, ring`hnext, ring`pprev, Cycle()`next, Cycle()`prev
      ensures Valid() && ring == Without(old(ring), k)
      ensures View(ring) == Drop(old(View(ring)), node.key)
    {
      hide Ring, Owned, AllHeaded, LinksOf, Coherent, Drop, View, Without, NodeSet;
      ViewMoved(hash, ring, chains, k);
      ghost var d, rest, next := Unlink(node, ring, k);
      chains := next;
      ring := rest;
      entryNum := entryNum - 1;
      assert Cycle() == d;
    }

    /** The pointer writes of an erasure. */
    method Unlink(node: Node, ghost was: seq<Node>, ghost k: nat)
        returns (ghost d: seq<Link>, ghost rest: seq<Node>, ghost next: seq<seq<Node>>)
      requires k < |was| && was[k] == node && was == ring && Valid()
      modifies buckets, ring`hnext, ring`pprev, Cycle()`next, Cycle()`prev
      ensures rest == Without(was, k) && Rewired(d, rest, next)
    {
      hide Ring, Owned, AllHeaded, LinksOf, Home, Coherent, Without;
      ghost var c := Cycle();
      ChainsDisjoint(hash, ring, chains, k);
      ghost var b := Home(hash, |chains|, node.key);
      ghost var j := EraseFromBucket(node, b);
      d, rest, next := RingErased(hash, c, ring, chains, k, j);
      Del(node.link, c, k + 1);
      assert AllHeaded(buckets, next, NodeSet(rest));
    }

    method EraseFromBucket(node: Node, ghost b: nat) returns (ghost j: nat)
      requires buckets.Length == |chains| && AllHeaded(buckets, chains, NodeSet(ring))
      requires b < |chains| && node in chains[b]
      requires forall c, e :: 0 <= c < |chains| && c != b && e in chains[c] ==> e !in chains[b]
      modifies buckets, ring`hnext, ring`pprev
      ensures j < |chains[b]| && chains[b][j] == node && AllDifferent(chains[b])
      ensures AllHeaded(buckets, chains[b := Without(chains[b], j)], NodeSet(ring) - {node})
    {
      hide Chain;
      ghost var s := chains[b];
      assert Headed(buckets, chains, NodeSet(ring), b);
      ChainDistinct(buckets[b], b, s);
      j :| 0 <= j < |s| && s[j] == node;
      ghost var next := chains[b := Without(s, j)];
      assert forall i :: 0 <= i < |Without(s, j)| ==> Without(s, j)[i] == s[if i < j then i else i + 1];
      HlistDel(buckets, b, node, s, j);
      forall c | 0 <= c < |next| ensures Headed(buckets, next, NodeSet(ring) - {node}, c) {
        if c != b {
          assert old(Headed(buckets, chains, NodeSet(ring), c));
          forall i | 0 <= i < |chains[c]| ensures chains[c][i] !in s {
            assert chains[c][i] in chains[c];
          }
          assert old(Chain(buckets[c], c, chains[c]));
        } else {
          assert next[c] == s[..j] + s[j + 1..];
        }
      }
    }

    /** The iterator at the first entry in the direction of travel, or the end. */
    method First(reverse: bool) returns (p: Node?)
      requires Listed()
      ensures p == if ring == [] then null else if reverse then ring[|ring| - 1] else ring[0]
    {
      hide Coherent, AllHeaded;
      ghost var c := Cycle();
      assert c[0] == sentinel;
      if entryNum == 0 {
        return null;
      }
      assert c[1] == ring[0].link && c[|ring|] == ring[|ring| - 1].link;
      var l := if reverse then sentinel.prev else sentinel.next;
      p := l.owner;
    }

    /** operator++ steps to the neighbouring entry, and to the end at the sentinel. */
    lemma AdvanceIs(k: nat, reverse: bool)
      requires Listed() && k < |ring|
      ensures Advanced(sentinel, ring[k], reverse)
           == if reverse then (if k == 0 then null else ring[k - 1])
              else if k + 1 == |ring| then null else ring[k + 1]
    {
      hide Coherent, AllHeaded, Ring, Owned, LinksOf;
      CycleErased(sentinel, ring, k);
      RingWalk(Cycle(), ring, k);
    }

    /** A loop from begin() to end(), or from rbegin() to rend(). */
    method Traverse(reverse: bool) returns (visited: seq<Node>)
      requires Listed()
      ensures |visited| == |ring|
      ensures forall i :: 0 <= i < |ring| ==> visited[i] == ring[if reverse then |ring| - 1 - i else i]
    {
      hide Coherent, AllHeaded, Ring, Owned;
      visited := [];
      var p := First(reverse);
      while p != null
        invariant |visited| <= |ring|
        invariant forall i :: 0 <= i < |visited| ==> visited[i] == ring[if reverse then |ring| - 1 - i else i]
        invariant p == if |visited| == |ring| then null
                       else ring[if reverse then |ring| - 1 - |visited| else |visited|]
        decreases |ring| - |visited|
      {
        ghost var k := if reverse then |ring| - 1 - |visited| else |visited|;
        visited := visited + [p];
        AdvanceIs(k, reverse);
        p := Advanced(sentinel, p, reverse);
      }
    }

    /** Frees every entry, most recent first, and then the bucket array, whose pointer is
        left as it was. The destructor is the same call. */
    method Clear() returns (freed: seq<Node>)
      requires Valid() || Idle()
      modifies this`ring, this`chains, this`entryNum, this`frees, buckets, ring`hnext, ring`pprev,
        Cycle()`next, Cycle()`prev
      ensures Idle() && freed == old(ring)
      ensures frees == Freed(old(frees))
    {
      hide Valid, Ring, Owned, LinksOf;
      freed := EraseAll();
      frees := Freed(frees);
    }

    method EraseAll() returns (freed: seq<Node>)
      requires Valid() || Idle()
      modifies this`ring, this`chains, this`entryNum, buckets, ring`hnext, ring`pprev, Cycle()`next, Cycle()`prev
      ensures Idle() && freed == old(ring)
    {
      hide Valid, Ring, Owned, LinksOf, Without;
      freed := [];
      ghost var usable := Valid();
      ValidIsListed();
      var p := First(false);
      while p != null
        invariant Listed() && (ring != [] ==> usable) && (usable ==> Valid())
        invariant buckets == old(buckets)
        invariant old(ring) == freed + ring
        invariant p == if ring == [] then null else ring[0]
        decreases |ring|
      {
        var value := p;
        SuffixFrame(sentinel, freed, ring);
        HeadErased(freed, ring);
        p := EraseHead(value);
        freed := freed + [value];
      }
    }

    /** One round: the iterator moves on before its entry is erased. */
    method EraseHead(value: Node) returns (p: Node?)
      requires Valid() && ring != [] && value == ring[0]
      modifies this`ring, this`chains, this`entryNum, buckets, ring`hnext, ring`pprev, Cycle()`next, Cycle()`prev
      ensures Valid() && Listed() && ring == Without(old(ring), 0)
      ensures p == if ring == [] then null else ring[0]
    {
      hide Valid, Ring, Owned, View, Drop, LinksOf, Without;
      ValidIsListed();
      AdvanceIs(0, false);
      p := Advanced(sentinel, value, false);
      HeadErased([], ring);
      Erase(value, 0);
      ValidIsListed();
    }

    lemma ValidIsListed()
      ensures Valid() ==> Listed()
    {}

    lemma NoEntriesIsIdle()
      requires (Valid() || Idle()) && View(ring) == []
      ensures Idle()
    {}

    lemma IdleView()
      requires Idle()
      ensures ring == [] && View(ring) == []
    {}
  }

  /** delete[] on the array in use; on a missing one it does nothing. */
  ghost function Freed(frees: seq<nat>): (r: seq<nat>)
    ensures |r| == |frees|
  {
    if frees == [] then [] else frees[|frees| - 1 := frees[|frees| - 1] + 1]
  }

  /** Walking the ring one step either way. */
  lemma RingWalk(c: seq<Link>, ring: seq<Node>, k: nat)
    requires |c| == |ring| + 1 && Ring(c) && Owned(c, ring) && k < |ring|
    ensures c[k + 1].next == (if k + 1 == |ring| then c[0] else c[k + 2]) && c[k + 1].prev == c[k]
    ensures k + 1 < |ring| ==> c[k + 2] != c[0] && c[k + 2].owner == ring[k + 1]
    ensures k > 0 ==> c[k] != c[0] && c[k].owner == ring[k - 1]
  {}

  lemma SuffixFrame(sentinel: Link, done: seq<Node>, rest: seq<Node>)
    ensures forall i :: 0 <= i < |rest| ==> rest[i] in done + rest
    ensures var c := [sentinel] + LinksOf(rest);
      forall i :: 0 <= i < |c| ==> c[i] in [sentinel] + LinksOf(done + rest)
  {}

  /** The bucket of a key holds ring members only, and all of those with that key. */
  lemma BucketFacts(hash: Key -> nat, ring: seq<Node>, chains: seq<seq<Node>>, key: Key)
    requires Coherent(hash, ring, chains)
    ensures |chains| > 0
    ensures var s := chains[Home(hash, |chains|, key)];
      && (forall i :: 0 <= i < |s| ==> s[i] in ring)
      && (forall e :: e in ring && e.key == key ==> e in s)
  {}

  lemma BucketChain(buckets: array<Node?>, chains: seq<seq<Node>>, nodes: set<Node>, b: nat)
    requires |chains| == buckets.Length && AllHeaded(buckets, chains, nodes) && b < |chains|
    ensures Chain(buckets[b], b, chains[b])
  {
    assert Headed(buckets, chains, nodes, b);
  }

  lemma ChainDistinct(head: Node?, b: nat, s: seq<Node>)
    requires Chain(head, b, s)
    ensures AllDifferent(s)
  {}

  lemma ChainsDisjoint(hash: Key -> nat, ring: seq<Node>, chains: seq<seq<Node>>, k: nat)
    requires Coherent(hash, ring, chains) && k < |ring|
    ensures |chains| > 0
    ensures var b := Home(hash, |chains|, ring[k].key);
      && ring[k] in chains[b]
      && forall c, e :: 0 <= c < |chains| && c != b && e in chains[c] ==> e !in chains[b]
  {
    var b := Home(hash, |chains|, ring[k].key);
    assert ring[k] in ring;
    forall c, e | 0 <= c < |chains| && c != b && e in chains[c] ensures e !in chains[b] {
      assert Home(hash, |chains|, e.key) == c;
    }
  }

  /** What the ring, its links and the chains become when the node at k is erased. */
  lemma RingErased(hash: Key -> nat, c: seq<Link>, ring: seq<Node>, chains: seq<seq<Node>>, k: nat, j: nat)
    returns (d: seq<Link>, rest: seq<Node>, next: seq<seq<Node>>)
    requires c != [] && c == [c[0]] + LinksOf(ring) && Owned(c, ring)
    requires Coherent(hash, ring, chains) && k < |ring|
    requires var b := Home(hash, |chains|, ring[k].key);
      j < |chains[b]| && chains[b][j] == ring[k] && AllDifferent(chains[b])
    ensures var b := Home(hash, |chains|, ring[k].key); next == chains[b := Without(chains[b], j)]
    ensures rest == Without(ring, k) && |rest| == |ring| - 1 && NodeSet(rest) == NodeSet(ring) - {ring[k]}
    ensures c[k + 1] == ring[k].link && d == c[..k + 1] + c[k + 2..]
    ensures d == [c[0]] + LinksOf(rest) && Owned(d, rest)
    ensures Coherent(hash, rest, next)
  {
    hide Owned, Coherent, LinksOf, AllDifferent;
    var b := Home(hash, |chains|, ring[k].key);
    d, rest, next := c[..k + 1] + c[k + 2..], Without(ring, k), chains[b := Without(chains[b], j)];
    CoherentErased(hash, ring, chains, k, j);
    CycleErased(c[0], ring, k);
    OwnedErased(c, ring, k);
    NodeSetErased(hash, ring, chains, k);
  }

  lemma HeadErased(freed: seq<Node>, ring: seq<Node>)
    requires ring != []
    ensures freed + ring == freed + [ring[0]] + Without(ring, 0) && |Without(ring, 0)| == |ring| - 1
    ensures Without(ring, 0) == ring[1..]
  {}

  lemma NodeSetErased(hash: Key -> nat, ring: seq<Node>, chains: seq<seq<Node>>, k: nat)
    requires Coherent(hash, ring, chains) && k < |ring|
    ensures NodeSet(Without(ring, k)) == NodeSet(ring) - {ring[k]}
  {}

  /** Copy construction: the copy's list pointers are those of the original. */
  method CopyOf(value: Node) returns (r: Node)
    ensures fresh(r) && fresh(r.link) && r.key == value.key && r.payload == value.payload
    ensures r.link.owner == r && r.link.next == value.link.next && r.link.prev == value.link.prev
  {
    var l := new Link();
    l.prev, l.next := value.link.prev, value.link.next;
    r := new Node(value.key, value.payload, l);
    l.owner := r;
  }

  /** ListHead::Del on a link whose neighbours are a list of one. */
  method DelDetached(node: Link)
    requires node.next != null && node.prev == node.next != node
    requires node.next.next == node.next == node.next.prev
    modifies node.next`prev, node.prev`next
    ensures node.next == old(node.next) && node.prev == old(node.prev)
    ensures node.next.next == node.next == node.next.prev
  {
    node.next.prev := node.prev;
    node.prev.next := node.next;
  }

  /** A new key in front of the ring and of its bucket keeps the two coherent. */
  lemma CoherentInserted(hash: Key -> nat, ring: seq<Node>, chains: seq<seq<Node>>, node: Node)
    requires Coherent(hash, ring, chains) && forall e :: e in ring ==> e.key != node.key
    ensures |chains| > 0
    ensures var b := Home(hash, |chains|, node.key);
      Coherent(hash, [node] + ring, chains[b := [node] + chains[b]])
  {}

  lemma ViewInserted(ring: seq<Node>, node: Node)
    ensures View([node] + ring) == [Entry(node.key, node.payload)] + View(ring)
  {}

  lemma LinksCons(ring: seq<Node>, node: Node)
    ensures LinksOf([node] + ring) == [node.link] + LinksOf(ring)
  {}

  lemma CycleInserted(sentinel: Link, ring: seq<Node>, node: Node)
    ensures var c := [sentinel] + LinksOf(ring);
      c[0] == sentinel && |c| == |ring| + 1 && [sentinel] + LinksOf([node] + ring) == [sentinel, node.link] + c[1..]
  {
    hide LinksOf;
    LinksCons(ring, node);
    var l := LinksOf(ring);
    LinksSize(ring);
    assert ([sentinel] + l)[1..] == l;
    assert [sentinel] + ([node.link] + l) == [sentinel, node.link] + l;
  }

  lemma LinksSize(ring: seq<Node>)
    ensures |LinksOf(ring)| == |ring|
  {}

  lemma OwnedInserted(c: seq<Link>, ring: seq<Node>, node: Node)
    requires |c| == |ring| + 1 && Owned(c, ring) && node.link.owner == node
    ensures Owned([c[0], node.link] + c[1..], [node] + ring)
  {}

  lemma CycleErased(sentinel: Link, ring: seq<Node>, k: nat)
    requires k < |ring|
    ensures var c := [sentinel] + LinksOf(ring);
      && |c| == |ring| + 1 && c[k + 1] == ring[k].link
      && [sentinel] + LinksOf(Without(ring, k)) == c[..k + 1] + c[k + 2..]
  {}

  lemma OwnedErased(c: seq<Link>, ring: seq<Node>, k: nat)
    requires |c| == |ring| + 1 && Owned(c, ring) && k < |ring|
    ensures Owned(c[..k + 1] + c[k + 2..], Without(ring, k))
  {}

  lemma ViewMoved(hash: Key -> nat, ring: seq<Node>, chains: seq<seq<Node>>, k: nat)
    requires Coherent(hash, ring, chains) && k < |ring|
    ensures Find(View(ring), ring[k].key) == Some(ring[k].payload)
    ensures View([ring[k]] + Without(ring, k)) == AfterGet(false, View(ring), ring[k].key)
    ensures View(Without(ring, k)) == Drop(View(ring), ring[k].key)
  {
    ViewWithout(ring, k);
  }

  lemma ViewMiss(ring: seq<Node>, key: Key)
    requires forall e :: e in ring ==> e.key != key
    ensures Find(View(ring), key) == None && AfterGet(false, View(ring), key) == View(ring)
  {
    FindMiss(View(ring), key);
  }

  /** What the ring and its links become when the node at k moves to the front. */
  lemma RingMoved(hash: Key -> nat, c: seq<Link>, ring: seq<Node>, chains: seq<seq<Node>>, k: nat)
    returns (d: seq<Link>, moved: seq<Node>)
    requires c != [] && c == [c[0]] + LinksOf(ring) && Owned(c, ring)
    requires Coherent(hash, ring, chains) && k < |ring|
    ensures |c| == |ring| + 1 && c[k + 1] == ring[k].link && d == Moved(c, k + 1)
    ensures moved == [ring[k]] + Without(ring, k) && |moved| == |ring| && NodeSet(moved) == NodeSet(ring)
    ensures d == [c[0]] + LinksOf(moved) && Owned(d, moved)
    ensures Coherent(hash, moved, chains)
  {
    hide Owned, Coherent, LinksOf;
    CycleMoved(c[0], ring, k);
    d, moved := Moved(c, k + 1), [ring[k]] + Without(ring, k);
    CoherentMoved(hash, ring, chains, k);
    OwnedMoved(c, ring, k);
    NodeSetMoved(ring, k);
  }

  lemma NodeSetMoved(ring: seq<Node>, k: nat)
    requires k < |ring|
    ensures NodeSet([ring[k]] + Without(ring, k)) == NodeSet(ring)
  {}

  lemma CycleMoved(sentinel: Link, ring: seq<Node>, k: nat)
    requires k < |ring|
    ensures var c := [sentinel] + LinksOf(ring);
      && |c| == |ring| + 1 && c[0] == sentinel && c[k + 1] == ring[k].link
      && [sentinel] + LinksOf([ring[k]] + Without(ring, k)) == Moved(c, k + 1)
  {}

  lemma OwnedMoved(c: seq<Link>, ring: seq<Node>, k: nat)
    requires |c| == |ring| + 1 && Owned(c, ring) && k < |ring|
    ensures Owned(Moved(c, k + 1), [ring[k]] + Without(ring, k))
  {}
}
