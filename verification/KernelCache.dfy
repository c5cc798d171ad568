/** The kernel cache: a list of nodes and a map of list iterators. A node keeps
    its identity while it stays in the list, so an iterator is a node identity. */
module KernelCache {
  import opened CachePolicy
  import opened Wrappers

  datatype Node<V> = Node(id: nat, key: nat, value: V)

  function EntriesOf<V>(nodes: seq<Node<V>>): (es: seq<Entry<V>>)
    ensures |es| == |nodes|
  {
    if nodes == [] then [] else [Entry(nodes[0].key, nodes[0].value)] + EntriesOf(nodes[1..])
  }

  predicate Has<V>(nodes: seq<Node<V>>, id: nat) {
    exists i :: 0 <= i < |nodes| && nodes[i].id == id
  }

  /** The place in the list of the node an iterator denotes. */
  function Where<V>(nodes: seq<Node<V>>, id: nat): (p: nat)
    requires Has(nodes, id)
    ensures p < |nodes| && nodes[p].id == id
  {
    if nodes[0].id == id then 0 else
      assert exists i :: 0 < i < |nodes| && nodes[i].id == id && nodes[1..][i - 1].id == id;
      1 + Where(nodes[1..], id)
  }

  ghost predicate HasKey<V>(nodes: seq<Node<V>>, k: nat) {
    exists i :: 0 <= i < |nodes| && nodes[i].key == k
  }

  /** Node identities and keys do not repeat. */
  ghost predicate Unique<V>(nodes: seq<Node<V>>) {
    forall i, j :: 0 <= i < j < |nodes| ==> nodes[i].id != nodes[j].id && nodes[i].key != nodes[j].key
  }

  /** Every iterator denotes the node that holds its key, and every node has one. */
  ghost predicate Linked<V>(nodes: seq<Node<V>>, iters: map<nat, nat>) {
    && (forall i :: 0 <= i < |nodes| ==> nodes[i].key in iters && iters[nodes[i].key] == nodes[i].id)
    && (forall k :: k in iters ==> HasKey(nodes, k))
  }

  lemma EntriesAt<V>(nodes: seq<Node<V>>, p: nat, v: V)
    requires Unique(nodes) && p < |nodes|
    ensures var k, es := nodes[p].key, EntriesOf(nodes);
      && Find(es, k) == Some(nodes[p].value)
      && Drop(es, k) == EntriesOf(nodes[..p] + nodes[p + 1..])
      && Update(es, k, v) == EntriesOf(nodes[p := Node(nodes[p].id, k, v)])
  {
    hide Drop, Update, EntriesOf, Find;
    var es := EntriesOf(nodes);
    EntriesIndex(nodes);
    FindAt(es, p);
    UpdateAt(es, p, v);
    var erased, updated := nodes[..p] + nodes[p + 1..], nodes[p := Node(nodes[p].id, nodes[p].key, v)];
    EntriesIndex(erased);
    EntriesIndex(updated);
    assert EntriesOf(erased) == es[..p] + es[p + 1..];
    assert EntriesOf(updated) == es[p := Entry(nodes[p].key, v)];
  }

  lemma {:induction false} EntriesIndex<V>(nodes: seq<Node<V>>)
    ensures forall i :: 0 <= i < |nodes| ==> EntriesOf(nodes)[i] == Entry(nodes[i].key, nodes[i].value)
  {
    if nodes != [] {
      EntriesIndex(nodes[1..]);
    }
  }

  lemma {:induction false} EntriesMiss<V>(nodes: seq<Node<V>>, k: nat)
    requires forall i :: 0 <= i < |nodes| ==> nodes[i].key != k
    ensures Find(EntriesOf(nodes), k) == None
  {
    if nodes != [] {
      EntriesMiss(nodes[1..], k);
      assert EntriesOf(nodes)[1..] == EntriesOf(nodes[1..]);
    }
  }

  lemma {:induction false} EntriesPrefix<V>(nodes: seq<Node<V>>, n: nat)
    requires n <= |nodes|
    ensures EntriesOf(nodes[..n]) == EntriesOf(nodes)[..n]
  {
    if n > 0 {
      EntriesPrefix(nodes[1..], n - 1);
      assert nodes[..n][1..] == nodes[1..][..n - 1];
    }
  }

  lemma EntriesCons<V>(node: Node<V>, nodes: seq<Node<V>>)
    ensures EntriesOf([node] + nodes) == [Entry(node.key, node.value)] + EntriesOf(nodes)
  {}

  class Cache<V> {
    var sessFlag: bool
    var capacity: nat
    var nodes: seq<Node<V>>
    var iters: map<nat, nat>
    var nextId: nat

    ghost predicate Valid()
      reads this
    {
      && Unique(nodes) && Linked(nodes, iters)
      && forall i :: 0 <= i < |nodes| ==> nodes[i].id < nextId
    }

    ghost function Entries(): (es: seq<Entry<V>>)
      reads this
    {
      EntriesOf(nodes)
    }

    constructor (session: bool, cap: nat)
      ensures Valid() && sessFlag == session && capacity == cap && Entries() == []
    {
      sessFlag, capacity, nodes, iters, nextId := session, cap, [], map[], 0;
    }

    method GetCache(key: nat) returns (r: Option<V>)
      requires Valid()
      modifies this`nodes, this`iters, this`nextId
      ensures Valid()
      ensures r == Find(old(Entries()), key)
      ensures Entries() == AfterGet(sessFlag, old(Entries()), key)
    {
      if key in iters {
        KnownNode(nodes, iters, key);
        var p := Where(nodes, iters[key]);
        EntriesAt(nodes, p, nodes[p].value);
        r := Some(nodes[p].value);
        if !sessFlag {
          MoveToFront(p);
        }
      } else {
        EntriesMiss(nodes, key);
        r := None;
      }
    }

    method SetCache(key: nat, value: V)
      requires Valid()
      modifies this`nodes, this`iters, this`nextId
      ensures Valid()
      ensures Entries() == AfterSet(sessFlag, capacity, old(Entries()), key, value)
    {
      hide EntriesOf, Drop, Update, Unique, Linked;
      FoundIffKnown(nodes, iters, key);
      if key in iters {
        UpdateKnown(key, value);
      } else {
        if capacity < |nodes| {
          PopBack();
        }
        PushFront(key, value);
      }
    }

    /** The value of a key that is present is replaced in place. */
    method UpdateKnown(key: nat, value: V)
      requires Valid() && key in iters
      modifies this`nodes, this`iters, this`nextId
      ensures Valid()
      ensures Entries() == if sessFlag then Update(old(Entries()), key, value)
                           else [Entry(key, value)] + Drop(old(Entries()), key)
    {
      hide EntriesOf, Find, Drop, Update, Unique, Linked, Where, Has;
      KnownNode(nodes, iters, key);
      var p := Where(nodes, iters[key]);
      EntriesAt(nodes, p, value);
      UpdatedDrop(nodes, iters, p, value);
      nodes := nodes[p := Node(nodes[p].id, key, value)];
      if !sessFlag {
        MoveToFront(p);
      }
    }

    /** Erases the node at p and pushes a copy of it to the front. */
    method MoveToFront(p: nat)
      requires Valid() && p < |nodes|
      modifies this`nodes, this`iters, this`nextId
      ensures Valid()
      ensures Entries() == [Entry(old(nodes[p].key), old(nodes[p].value))] + Drop(old(Entries()), old(nodes[p].key))
    {
      hide EntriesOf, Drop;
      EntriesAt(nodes, p, nodes[p].value);
      LinkedErased(nodes, iters, p);
      var pair := nodes[p];
      nodes := nodes[..p] + nodes[p + 1..];
      LinkedPushed(nodes, iters - {pair.key}, Node(nextId, pair.key, pair.value));
      EntriesCons(Node(nextId, pair.key, pair.value), nodes);
      nodes := [Node(nextId, pair.key, pair.value)] + nodes;
      assert iters[pair.key := nextId] == (iters - {pair.key})[pair.key := nextId];
      iters := iters[pair.key := nextId];
      nextId := nextId + 1;
    }

    method PushFront(key: nat, value: V)
      requires Valid() && key !in iters
      modifies this`nodes, this`iters, this`nextId
      ensures Valid() && Entries() == [Entry(key, value)] + old(Entries())
    {
      EntriesCons(Node(nextId, key, value), nodes);
      nodes := [Node(nextId, key, value)] + nodes;
      iters := iters[key := nextId];
      nextId := nextId + 1;
      LinkedPushed(old(nodes), old(iters), nodes[0]);
    }

    method PopBack()
      requires Valid() && nodes != []
      modifies this`nodes, this`iters
      ensures Valid() && Entries() == old(Entries())[..|old(Entries())| - 1]
      ensures iters.Keys <= old(iters.Keys)
    {
      hide EntriesOf, Unique;
      EntriesPrefix(nodes, |nodes| - 1);
      LinkedErased(nodes, iters, |nodes| - 1);
      assert nodes[..|nodes| - 1] + nodes[|nodes|..] == nodes[..|nodes| - 1];
      var delKey := nodes[|nodes| - 1].key;
      nodes := nodes[..|nodes| - 1];
      if delKey in iters {
        iters := iters - {delKey};
      }
    }
  }

  /** The iterator of a key leads to the node with that key. */
  lemma KnownNode<V>(nodes: seq<Node<V>>, iters: map<nat, nat>, key: nat)
    requires Unique(nodes) && Linked(nodes, iters) && key in iters
    ensures Has(nodes, iters[key]) && nodes[Where(nodes, iters[key])].key == key
  {
    assert HasKey(nodes, key);
    var i :| 0 <= i < |nodes| && nodes[i].key == key;
    assert nodes[i].id == iters[key];
  }

  /** A key has an entry exactly if it has an iterator, and there are as many entries as
      nodes. */
  lemma FoundIffKnown<V>(nodes: seq<Node<V>>, iters: map<nat, nat>, key: nat)
    requires Unique(nodes) && Linked(nodes, iters)
    ensures Find(EntriesOf(nodes), key).Some? <==> key in iters
  {
    if key in iters {
      assert HasKey(nodes, key);
      var i :| 0 <= i < |nodes| && nodes[i].key == key;
      EntriesAt(nodes, i, nodes[i].value);
    } else {
      EntriesMiss(nodes, key);
    }
  }

  lemma UpdatedDrop<V>(nodes: seq<Node<V>>, iters: map<nat, nat>, p: nat, v: V)
    requires Unique(nodes) && Linked(nodes, iters) && p < |nodes|
    ensures var nodes' := nodes[p := Node(nodes[p].id, nodes[p].key, v)];
      && Unique(nodes') && Linked(nodes', iters)
      && Drop(EntriesOf(nodes'), nodes[p].key) == Drop(EntriesOf(nodes), nodes[p].key)
  {
    var nodes' := nodes[p := Node(nodes[p].id, nodes[p].key, v)];
    EntriesAt(nodes, p, v);
    EntriesAt(nodes', p, v);
    assert nodes'[..p] + nodes'[p + 1..] == nodes[..p] + nodes[p + 1..];
    forall k | k in iters ensures HasKey(nodes', k) {
      assert HasKey(nodes, k);
      var i :| 0 <= i < |nodes| && nodes[i].key == k;
      assert nodes'[i].key == k;
    }
  }

  lemma LinkedErased<V>(nodes: seq<Node<V>>, iters: map<nat, nat>, p: nat)
    requires Unique(nodes) && Linked(nodes, iters) && p < |nodes|
    ensures var rest := nodes[..p] + nodes[p + 1..];
      && Unique(rest) && Linked(rest, iters - {nodes[p].key})
      && forall i :: 0 <= i < |rest| ==> rest[i] in nodes
  {
    hide Unique, Linked, HasKey;
    var rest := nodes[..p] + nodes[p + 1..];
    assert forall i :: 0 <= i < |rest| ==> rest[i] == nodes[if i < p then i else i + 1];
    UniqueErased(nodes, rest, p);
    IteratorsErased(nodes, rest, iters, p);
    KeysErased(nodes, rest, iters, p);
    LinkedIf(rest, iters - {nodes[p].key});
  }

  lemma LinkedIf<V>(nodes: seq<Node<V>>, iters: map<nat, nat>)
    requires forall i :: 0 <= i < |nodes| ==> nodes[i].key in iters && iters[nodes[i].key] == nodes[i].id
    requires forall k :: k in iters ==> HasKey(nodes, k)
    ensures Linked(nodes, iters)
  {}

  lemma UniqueErased<V>(nodes: seq<Node<V>>, rest: seq<Node<V>>, p: nat)
    requires Unique(nodes) && p < |nodes| == |rest| + 1
    requires forall i :: 0 <= i < |rest| ==> rest[i] == nodes[if i < p then i else i + 1]
    ensures Unique(rest)
  {}

  lemma IteratorsErased<V>(nodes: seq<Node<V>>, rest: seq<Node<V>>, iters: map<nat, nat>, p: nat)
    requires Unique(nodes) && Linked(nodes, iters) && p < |nodes| == |rest| + 1
    requires forall i :: 0 <= i < |rest| ==> rest[i] == nodes[if i < p then i else i + 1]
    ensures var left := iters - {nodes[p].key};
      forall i :: 0 <= i < |rest| ==> rest[i].key in left && left[rest[i].key] == rest[i].id
  {
    hide HasKey;
    forall i | 0 <= i < |rest| ensures rest[i].key in iters && rest[i].key != nodes[p].key {
      assert rest[i] == nodes[if i < p then i else i + 1];
    }
  }

  lemma KeysErased<V>(nodes: seq<Node<V>>, rest: seq<Node<V>>, iters: map<nat, nat>, p: nat)
    requires Linked(nodes, iters) && p < |nodes| == |rest| + 1
    requires forall i :: 0 <= i < |rest| ==> rest[i] == nodes[if i < p then i else i + 1]
    ensures forall k :: k in iters - {nodes[p].key} ==> HasKey(rest, k)
  {
    forall k | k in iters - {nodes[p].key} ensures HasKey(rest, k) {
      assert HasKey(nodes, k);
      var i :| 0 <= i < |nodes| && nodes[i].key == k;
      assert rest[if i < p then i else i - 1].key == k;
    }
  }

  lemma LinkedPushed<V>(nodes: seq<Node<V>>, iters: map<nat, nat>, node: Node<V>)
    requires Unique(nodes) && Linked(nodes, iters) && node.key !in iters
    requires forall i :: 0 <= i < |nodes| ==> nodes[i].id < node.id
    ensures Unique([node] + nodes) && Linked([node] + nodes, iters[node.key := node.id])
  {
    var pushed, iters' := [node] + nodes, iters[node.key := node.id];
    assert forall i :: 0 < i < |pushed| ==> pushed[i] == nodes[i - 1];
    forall k | k in iters' ensures HasKey(pushed, k) {
      if k == node.key {
        assert pushed[0].key == k;
      } else {
        assert HasKey(nodes, k);
        var i :| 0 <= i < |nodes| && nodes[i].key == k;
        assert pushed[i + 1].key == k;
      }
    }
  }

  /** Any run of the class is a run of the policy. */
  method Execute<V>(session: bool, capacity: nat, ops: seq<Op<V>>) returns (c: Cache<V>, hits: seq<Option<V>>)
    ensures c.Valid() && c.Entries() == Run(session, capacity, ops)
    ensures |hits| == |ops|
    ensures forall i :: 0 <= i < |ops| ==>
      hits[i] == if ops[i].Get? then Find(Run(session, capacity, ops[..i]), ops[i].key) else None
  {
    hide EntriesOf, Unique, Linked, AfterGet, AfterSet, Run, Find;
    c := new Cache(session, capacity);
    hits := [];
    RunStarts<V>(session, capacity);
    for i := 0 to |ops|
      invariant c.Valid() && c.sessFlag == session && c.capacity == capacity && fresh(c)
      invariant c.Entries() == Run(session, capacity, ops[..i])
      invariant |hits| == i
      invariant forall j :: 0 <= j < i ==>
        hits[j] == if ops[j].Get? then Find(Run(session, capacity, ops[..j]), ops[j].key) else None
    {
      RunGoesOn(session, capacity, ops, i);
      match ops[i]
      case Get(k) =>
        var r := c.GetCache(k);
        hits := hits + [r];
      case Set(k, v) =>
        c.SetCache(k, v);
        hits := hits + [None];
    }
    assert ops[..|ops|] == ops;
  }

  lemma RunStarts<V>(session: bool, capacity: nat)
    ensures Run<V>(session, capacity, []) == []
  {}

  lemma RunGoesOn<V>(session: bool, capacity: nat, ops: seq<Op<V>>, i: nat)
    requires i < |ops|
    ensures Run(session, capacity, ops[..i + 1]) == Apply(session, capacity, Run(session, capacity, ops[..i]), ops[i])
  {
    assert ops[..i + 1][..i] == ops[..i] && ops[..i + 1][i] == ops[i];
  }
}
