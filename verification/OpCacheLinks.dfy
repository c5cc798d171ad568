/** The two intrusive lists of the operator cache: the circular recency list with
    its sentinel, and the bucket chains whose nodes point back at the pointer that
    holds them. */
module OpCacheLinks {

  // stand-ins for the template's key and value types: any type with equality
  type Key = nat
  type Payload = int

  /** ListHead: a member of a circular doubly linked list. */
  class Link {
    var prev: Link?
    var next: Link?
    // the entry this link is part of; the sentinel has none
    var owner: Node?

    constructor ()
      ensures prev == this && next == this && owner == null
    {
      prev, next, owner := this, this, null;
    }
  }

  /** The pointer that holds a chain node: a bucket head or another node's next. */
  datatype Holder = Nowhere | Bucket(index: nat) | NextOf(node: Node)

  /** An entry of the cache: key, payload, HlistNode and ListHead. */
  class Node {
    const key: Key
    const payload: Payload
    const link: Link
    var hnext: Node?
    var pprev: Holder

    constructor (k: Key, p: Payload, l: Link)
      ensures key == k && payload == p && link == l && hnext == null && pprev == Nowhere
    {
      key, payload, link, hnext, pprev := k, p, l, null, Nowhere;
    }
  }

  // ----- the recency ring -----

  ghost predicate AllDifferent<T>(s: seq<T>) {
    forall i, j :: 0 <= i < j < |s| ==> s[i] != s[j]
  }

  lemma DifferentFrom<T>(s: seq<T>, k: nat)
    requires AllDifferent(s) && k < |s|
    ensures forall i :: 0 <= i < |s| && i != k ==> s[i] != s[k]
  {}

  lemma DifferentWithout<T>(s: seq<T>, k: nat)
    requires AllDifferent(s) && k < |s|
    ensures AllDifferent(s[..k] + s[k + 1..])
  {}

  /** c is a closed ring in both directions. */
  ghost predicate Ring(c: seq<Link>)
    reads c`next, c`prev
  {
    && c != [] && AllDifferent(c)
    && (forall i :: 0 <= i < |c| - 1 ==> c[i].next == c[i + 1])
    && (forall i :: 0 < i < |c| ==> c[i].prev == c[i - 1])
    && c[|c| - 1].next == c[0] && c[0].prev == c[|c| - 1]
  }

  /** Inserts node right after head. */
  method Add(node: Link, head: Link, ghost c: seq<Link>)
    requires Ring(c) && c[0] == head && node !in c
    modifies node`prev, node`next, head`next, c`prev
    ensures Ring([head, node] + c[1..])
  {
    assert head.next == if |c| == 1 then c[0] else c[1];
    head.next.prev := node;
    node.next := head.next;
    node.prev := head;
    head.next := node;
    ghost var d := [head, node] + c[1..];
    assert forall i :: 2 <= i < |d| ==> d[i] == c[i - 1];
  }

  /** Takes the member at position k out of the ring. */
  method Del(node: Link, ghost c: seq<Link>, ghost k: nat)
    requires Ring(c) && 0 < k < |c| && c[k] == node
    modifies c`next, c`prev
    ensures Ring(c[..k] + c[k + 1..])
    ensures node.next == old(node.next) && node.prev == old(node.prev)
  {
    hide AllDifferent;
    ghost var d := c[..k] + c[k + 1..];
    assert forall i :: 0 <= i < |d| ==> d[i] == c[if i < k then i else i + 1];
    DifferentWithout(c, k);
    DifferentFrom(c, k);
    DifferentFrom(c, k - 1);
    DifferentFrom(c, if k + 1 < |c| then k + 1 else 0);
    assert c[k].prev == c[k - 1] && c[k].next == if k == |c| - 1 then c[0] else c[k + 1];
    node.next.prev := node.prev;
    node.prev.next := node.next;
  }

  /** c with its member at position k moved right behind the first one. */
  ghost function Moved(c: seq<Link>, k: nat): (d: seq<Link>)
    requires 0 < k < |c|
  {
    [c[0], c[k]] + (c[..k] + c[k + 1..])[1..]
  }

  /** Lru::Active: takes a member out and inserts it behind the sentinel. */
  method MoveBehind(node: Link, head: Link, ghost c: seq<Link>, ghost k: nat)
    requires Ring(c) && 0 < k < |c| && c[0] == head && c[k] == node
    modifies c`next, c`prev
    ensures Ring(Moved(c, k))
  {
    ghost var d := c[..k] + c[k + 1..];
    assert forall i :: 0 <= i < |d| ==> d[i] == c[if i < k then i else i + 1];
    Del(node, c, k);
    Add(node, head, d);
  }

  // ----- the bucket chains -----

  /** head is the first pointer of the chain s kept in bucket b. */
  ghost predicate Chain(head: Node?, b: nat, s: seq<Node>)
    reads s`hnext, s`pprev
  {
    && AllDifferent(s)
    && head == (if s == [] then null else s[0])
    && (forall i :: 0 <= i < |s| - 1 ==> s[i].hnext == s[i + 1])
    && (s != [] ==> s[|s| - 1].hnext == null && s[0].pprev == Bucket(b))
    && (forall i :: 0 < i < |s| ==> s[i].pprev == NextOf(s[i - 1]))
  }

  /** Pushes node in front of the chain of bucket b. */
  method HlistAdd(buckets: array<Node?>, b: nat, node: Node, ghost s: seq<Node>)
    requires b < buckets.Length && Chain(buckets[b], b, s) && node !in s
    modifies buckets, node`hnext, node`pprev, s`pprev
    ensures Chain(buckets[b], b, [node] + s)
    ensures forall i :: 0 <= i < buckets.Length && i != b ==> buckets[i] == old(buckets[i])
  {
    var first := buckets[b];
    node.hnext := first;
    if first != null {
      first.pprev := NextOf(node);
    }
    buckets[b] := node;
    node.pprev := Bucket(b);
    ghost var t := [node] + s;
    assert forall i :: 1 <= i < |t| ==> t[i] == s[i - 1];
  }

  /** Unlinks the chain member at position k through the pointer that holds it. */
  method HlistDel(buckets: array<Node?>, ghost b: nat, node: Node, ghost s: seq<Node>, ghost k: nat)
    requires b < buckets.Length && Chain(buckets[b], b, s) && k < |s| && s[k] == node
    modifies buckets, s`hnext, s`pprev
    ensures Chain(buckets[b], b, s[..k] + s[k + 1..])
    ensures forall i :: 0 <= i < buckets.Length && i != b ==> buckets[i] == old(buckets[i])
  {
    ghost var t := s[..k] + s[k + 1..];
    assert forall i :: 0 <= i < |t| ==> t[i] == s[if i < k then i else i + 1];
    assert s[k].hnext == if k == |s| - 1 then null else s[k + 1];
    assert s[k].pprev == if k == 0 then Bucket(b) else NextOf(s[k - 1]);
    var next := node.hnext;
    var pprev := node.pprev;
    match pprev {
      case Bucket(i) => buckets[i] := next;
      case NextOf(p) => p.hnext := next;
      case Nowhere =>
    }
    if next != null {
      next.pprev := pprev;
    }
  }
}
