/** Raw storage for SmallVector: slots that are raw memory or hold a live element,
    an allocation pool, and the element moves the vector is built from. Every
    breach of the lifetime rules is counted. */
module SmallVectorSlots {

  datatype Slot<T> = Raw | Live(value: T)

  /** The blocks handed out and not yet returned, and the number of breaches:
      constructing over a live element, destroying or reading raw memory,
      returning a block twice or with live elements in it. */
  class Pool<T> {
    ghost var blocks: set<array<Slot<T>>>
    ghost var faults: nat

    constructor ()
      ensures blocks == {} && faults == 0
    {
      blocks, faults := {}, 0;
    }

    method Allocate(n: nat) returns (a: array<Slot<T>>)
      modifies this`blocks
      ensures fresh(a) && a.Length == n && AllRaw(a[..])
      ensures blocks == old(blocks) + {a}
    {
      a := new Slot<T>[n](_ => Raw);
      blocks := blocks + {a};
    }

    method Deallocate(a: array<Slot<T>>)
      modifies this
      ensures blocks == old(blocks) - {a}
      ensures faults == old(faults) + if a in old(blocks) && AllRaw(a[..]) then 0 else 1
    {
      if a !in blocks || !AllRaw(a[..]) {
        faults := faults + 1;
      }
      blocks := blocks - {a};
    }

    method Construct(a: array<Slot<T>>, i: nat, v: T)
      requires i < a.Length
      modifies a, this`faults
      ensures a[..] == old(a[..])[i := Live(v)]
      ensures faults == old(faults) + if old(a[i]).Live? then 1 else 0
    {
      if a[i].Live? {
        faults := faults + 1;
      }
      a[i] := Live(v);
    }

    method Destroy(a: array<Slot<T>>, i: nat)
      requires i < a.Length
      modifies a, this`faults
      ensures a[..] == old(a[..])[i := Raw]
      ensures faults == old(faults) + if old(a[i]).Raw? then 1 else 0
    {
      if a[i].Raw? {
        faults := faults + 1;
      }
      a[i] := Raw;
    }
  }

  ghost predicate AllRaw<T>(s: seq<Slot<T>>) {
    forall i :: 0 <= i < |s| ==> s[i] == Raw
  }

  /** s holds exactly the elements c in its first slots and is raw behind them. */
  ghost predicate Filled<T>(s: seq<Slot<T>>, c: seq<T>) {
    |c| <= |s| && forall i {:trigger s[i]} :: 0 <= i < |s| ==> s[i] == if i < |c| then Live(c[i]) else Raw
  }

  /** s holds the elements c with a raw gap of n slots in front of c[b]. */
  ghost predicate Gapped<T>(s: seq<Slot<T>>, c: seq<T>, b: nat, n: nat) {
    b <= |c| && |c| + n <= |s| &&
    forall i {:trigger s[i]} :: 0 <= i < |s| ==>
      s[i] == if i < b then Live(c[i]) else if i < b + n then Raw else if i < |c| + n then Live(c[i - n]) else Raw
  }

  // ----- effects of the moves, slot by slot -----

  ghost predicate Emptied<T>(s: seq<Slot<T>>, t: seq<Slot<T>>, lo: nat, hi: nat) {
    |t| == |s| && forall i {:trigger t[i]} :: 0 <= i < |s| ==> t[i] == if lo <= i < hi then Raw else s[i]
  }

  ghost predicate Received<T>(s: seq<Slot<T>>, t: seq<Slot<T>>, src: seq<Slot<T>>, lo: nat, hi: nat, off: nat)
    requires hi <= |src|
  {
    |t| == |s| && forall i {:trigger t[i]} :: 0 <= i < |s| ==>
      t[i] == if lo + off <= i < hi + off then src[i - off] else s[i]
  }

  ghost predicate ShiftedDown<T>(s: seq<Slot<T>>, t: seq<Slot<T>>, lo: nat, hi: nat, d: nat)
    requires d <= lo <= hi <= |s|
  {
    |t| == |s| && forall i {:trigger t[i]} :: 0 <= i < |s| ==>
      t[i] == if lo - d <= i < hi - d then s[i + d] else if hi - d <= i < hi then Raw else s[i]
  }

  ghost predicate ShiftedUp<T>(s: seq<Slot<T>>, t: seq<Slot<T>>, lo: nat, hi: nat, d: nat)
    requires lo <= hi && hi + d <= |s|
  {
    |t| == |s| && forall i {:trigger t[i]} :: 0 <= i < |s| ==>
      t[i] == if lo <= i < (if d == 0 then hi else lo + d) then Raw
              else if lo + d <= i < hi + d then s[i - d] else s[i]
  }

  ghost predicate Constructed<T>(s: seq<Slot<T>>, t: seq<Slot<T>>, b: nat, vs: seq<T>) {
    |t| == |s| && forall i {:trigger t[i]} :: 0 <= i < |s| ==>
      t[i] == if b <= i < b + |vs| then Live(vs[i - b]) else s[i]
  }

  /** A larger block that received both parts of a full storage has a gap. */
  lemma GapFromBlocks<T>(s: seq<Slot<T>>, s1: seq<Slot<T>>, s2: seq<Slot<T>>, d: seq<Slot<T>>, d1: seq<Slot<T>>,
                         d2: seq<Slot<T>>, c: seq<T>, b: nat, n: nat)
    requires Filled(s, c) && b <= |c| && AllRaw(d) && |c| + n <= |d|
    requires Emptied(s, s1, 0, b) && Received(d, d1, s, 0, b, 0)
    requires Emptied(s1, s2, b, |c|) && Received(d1, d2, s1, b, |c|, n)
    ensures AllRaw(s2) && Gapped(d2, c, b, n)
  {}

  lemma GapFromShift<T>(s: seq<Slot<T>>, t: seq<Slot<T>>, c: seq<T>, b: nat, n: nat)
    requires Filled(s, c) && b <= |c| && |c| + n <= |s| && ShiftedUp(s, t, b, |c|, n)
    ensures n > 0 || b == |c| ==> Gapped(t, c, b, n)
    ensures n == 0 ==> Filled(t, c[..b])
  {}

  lemma FilledGap<T>(s: seq<Slot<T>>, t: seq<Slot<T>>, c: seq<T>, b: nat, vs: seq<T>)
    requires Gapped(s, c, b, |vs|) && Constructed(s, t, b, vs)
    ensures Filled(t, c[..b] + vs + c[b..])
  {}

  lemma ErasedRange<T>(s: seq<Slot<T>>, s1: seq<Slot<T>>, t: seq<Slot<T>>, c: seq<T>, first: nat, last: nat)
    requires Filled(s, c) && first < last <= |c|
    requires Emptied(s, s1, first, last) && ShiftedDown(s1, t, last, |c|, last - first)
    ensures Filled(t, c[..first] + c[last..])
  {}

  lemma FilledSlots<T>(s: seq<Slot<T>>, c: seq<T>)
    requires Filled(s, c)
    ensures |c| <= |s|
    ensures forall i :: 0 <= i < |c| ==> s[i].Live?
    ensures forall i :: |c| <= i < |s| ==> s[i].Raw?
  {}

  lemma GappedSlots<T>(s: seq<Slot<T>>, c: seq<T>, b: nat, n: nat)
    requires Gapped(s, c, b, n)
    ensures b + n <= |s| && forall i :: b <= i < b + n ==> s[i].Raw?
  {}

  /** A gap behind the last element is no gap. */
  lemma GapAtEnd<T>(s: seq<Slot<T>>, c: seq<T>, n: nat)
    requires Gapped(s, c, |c|, n)
    ensures Filled(s, c)
  {}

  // ----- the moves -----

  /** Moves src[i] to dst[i + off] for lo <= i < hi, between two blocks. */
  method MoveAcross<T>(pool: Pool<T>, src: array<Slot<T>>, lo: nat, hi: nat, dst: array<Slot<T>>, off: nat)
    requires lo <= hi <= src.Length && hi + off <= dst.Length && (lo < hi ==> src != dst)
    requires forall i :: lo <= i < hi ==> src[i].Live? && dst[i + off].Raw?
    modifies src, dst, pool`faults
    ensures pool.faults == old(pool.faults)
    ensures Emptied(old(src[..]), src[..], lo, hi)
    ensures Received(old(dst[..]), dst[..], old(src[..]), lo, hi, off)
  {
    for i := lo to hi
      invariant pool.faults == old(pool.faults)
      invariant forall k :: 0 <= k < src.Length ==> src[k] == if lo <= k < i then Raw else old(src[k])
      invariant forall k :: 0 <= k < dst.Length ==>
        dst[k] == if lo + off <= k < i + off then old(src[k - off]) else old(dst[k])
    {
      var v := src[i].value;
      pool.Construct(dst, i + off, v);
      pool.Destroy(src, i);
    }
  }

  /** Moves a[i] to a[i - d] for lo <= i < hi, from the low end. */
  method MoveDown<T>(pool: Pool<T>, a: array<Slot<T>>, lo: nat, hi: nat, d: nat)
    requires 0 < d <= lo <= hi <= a.Length
    requires forall i :: lo <= i < hi ==> a[i].Live?
    requires forall i :: lo - d <= i < lo ==> a[i].Raw?
    modifies a, pool`faults
    ensures pool.faults == old(pool.faults)
    ensures ShiftedDown(old(a[..]), a[..], lo, hi, d)
  {
    for i := lo to hi
      invariant pool.faults == old(pool.faults)
      invariant forall k :: 0 <= k < a.Length ==>
        a[k] == if lo - d <= k < i - d then old(a[k + d]) else if i - d <= k < i then Raw else old(a[k])
    {
      var v := a[i].value;
      pool.Construct(a, i - d, v);
      pool.Destroy(a, i);
    }
  }

  /** Moves a[i] to a[i + d] for lo <= i < hi, from the high end. With d zero each
      element is constructed over itself and then destroyed. */
  method MoveUp<T>(pool: Pool<T>, a: array<Slot<T>>, lo: nat, hi: nat, d: nat)
    requires lo <= hi && hi + d <= a.Length
    requires forall i :: lo <= i < hi ==> a[i].Live?
    requires forall i :: hi <= i < hi + d ==> a[i].Raw?
    modifies a, pool`faults
    ensures pool.faults == old(pool.faults) + if d == 0 then hi - lo else 0
    ensures ShiftedUp(old(a[..]), a[..], lo, hi, d)
  {
    var i := hi;
    while i > lo
      invariant lo <= i <= hi
      invariant pool.faults == old(pool.faults) + if d == 0 then hi - i else 0
      invariant forall k :: 0 <= k < a.Length ==>
        a[k] == if i <= k < (if d == 0 then hi else i + d) then Raw
                else if i + d <= k < hi + d then old(a[k - d]) else old(a[k])
    {
      var v := a[i - 1].value;
      pool.Construct(a, i - 1 + d, v);
      pool.Destroy(a, i - 1);
      i := i - 1;
    }
  }

  method DestroyRange<T>(pool: Pool<T>, a: array<Slot<T>>, lo: nat, hi: nat)
    requires lo <= hi <= a.Length && forall i :: lo <= i < hi ==> a[i].Live?
    modifies a, pool`faults
    ensures pool.faults == old(pool.faults)
    ensures Emptied(old(a[..]), a[..], lo, hi)
  {
    for i := lo to hi
      invariant pool.faults == old(pool.faults)
      invariant forall k :: 0 <= k < a.Length ==> a[k] == if lo <= k < i then Raw else old(a[k])
    {
      pool.Destroy(a, i);
    }
  }

  /** Constructs the elements vs in consecutive raw slots from b. */
  method ConstructRange<T>(pool: Pool<T>, a: array<Slot<T>>, b: nat, vs: seq<T>)
    requires b + |vs| <= a.Length && forall i :: b <= i < b + |vs| ==> a[i].Raw?
    modifies a, pool`faults
    ensures pool.faults == old(pool.faults)
    ensures Constructed(old(a[..]), a[..], b, vs)
  {
    for k := 0 to |vs|
      invariant pool.faults == old(pool.faults)
      invariant forall i :: 0 <= i < a.Length ==> a[i] == if b <= i < b + k then Live(vs[i - b]) else old(a[i])
    {
      pool.Construct(a, b + k, vs[k]);
    }
  }

  lemma EmptiedSlots<T>(s: seq<Slot<T>>, t: seq<Slot<T>>, first: nat, last: nat, size: nat)
    requires Emptied(s, t, first, last) && first <= last <= size <= |s|
    requires forall i :: 0 <= i < size ==> s[i].Live?
    ensures forall i :: last <= i < size ==> t[i].Live?
    ensures forall i :: first <= i < last ==> t[i].Raw?
  {}

  /** Destroys first to last of size elements and moves the rest down. */
  method CloseSlots<T>(pool: Pool<T>, a: array<Slot<T>>, first: nat, last: nat, size: nat)
      returns (ghost s1: seq<Slot<T>>)
    requires first < last <= size <= a.Length && forall i :: 0 <= i < size ==> a[i].Live?
    modifies a, pool`faults
    ensures pool.faults == old(pool.faults) && |s1| == a.Length
    ensures Emptied(old(a[..]), s1, first, last) && ShiftedDown(s1, a[..], last, size, last - first)
  {
    hide ShiftedDown, Emptied;
    ghost var s := a[..];
    DestroyRange(pool, a, first, last);
    s1 := a[..];
    EmptiedSlots(s, s1, first, last, size);
    MoveDown(pool, a, last, size, last - first);
  }

  /** The same on storage filled with the elements c. */
  method CloseRange<T>(pool: Pool<T>, a: array<Slot<T>>, first: nat, last: nat, size: nat, ghost c: seq<T>)
    requires Filled(a[..], c) && |c| == size && first < last <= size
    modifies a, pool`faults
    ensures pool.faults == old(pool.faults) && Filled(a[..], c[..first] + c[last..])
  {
    hide Filled, ShiftedDown, Emptied;
    ghost var s := a[..];
    FilledSlots(s, c);
    ghost var s1 := CloseSlots(pool, a, first, last, size);
    ErasedRange(s, s1, a[..], c, first, last);
  }
}
