/** SmallVector: elements inline up to a fixed count, in one heap block beyond it. */
module SmallVector {
  import opened SmallVectorSlots

  function MaxNat(a: nat, b: nat): (m: nat) { if a > b then a else b }

  /** c with vs inserted in front of position b. */
  function Inserted<T>(c: seq<T>, b: nat, vs: seq<T>): (r: seq<T>)
    requires b <= |c|
  {
    c[..b] + vs + c[b..]
  }

  /** c without positions first to last. */
  function Erased<T>(c: seq<T>, first: nat, last: nat): (r: seq<T>)
    requires first <= last <= |c|
  {
    c[..first] + c[last..]
  }

  /** The inserted elements stand at their position, erasing them gives the rest back, and
      inserting again what was erased restores the whole. */
  lemma InsertThenErase<T>(c: seq<T>, b: nat, vs: seq<T>)
    requires b <= |c|
    ensures |Inserted(c, b, vs)| == |c| + |vs| && Inserted(c, b, vs)[b..b + |vs|] == vs
    ensures Erased(Inserted(c, b, vs), b, b + |vs|) == c
  {
    assert Inserted(c, b, vs)[..b] == c[..b];
  }

  lemma EraseThenInsert<T>(c: seq<T>, first: nat, last: nat)
    requires first <= last <= |c|
    ensures |Erased(c, first, last)| == |c| - (last - first)
    ensures Inserted(Erased(c, first, last), first, c[first..last]) == c
  {}

  function Fill<T>(n: nat, v: T): (s: seq<T>)
    ensures |s| == n && forall i :: 0 <= i < n ==> s[i] == v
  {
    seq(n, _ => v)
  }

  ghost predicate AllLive<T>(s: seq<Slot<T>>) {
    forall i :: 0 <= i < |s| ==> s[i].Live?
  }

  ghost function Values<T>(s: seq<Slot<T>>): (c: seq<T>)
    requires AllLive(s)
    ensures |c| == |s| && forall i :: 0 <= i < |s| ==> s[i] == Live(c[i])
  {
    seq(|s|, i requires 0 <= i < |s| => s[i].value)
  }

  class SmallVector<T> {
    const N: nat
    const pool: Pool<T>
    const inline: array<Slot<T>>
    var size: nat
    var capacity: nat
    var heap: array?<Slot<T>>

    /** The block this vector owns. */
    ghost function Block(): (b: set<array<Slot<T>>>)
      reads this
    {
      if heap == null then {} else {heap}
    }

    function Storage(): (a: array<Slot<T>>)
      reads this
    {
      if heap == null then inline else heap
    }

    ghost predicate WellFormed()
      reads this, pool
    {
      && inline.Length == N && inline !in pool.blocks
      && (heap == null <==> capacity == N)
      && (heap != null ==> heap.Length == capacity > N && heap in pool.blocks && heap != inline)
      && size <= capacity
    }

    ghost predicate Valid()
      reads this, inline, heap, pool
    {
      && WellFormed()
      && (heap != null ==> AllRaw(inline[..]))
      && AllLive(Storage()[..size]) && AllRaw(Storage()[size..])
    }

    ghost function Contents(): (c: seq<T>)
      requires Valid()
      reads this, inline, heap, pool
      ensures |c| == size && Filled(Storage()[..], c)
    {
      Values(Storage()[..size])
    }

    /** Establishes Valid and the contents from the state of the storage. */
    lemma Holds(c: seq<T>)
      requires WellFormed() && |c| == size && Filled(Storage()[..], c)
      requires heap != null ==> AllRaw(inline[..])
      ensures Valid() && Contents() == c
    {}

    constructor (n: nat, p: Pool<T>)
      ensures Valid() && N == n && pool == p && Contents() == [] && heap == null && fresh(inline) && AllRaw(inline[..])
    {
      N, pool := n, p;
      inline := new Slot<T>[n](_ => Raw);
      size, capacity, heap := 0, n, null;
    }

    /** GetPointer(size) in raw storage of the requested size. */
    method InitStorage(n: nat)
      requires inline.Length == N && AllRaw(inline[..]) && inline !in pool.blocks
      modifies this`size, this`capacity, this`heap, pool`blocks
      ensures WellFormed() && size == n && capacity == MaxNat(n, N) && AllRaw(inline[..]) && AllRaw(Storage()[..])
      ensures heap != null ==> fresh(heap)
      ensures pool.blocks == old(pool.blocks) + Block()
    {
      size := n;
      if size > N {
        capacity := size;
        heap := pool.Allocate(capacity);
      } else {
        capacity := N;
        heap := null;
      }
    }

    method FreeStorage()
      requires heap != null ==> heap in pool.blocks && AllRaw(heap[..])
      modifies this`heap, pool
      ensures heap == null
      ensures pool.blocks == old(pool.blocks) - old(Block()) && pool.faults == old(pool.faults)
    {
      if heap != null {
        pool.Deallocate(heap);
        heap := null;
      }
    }

    /** Moves the elements to a larger block, leaving a raw gap. */
    method ExpandCap(b: nat, n: nat)
      requires Valid() && b <= size && size + n > capacity
      modifies this`capacity, this`heap, Storage(), pool
      ensures WellFormed() && capacity == MaxNat(old(capacity) * 2, size + n)
      ensures AllRaw(inline[..]) && Gapped(Storage()[..], old(Contents()), b, n)
      ensures heap != null && fresh(heap)
      ensures pool.blocks == old(pool.blocks) - old(Block()) + Block() && pool.faults == old(pool.faults)
    {
      hide Filled, Gapped, Emptied, Received, Values;
      ghost var c := Contents();
      var newCap := if capacity * 2 > size + n then capacity * 2 else size + n;
      var block := pool.Allocate(newCap);
      var from := Storage();
      ghost var s, d := from[..], block[..];
      FilledSlots(s, c);
      MoveAcross(pool, from, 0, b, block, 0);
      ghost var s1, d1 := from[..], block[..];
      MovedPart(s, s1, d, d1, b, size, n);
      MoveAcross(pool, from, b, size, block, n);
      GapFromBlocks(s, s1, from[..], d, d1, block[..], c, b, n);
      FreeStorage();
      heap := block;
      capacity := newCap;
    }

    /** Opens a gap inside the current storage. */
    method ExpandSize(b: nat, n: nat)
      requires Valid() && b <= size && size + n <= capacity
      modifies this`size, Storage(), pool`faults
      ensures WellFormed() && size == old(size) + n
      ensures heap != null ==> AllRaw(inline[..])
      ensures n > 0 || b == old(size) ==> Gapped(Storage()[..], old(Contents()), b, n)
      ensures n == 0 ==> Filled(Storage()[..], old(Contents())[..b])
      ensures pool.faults == old(pool.faults) + if n == 0 then old(size) - b else 0
    {
      hide Filled, Gapped, ShiftedUp, Values;
      ghost var c, s := Contents(), Storage()[..];
      FilledSlots(s, c);
      MoveUp(pool, Storage(), b, size, n);
      GapFromShift(s, Storage()[..], c, b, n);
      size := size + n;
    }

    /** Makes room for n elements in front of position b. */
    method Expand(b: nat, n: nat)
      requires Valid() && b <= size
      modifies this`size, this`capacity, this`heap, Storage(), pool
      ensures WellFormed() && size == old(size) + n
      ensures heap != null ==> AllRaw(inline[..])
      ensures heap == old(heap) || fresh(heap)
      ensures capacity == if old(size) + n > old(capacity) then MaxNat(old(capacity) * 2, size) else old(capacity)
      ensures n > 0 || b == old(size) ==> Gapped(Storage()[..], old(Contents()), b, n)
      ensures n == 0 ==> Filled(Storage()[..], old(Contents())[..b])
      ensures pool.blocks == old(pool.blocks) - old(Block()) + Block()
      ensures pool.faults == old(pool.faults) + if n == 0 then old(size) - b else 0
    {
      hide Filled, Gapped, Values;
      if n + size > capacity {
        ExpandCap(b, n);
        size := size + n;
      } else {
        ExpandSize(b, n);
      }
    }

    /** Destroys a range and closes the gap. */
    method Shrink(first: nat, last: nat)
      requires Valid() && first < last <= size
      modifies this`size, Storage(), pool`faults
      ensures Valid() && Contents() == Erased(old(Contents()), first, last)
      ensures pool.faults == old(pool.faults)
    {
      hide Filled, Values;
      ghost var c := Contents();
      CloseRange(pool, Storage(), first, last, size, c);
      size := first + (size - last);
      Holds(Erased(c, first, last));
    }

    // ----- public mutators -----

    /** Inserts vs in front of position b. An empty insertion before the end is the
        one that breaks the vector: it destroys every element behind b. */
    method Insert(b: nat, vs: seq<T>)
      requires Valid() && b <= size
      modifies this`size, this`capacity, this`heap, Storage(), pool
      ensures vs != [] || b == old(size) ==> Valid() && Contents() == Inserted(old(Contents()), b, vs)
      ensures vs == [] && b < old(size) ==> !Valid() && Filled(Storage()[..], old(Contents())[..b])
      ensures pool.faults == old(pool.faults) + if vs == [] then old(size) - b else 0
      ensures heap == old(heap) || fresh(heap)
      ensures pool.blocks == old(pool.blocks) - old(Block()) + Block()
    {
      hide Gapped, Constructed, Values;
      ghost var c := Contents();
      Expand(b, |vs|);
      ghost var s := Storage()[..];
      if vs != [] || b == |c| {
        GappedSlots(s, c, b, |vs|);
      }
      ConstructRange(pool, Storage(), b, vs);
      if vs != [] || b == |c| {
        FilledGap(s, Storage()[..], c, b, vs);
        Holds(Inserted(c, b, vs));
      } else {
        NothingConstructed(s, Storage()[..], b);
        LostElement(s, c, b);
      }
    }

    method PushBack(v: T)
      requires Valid()
      modifies this`size, this`capacity, this`heap, Storage(), pool
      ensures Valid() && Contents() == old(Contents()) + [v]
      ensures pool.faults == old(pool.faults) && (heap == old(heap) || fresh(heap))
      ensures pool.blocks == old(pool.blocks) - old(Block()) + Block()
    {
      hide Filled, Values;
      ghost var c := Contents();
      Insert(size, [v]);
      assert Inserted(c, |c|, [v]) == c + [v];
    }

    /** Destroys positions first to last; an empty range changes nothing. */
    method Erase(first: nat, last: nat)
      requires Valid() && first <= last <= size
      modifies this`size, Storage(), pool`faults
      ensures Valid() && Contents() == Erased(old(Contents()), first, last)
      ensures pool.faults == old(pool.faults)
    {
      hide Filled, Values;
      if first != last {
        Shrink(first, last);
      } else {
        assert Erased(Contents(), first, last) == Contents();
      }
    }

    method PopBack()
      requires Valid() && size > 0
      modifies this`size, Storage(), pool`faults
      ensures Valid() && Contents() == old(Contents())[..old(size) - 1]
      ensures pool.faults == old(pool.faults)
    {
      hide Filled, Values;
      ghost var c := Contents();
      Shrink(size - 1, size);
      assert Erased(c, |c| - 1, |c|) == c[..|c| - 1];
    }

    /** Cuts to count elements, or extends with copies of v. */
    method Resize(count: nat, v: T)
      requires Valid()
      modifies this`size, this`capacity, this`heap, Storage(), pool
      ensures Valid()
      ensures Contents() == if count < old(size) then old(Contents())[..count]
                            else old(Contents()) + Fill(count - old(size), v)
      ensures pool.faults == old(pool.faults) && (heap == old(heap) || fresh(heap))
      ensures pool.blocks == old(pool.blocks) - old(Block()) + Block()
    {
      hide Filled, Values;
      ghost var c := Contents();
      if count < size {
        Shrink(count, size);
        assert Erased(c, count, |c|) == c[..count];
      } else {
        Insert(size, Fill(count - size, v));
        assert Inserted(c, |c|, Fill(count - |c|, v)) == c + Fill(count - |c|, v);
      }
    }

    method Reserve(n: nat)
      requires Valid()
      modifies this`capacity, this`heap, Storage(), pool
      ensures Valid() && Contents() == old(Contents()) && capacity >= n
      ensures n <= old(capacity) ==> capacity == old(capacity) && heap == old(heap)
      ensures pool.faults == old(pool.faults) && (heap == old(heap) || fresh(heap))
      ensures pool.blocks == old(pool.blocks) - old(Block()) + Block()
    {
      hide Filled, Gapped, Values;
      ghost var c := Contents();
      if n > capacity {
        ExpandCap(size, n - size);
        GapAtEnd(Storage()[..], c, n - size);
        Holds(c);
      }
    }

    /** ClearElements: destroys every element and keeps the storage. */
    method ClearElements()
      requires Valid()
      modifies Storage(), pool`faults
      ensures WellFormed() && AllRaw(Storage()[..]) && AllRaw(inline[..])
      ensures pool.faults == old(pool.faults)
    {
      ghost var c, s := Contents(), Storage()[..];
      FilledSlots(s, c);
      DestroyRange(pool, Storage(), 0, size);
    }

    /** Replaces the contents. */
    method Assign(vs: seq<T>)
      requires Valid()
      modifies this`size, this`capacity, this`heap, Storage(), pool
      ensures Valid() && Contents() == vs
      ensures pool.faults == old(pool.faults) && (heap == old(heap) || fresh(heap))
      ensures pool.blocks == old(pool.blocks) - old(Block()) + Block()
    {
      hide Constructed, Values;
      ClearElements();
      if capacity < |vs| {
        FreeStorage();
        InitStorage(|vs|);
      } else {
        size := |vs|;
      }
      ghost var s := Storage()[..];
      ConstructRange(pool, Storage(), 0, vs);
      FilledFresh(s, Storage()[..], vs);
      Holds(vs);
    }

    /** Destroys every element and returns the block. */
    method Clear()
      requires Valid()
      modifies this`size, this`capacity, this`heap, Storage(), pool
      ensures Valid() && Contents() == [] && heap == null && capacity == N
      ensures pool.faults == old(pool.faults) && pool.blocks == old(pool.blocks) - old(Block())
    {
      ClearElements();
      FreeStorage();
      capacity := N;
      size := 0;
    }

    // ----- transfer between vectors -----

    /** Takes over the elements or the block of other, which is left empty. */
    method MoveFrom(other: SmallVector<T>)
      requires pool == other.pool && N == other.N && other.Valid()
      requires inline.Length == N && inline !in pool.blocks && AllRaw(inline[..]) && heap == null
      requires this != other ==> inline != other.inline
      requires this == other ==> size == 0
      modifies this, inline, other, other.inline, pool
      ensures Valid() && Contents() == old(other.Contents()) && heap == old(other.heap)
      ensures this != other ==>
        other.Valid() && other.Contents() == [] && other.heap == null && AllRaw(other.inline[..])
      ensures pool.faults == old(pool.faults) && pool.blocks == old(pool.blocks)
    {
      hide Filled, Emptied, Received, Values;
      ghost var c, s, d := other.Contents(), other.Storage()[..], inline[..];
      FilledSlots(s, c);
      size := other.size;
      capacity := other.capacity;
      if other.heap != null {
        heap := other.heap;
      } else {
        MoveAcross(pool, other.inline, 0, size, inline, 0);
        MovedAll(s, other.inline[..], d, inline[..], c, this == other);
        heap := null;
      }
      other.InitStorage(0);
      Holds(c);
      if this != other {
        NothingFilled(other.inline[..]);
        other.Holds([]);
      }
    }
  }

  /** Exchanges two vectors through a temporary, in any mix of inline and heap. */
  method Swap<T>(u: SmallVector<T>, v: SmallVector<T>)
    requires u.pool == v.pool && u.N == v.N && u.Valid() && v.Valid()
    requires u != v ==> u.inline != v.inline && (u.heap == null || u.heap != v.heap)
    modifies u, v, u.inline, v.inline, u.pool
    ensures u.Valid() && v.Valid()
    ensures u.Contents() == old(v.Contents()) && v.Contents() == old(u.Contents())
    ensures u.heap == old(v.heap) && v.heap == old(u.heap)
    ensures u.pool.faults == old(u.pool.faults) && u.pool.blocks == old(u.pool.blocks)
  {
    hide Filled, Values, AllLive, AllRaw;
    var first, second := u, v;
    if v.capacity > u.N {
      first, second := v, u;
    }
    var tmp := new SmallVector<T>(u.N, u.pool);
    tmp.MoveFrom(first);
    first.MoveFrom(second);
    second.MoveFrom(tmp);
  }

  /** Move assignment: the target's elements and block go first. */
  method MoveAssign<T>(u: SmallVector<T>, other: SmallVector<T>)
    requires u.pool == other.pool && u.N == other.N && u.Valid() && other.Valid()
    requires u != other ==> u.inline != other.inline && (u.heap == null || u.heap != other.heap)
    modifies u, u.Storage(), u.inline, other, other.inline, u.pool
    ensures u.Valid() && u.Contents() == old(other.Contents()) && u.heap == old(other.heap)
    ensures u != other ==> other.Valid() && other.Contents() == [] && other.heap == null
    ensures u.pool.faults == old(u.pool.faults)
    ensures u.pool.blocks == old(u.pool.blocks) - if u == other then {} else old(u.Block())
  {
    hide Filled, Values;
    if u != other {
      u.Clear();
      u.MoveFrom(other);
    }
  }

  lemma LostElement<T>(s: seq<Slot<T>>, c: seq<T>, b: nat)
    requires b < |c| && Filled(s, c[..b]) && |c| <= |s|
    ensures !AllLive(s[..|c|])
  {
    assert s[..|c|][b] == Raw;
  }

  lemma NothingConstructed<T>(s: seq<Slot<T>>, t: seq<Slot<T>>, b: nat)
    requires Constructed(s, t, b, [])
    ensures s == t
  {}

  lemma FilledFresh<T>(s: seq<Slot<T>>, t: seq<Slot<T>>, vs: seq<T>)
    requires AllRaw(s) && |vs| <= |s| && Constructed(s, t, 0, vs)
    ensures Filled(t, vs)
  {}

  lemma NothingFilled<T>(s: seq<Slot<T>>)
    requires AllRaw(s)
    ensures Filled(s, [])
  {}

  /** A whole vector moved between inline buffers; nothing moves onto itself. */
  lemma MovedAll<T>(s: seq<Slot<T>>, s1: seq<Slot<T>>, d: seq<Slot<T>>, d1: seq<Slot<T>>, c: seq<T>, self: bool)
    requires Filled(s, c) && |c| <= |d| && AllRaw(d) && (self ==> c == [])
    requires Emptied(s, s1, 0, |c|) && Received(d, d1, s, 0, |c|, 0)
    ensures AllRaw(s1) && Filled(d1, c)
  {}

  lemma MovedPart<T>(s: seq<Slot<T>>, s1: seq<Slot<T>>, d: seq<Slot<T>>, d1: seq<Slot<T>>, b: nat, size: nat, n: nat)
    requires b <= size <= |s| && size + n <= |d| && AllRaw(d)
    requires Emptied(s, s1, 0, b) && Received(d, d1, s, 0, b, 0)
    requires forall i :: 0 <= i < size ==> s[i].Live?
    ensures |s1| == |s| && |d1| == |d|
    ensures forall i :: b <= i < size ==> s1[i].Live? && d1[i + n].Raw?
  {}
}
