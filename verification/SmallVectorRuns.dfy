/** Several vectors that share one pool: who owns which block over a whole run. */
module SmallVectorRuns {
  import opened SmallVectorSlots
  import opened SmallVector

  /** A mutator call on one vector. */
  datatype Mutation<T> =
    | Insert(b: nat, vs: seq<T>) | PushBack(v: T) | Erase(first: nat, last: nat) | PopBack
    | Resize(count: nat, fill: T) | Reserve(n: nat) | Assign(elements: seq<T>) | Clear

  datatype Op<T> = Mutate(i: nat, m: Mutation<T>) | Exchange(i: nat, j: nat) | Move(i: nat, j: nat)

  /** What a call demands: positions inside, and no empty insertion before the end. */
  predicate Meaningful<T>(c: seq<T>, m: Mutation<T>) {
    match m
    case Insert(b, vs) => b <= |c| && (vs != [] || b == |c|)
    case Erase(first, last) => first <= last <= |c|
    case PopBack => c != []
    case _ => true
  }

  function AfterMutation<T>(c: seq<T>, m: Mutation<T>): (r: seq<T>)
    requires Meaningful(c, m)
  {
    match m
    case Insert(b, vs) => Inserted(c, b, vs)
    case PushBack(v) => c + [v]
    case Erase(first, last) => Erased(c, first, last)
    case PopBack => c[..|c| - 1]
    case Resize(count, v) => if count < |c| then c[..count] else c + Fill(count - |c|, v)
    case Reserve(_) => c
    case Assign(vs) => vs
    case Clear => []
  }

  predicate Allowed<T>(cs: seq<seq<T>>, op: Op<T>) {
    match op
    case Mutate(i, m) => i < |cs| && Meaningful(cs[i], m)
    case Exchange(i, j) => i < |cs| && j < |cs|
    case Move(i, j) => i < |cs| && j < |cs|
  }

  /** The contents of all vectors after a call: Move(i, j) assigns vector j to vector i. */
  function AfterOp<T>(cs: seq<seq<T>>, op: Op<T>): (r: seq<seq<T>>)
    requires Allowed(cs, op)
    ensures |r| == |cs|
  {
    match op
    case Mutate(i, m) => cs[i := AfterMutation(cs[i], m)]
    case Exchange(i, j) => cs[i := cs[j]][j := cs[i]]
    case Move(i, j) => if i == j then cs else cs[i := cs[j]][j := []]
  }

  // ----- the books of the pool -----

  type Storage<T> = array<Slot<T>>

  /** The block of a vector, if it has one. */
  ghost function BlockOf<T>(h: array?<Slot<T>>): (b: set<Storage<T>>) {
    if h == null then {} else {h}
  }

  /** No two vectors have the same block. */
  ghost predicate Unshared<T>(heaps: seq<array?<Slot<T>>>) {
    forall i, j :: 0 <= i < j < |heaps| ==> heaps[i] == null || heaps[i] != heaps[j]
  }

  ghost predicate Distinct<T>(inlines: seq<Storage<T>>) {
    forall i, j :: 0 <= i < j < |inlines| ==> inlines[i] != inlines[j]
  }

  ghost predicate Known<T>(blocks: set<Storage<T>>, h: array?<Slot<T>>, inline: Storage<T>) {
    inline !in blocks && (h == null || h in blocks)
  }

  ghost predicate AllKnown<T>(blocks: set<Storage<T>>, heaps: seq<array?<Slot<T>>>, inlines: seq<Storage<T>>)
    requires |heaps| == |inlines|
  {
    forall i :: 0 <= i < |heaps| ==> Known(blocks, heaps[i], inlines[i])
  }

  ghost predicate Used<T>(heaps: seq<array?<Slot<T>>>, b: Storage<T>) {
    exists i :: 0 <= i < |heaps| && heaps[i] == b
  }

  ghost predicate AllUsed<T>(blocks: set<Storage<T>>, heaps: seq<array?<Slot<T>>>) {
    forall b :: b in blocks ==> Used(heaps, b)
  }

  /** The blocks are exactly the heaps of the vectors, no two of which are the same, and no
      inline buffer is among them. */
  ghost predicate Balanced<T>(blocks: set<Storage<T>>, heaps: seq<array?<Slot<T>>>, inlines: seq<Storage<T>>) {
    && |heaps| == |inlines| && Unshared(heaps) && Distinct(inlines)
    && AllKnown(blocks, heaps, inlines) && AllUsed(blocks, heaps)
  }

  /** A vector gives up its block and takes a new one, or none. */
  lemma BalancedChange<T>(blocks: set<Storage<T>>, heaps: seq<array?<Slot<T>>>, inlines: seq<Storage<T>>, i: nat,
                          h: array?<Slot<T>>, blocks': set<Storage<T>>)
    requires Balanced(blocks, heaps, inlines) && i < |heaps|
    requires h == null || h == heaps[i] || (h !in heaps && h !in inlines)
    requires blocks' == blocks - BlockOf(heaps[i]) + BlockOf(h)
    ensures Balanced(blocks', heaps[i := h], inlines)
  {}

  /** Two vectors exchange their blocks. */
  lemma BalancedSwap<T>(blocks: set<Storage<T>>, heaps: seq<array?<Slot<T>>>, inlines: seq<Storage<T>>, i: nat, j: nat)
    requires Balanced(blocks, heaps, inlines) && i < |heaps| && j < |heaps|
    ensures Balanced(blocks, heaps[i := heaps[j]][j := heaps[i]], inlines)
  {}

  /** A vector gives up its block and takes over that of another one. */
  lemma BalancedMove<T>(blocks: set<Storage<T>>, heaps: seq<array?<Slot<T>>>, inlines: seq<Storage<T>>, i: nat, j: nat,
                        blocks': set<Storage<T>>)
    requires Balanced(blocks, heaps, inlines) && i < |heaps| && j < |heaps| && i != j
    requires blocks' == blocks - BlockOf(heaps[i])
    ensures Balanced(blocks', heaps[i := heaps[j]][j := null], inlines)
  {}

  /** Without a block left in any vector, none is left in the pool. */
  lemma BalancedEmpty<T>(blocks: set<Storage<T>>, heaps: seq<array?<Slot<T>>>, inlines: seq<Storage<T>>)
    requires Balanced(blocks, heaps, inlines) && forall i :: 0 <= i < |heaps| ==> heaps[i] == null
    ensures blocks == {}
  {}

  /** Buffers and blocks of different vectors are different. */
  lemma BalancedApart<T>(blocks: set<Storage<T>>, heaps: seq<array?<Slot<T>>>, inlines: seq<Storage<T>>, i: nat, k: nat)
    requires Balanced(blocks, heaps, inlines) && i < |heaps| && k < |heaps| && i != k
    ensures inlines[i] != inlines[k] && inlines[i] != heaps[k] && (heaps[i] == null || heaps[i] != heaps[k])
  {}

  // ----- vectors on one pool -----

  ghost function Heaps<T>(vs: seq<SmallVector<T>>): (h: seq<array?<Slot<T>>>)
    reads vs
    ensures |h| == |vs| && forall i :: 0 <= i < |vs| ==> h[i] == vs[i].heap
  {
    if vs == [] then [] else [vs[0].heap] + Heaps(vs[1..])
  }

  ghost function Inlines<T>(vs: seq<SmallVector<T>>): (a: seq<Storage<T>>)
    ensures |a| == |vs| && forall i :: 0 <= i < |vs| ==> a[i] == vs[i].inline
  {
    if vs == [] then [] else [vs[0].inline] + Inlines(vs[1..])
  }

  /** A vector holds its contents; all of Valid that does not look at the pool. */
  ghost predicate Holding<T>(v: SmallVector<T>, c: seq<T>)
    reads v, v.inline, v.heap
  {
    && v.inline.Length == v.N && (v.heap == null <==> v.capacity == v.N)
    && (v.heap != null ==> v.heap.Length == v.capacity > v.N && AllRaw(v.inline[..]))
    && |c| == v.size <= v.capacity && Filled(v.Storage()[..], c)
  }

  /** Different vectors on one pool hold these contents, and the pool's books balance. */
  ghost predicate Owns<T>(pool: Pool<T>, n: nat, vs: seq<SmallVector<T>>, cs: seq<seq<T>>)
    reads pool, vs, Inlines(vs), set v | v in vs && v.heap != null :: v.heap
  {
    && |vs| == |cs| && (forall i, j :: 0 <= i < j < |vs| ==> vs[i] != vs[j])
    && (forall i :: 0 <= i < |vs| ==> vs[i].pool == pool && vs[i].N == n)
    && (forall i :: 0 <= i < |vs| ==> Holding(vs[i], cs[i]))
    && Balanced(pool.blocks, Heaps(vs), Inlines(vs))
  }

  lemma HoldingIsValid<T>(v: SmallVector<T>, c: seq<T>)
    requires v.inline !in v.pool.blocks && (v.heap != null ==> v.heap in v.pool.blocks)
    ensures Holding(v, c) <==> v.Valid() && v.Contents() == c
  {
    if Holding(v, c) {
      v.Holds(c);
    }
  }

  /** One mutator call. */
  method Change<T>(v: SmallVector<T>, m: Mutation<T>)
    requires v.Valid() && Meaningful(v.Contents(), m)
    modifies v`size, v`capacity, v`heap, v.Storage(), v.pool
    ensures v.Valid() && v.Contents() == AfterMutation(old(v.Contents()), m)
    ensures v.pool.faults == old(v.pool.faults) && (v.heap == null || v.heap == old(v.heap) || fresh(v.heap))
    ensures v.pool.blocks == old(v.pool.blocks) - old(v.Block()) + v.Block() && (m.Clear? ==> v.heap == null)
  {
    hide Filled, AllRaw, AllLive, Values;
    match m
    case Insert(b, vs) => v.Insert(b, vs);
    case PushBack(x) => v.PushBack(x);
    case Erase(first, last) => v.Erase(first, last);
    case PopBack => v.PopBack();
    case Resize(count, x) => v.Resize(count, x);
    case Reserve(n) => v.Reserve(n);
    case Assign(vs) => v.Assign(vs);
    case Clear => v.Clear();
  }

  /** Everything a call on these vectors may write to. */
  ghost predicate Covers<T>(owned: set<object>, pool: Pool<T>, vs: seq<SmallVector<T>>)
    reads vs
  {
    pool in owned && forall i :: 0 <= i < |vs| ==>
      vs[i] in owned && vs[i].inline in owned && (vs[i].heap != null ==> vs[i].heap in owned)
  }

  /** A mutator call on one of the vectors leaves the others alone. */
  method ChangeAlone<T>(pool: Pool<T>, n: nat, vs: seq<SmallVector<T>>, i: nat, m: Mutation<T>, ghost cs: seq<seq<T>>,
                        ghost owned: set<object>)
    requires Owns(pool, n, vs, cs) && i < |vs| && Meaningful(cs[i], m) && Covers(owned, pool, vs)
    modifies owned
    ensures pool.faults == old(pool.faults)
    ensures pool.blocks == old(pool.blocks) - old(BlockOf(vs[i].heap)) + BlockOf(vs[i].heap)
    ensures vs[i].heap == null || vs[i].heap == old(vs[i].heap) || fresh(vs[i].heap)
    ensures m.Clear? ==> vs[i].heap == null
    ensures (Known(pool.blocks, vs[i].heap, vs[i].inline) ==> Holding(vs[i], AfterMutation(cs[i], m)))
    ensures forall k :: 0 <= k < |vs| && k != i ==> vs[k].heap == old(vs[k].heap) && Holding(vs[k], cs[k])
  {
    hide Holding, AllRaw, AllLive, Values, AfterMutation, Meaningful, Balanced, SmallVector.Valid,
      SmallVector.Contents, Heaps, Inlines;
    BlocksKnown(pool, vs, i);
    HoldingIsValid(vs[i], cs[i]);
    forall k: nat | k < |vs| && k != i
      ensures vs[k] != vs[i] && vs[k].inline != vs[i].Storage() && vs[k].heap != vs[i].Storage()
    {
      BalancedApart(pool.blocks, Heaps(vs), Inlines(vs), i, k);
      BalancedApart(pool.blocks, Heaps(vs), Inlines(vs), k, i);
    }
    Change(vs[i], m);
    if Known(pool.blocks, vs[i].heap, vs[i].inline) {
      HoldingIsValid(vs[i], AfterMutation(cs[i], m));
    }
  }

  /** A mutator call on one of the vectors keeps the books balanced. */
  method ChangeOne<T>(pool: Pool<T>, n: nat, vs: seq<SmallVector<T>>, i: nat, m: Mutation<T>, ghost cs: seq<seq<T>>,
                      ghost owned: set<object>)
    requires Owns(pool, n, vs, cs) && i < |vs| && Meaningful(cs[i], m) && Covers(owned, pool, vs)
    modifies owned
    ensures Owns(pool, n, vs, cs[i := AfterMutation(cs[i], m)])
    ensures pool.faults == old(pool.faults)
    ensures forall k :: 0 <= k < |vs| && k != i ==> vs[k].heap == old(vs[k].heap)
    ensures vs[i].heap == null || vs[i].heap == old(vs[i].heap) || fresh(vs[i].heap)
    ensures m.Clear? ==> vs[i].heap == null
  {
    hide Holding, AfterMutation, Meaningful, Balanced, Heaps, Inlines, Known;
    ghost var heaps, inlines, blocks := Heaps(vs), Inlines(vs), pool.blocks;
    ChangeAlone(pool, n, vs, i, m, cs, owned);
    BalancedChange(blocks, heaps, inlines, i, vs[i].heap, pool.blocks);
    assert Heaps(vs) == heaps[i := vs[i].heap];
    BlocksKnown(pool, vs, i);
  }

  lemma BlocksKnown<T>(pool: Pool<T>, vs: seq<SmallVector<T>>, i: nat)
    requires i < |vs| && Balanced(pool.blocks, Heaps(vs), Inlines(vs))
    ensures Known(pool.blocks, vs[i].heap, vs[i].inline)
  {}

  /** Two vectors swapped: blocks change hands, and the others are left alone. */
  method SwapAlone<T>(pool: Pool<T>, n: nat, vs: seq<SmallVector<T>>, i: nat, j: nat, ghost cs: seq<seq<T>>,
                      ghost owned: set<object>)
    requires Owns(pool, n, vs, cs) && i < |vs| && j < |vs| && Covers(owned, pool, vs)
    modifies owned
    ensures pool.faults == old(pool.faults) && pool.blocks == old(pool.blocks)
    ensures vs[i].heap == old(vs[j].heap) && vs[j].heap == old(vs[i].heap)
    ensures Holding(vs[i], cs[j]) && Holding(vs[j], cs[i])
    ensures forall k :: 0 <= k < |vs| && k != i && k != j ==> vs[k].heap == old(vs[k].heap) && Holding(vs[k], cs[k])
  {
    hide Holding, AllRaw, AllLive, Values, Balanced, SmallVector.Valid, SmallVector.Contents, Heaps, Inlines;
    BlocksKnown(pool, vs, i);
    BlocksKnown(pool, vs, j);
    HoldingIsValid(vs[i], cs[i]);
    HoldingIsValid(vs[j], cs[j]);
    forall k: nat, l: nat | k < |vs| && l < |vs| && k != l
      ensures vs[k] != vs[l] && vs[k].inline != vs[l].inline && vs[k].inline != vs[l].heap
      ensures vs[k].heap == null || vs[k].heap != vs[l].heap
    {
      BalancedApart(pool.blocks, Heaps(vs), Inlines(vs), k, l);
    }
    Swap(vs[i], vs[j]);
    HoldingIsValid(vs[i], cs[j]);
    HoldingIsValid(vs[j], cs[i]);
  }

  method SwapOne<T>(pool: Pool<T>, n: nat, vs: seq<SmallVector<T>>, i: nat, j: nat, ghost cs: seq<seq<T>>,
                    ghost owned: set<object>)
    requires Owns(pool, n, vs, cs) && i < |vs| && j < |vs| && Covers(owned, pool, vs)
    modifies owned
    ensures Owns(pool, n, vs, cs[i := cs[j]][j := cs[i]])
    ensures pool.faults == old(pool.faults)
    ensures forall k :: 0 <= k < |vs| ==> vs[k].heap == null || vs[k].heap in old(Heaps(vs))
  {
    hide Holding, Balanced, Heaps, Inlines, Known;
    ghost var heaps, inlines, blocks := Heaps(vs), Inlines(vs), pool.blocks;
    SwapAlone(pool, n, vs, i, j, cs, owned);
    BalancedSwap(blocks, heaps, inlines, i, j);
    assert Heaps(vs) == heaps[i := heaps[j]][j := heaps[i]];
  }

  /** One vector move-assigned to another: its block goes, the other's is taken over. */
  method MoveAlone<T>(pool: Pool<T>, n: nat, vs: seq<SmallVector<T>>, i: nat, j: nat, ghost cs: seq<seq<T>>,
                      ghost owned: set<object>)
    requires Owns(pool, n, vs, cs) && i < |vs| && j < |vs| && Covers(owned, pool, vs)
    modifies owned
    ensures pool.faults == old(pool.faults)
    ensures pool.blocks == old(pool.blocks) - if i == j then {} else old(BlockOf(vs[i].heap))
    ensures vs[i].heap == old(vs[j].heap) && Holding(vs[i], cs[j])
    ensures i != j ==> vs[j].heap == null && Holding(vs[j], [])
    ensures forall k :: 0 <= k < |vs| && k != i && k != j ==> vs[k].heap == old(vs[k].heap) && Holding(vs[k], cs[k])
  {
    hide Holding, AllRaw, AllLive, Values, Balanced, SmallVector.Valid, SmallVector.Contents, Heaps, Inlines;
    BlocksKnown(pool, vs, i);
    BlocksKnown(pool, vs, j);
    HoldingIsValid(vs[i], cs[i]);
    HoldingIsValid(vs[j], cs[j]);
    forall k: nat, l: nat | k < |vs| && l < |vs| && k != l
      ensures vs[k] != vs[l] && vs[k].inline != vs[l].inline && vs[k].inline != vs[l].heap
      ensures vs[k].heap == null || vs[k].heap != vs[l].heap
    {
      BalancedApart(pool.blocks, Heaps(vs), Inlines(vs), k, l);
    }
    MoveAssign(vs[i], vs[j]);
    HoldingIsValid(vs[i], cs[j]);
    if i != j {
      HoldingIsValid(vs[j], []);
    }
  }

  method MoveOne<T>(pool: Pool<T>, n: nat, vs: seq<SmallVector<T>>, i: nat, j: nat, ghost cs: seq<seq<T>>,
                    ghost owned: set<object>)
    requires Owns(pool, n, vs, cs) && i < |vs| && j < |vs| && Covers(owned, pool, vs)
    modifies owned
    ensures Owns(pool, n, vs, if i == j then cs else cs[i := cs[j]][j := []])
    ensures pool.faults == old(pool.faults)
    ensures forall k :: 0 <= k < |vs| ==> vs[k].heap == null || vs[k].heap in old(Heaps(vs))
  {
    hide Holding, Balanced, Heaps, Inlines, Known;
    ghost var heaps, inlines, blocks := Heaps(vs), Inlines(vs), pool.blocks;
    MoveAlone(pool, n, vs, i, j, cs, owned);
    if i == j {
      assert Heaps(vs) == heaps && pool.blocks == blocks;
    } else {
      BalancedMove(blocks, heaps, inlines, i, j, pool.blocks);
      assert Heaps(vs) == heaps[i := heaps[j]][j := null];
    }
  }

  // ----- runs -----

  function After<T>(cs: seq<seq<T>>, ops: seq<Op<T>>): (r: seq<seq<T>>)
    requires AllAllowed(cs, ops)
    ensures |r| == |cs|
    decreases |ops|
  {
    if ops == [] then cs else After(AfterOp(cs, ops[0]), ops[1..])
  }

  predicate AllAllowed<T>(cs: seq<seq<T>>, ops: seq<Op<T>>)
    decreases |ops|
  {
    ops == [] || (Allowed(cs, ops[0]) && AllAllowed(AfterOp(cs, ops[0]), ops[1..]))
  }

  method Step<T>(pool: Pool<T>, n: nat, vs: seq<SmallVector<T>>, op: Op<T>, ghost cs: seq<seq<T>>,
                 ghost owned: set<object>)
    requires Owns(pool, n, vs, cs) && Allowed(cs, op) && Covers(owned, pool, vs)
    modifies owned
    ensures Owns(pool, n, vs, AfterOp(cs, op)) && pool.faults == old(pool.faults)
    ensures forall k :: 0 <= k < |vs| ==> vs[k].heap == null || vs[k].heap in owned || fresh(vs[k].heap)
  {
    hide Balanced, Holding, Meaningful, AfterMutation, Heaps, Inlines;
    match op
    case Mutate(i, m) => ChangeOne(pool, n, vs, i, m, cs, owned);
    case Exchange(i, j) => SwapOne(pool, n, vs, i, j, cs, owned);
    case Move(i, j) => MoveOne(pool, n, vs, i, j, cs, owned);
  }

  /** Over every run of mutators, swaps and moves on vectors that share a pool, each vector
      holds what the run makes of its contents, the pool's blocks are exactly the blocks
      of the vectors, no two of which are the same, and no lifetime rule is broken. */
  method Run<T>(pool: Pool<T>, n: nat, vs: seq<SmallVector<T>>, ops: seq<Op<T>>, ghost cs: seq<seq<T>>,
                ghost owned: set<object>)
    requires Owns(pool, n, vs, cs) && AllAllowed(cs, ops) && Covers(owned, pool, vs)
    modifies owned
    ensures Owns(pool, n, vs, After(cs, ops)) && pool.faults == old(pool.faults)
  {
    hide Owns, AfterOp, Allowed;
    ghost var now, all := cs, owned;
    var k := 0;
    assert ops[0..] == ops;
    while k < |ops|
      invariant 0 <= k <= |ops| && Owns(pool, n, vs, now) && AllAllowed(now, ops[k..])
      invariant After(now, ops[k..]) == After(cs, ops)
      invariant Covers(all, pool, vs) && fresh(all - owned) && pool.faults == old(pool.faults)
    {
      assert ops[k..][1..] == ops[k + 1..];
      Step(pool, n, vs, ops[k], now, all);
      now := AfterOp(now, ops[k]);
      all := all + set v: SmallVector<T> | v in vs && v.heap != null :: v.heap as object;
      k := k + 1;
    }
  }

  /** Once every vector has been cleared, no block is left in the pool. */
  method ClearAll<T>(pool: Pool<T>, n: nat, vs: seq<SmallVector<T>>, ghost cs: seq<seq<T>>, ghost owned: set<object>)
    requires Owns(pool, n, vs, cs) && Covers(owned, pool, vs)
    modifies owned
    ensures pool.blocks == {} && pool.faults == old(pool.faults)
    ensures Owns(pool, n, vs, Fill(|vs|, []))
  {
    hide Holding, Balanced, Heaps, Inlines, AfterMutation;
    ghost var now := cs;
    for i := 0 to |vs|
      invariant Owns(pool, n, vs, now) && Covers(owned, pool, vs) && pool.faults == old(pool.faults)
      invariant forall k :: 0 <= k < i ==> vs[k].heap == null && now[k] == []
    {
      ChangeOne(pool, n, vs, i, Clear, now, owned);
      ClearedContents(now[i]);
      now := now[i := AfterMutation(now[i], Clear)];
    }
    BalancedEmpty(pool.blocks, Heaps(vs), Inlines(vs));
    assert now == Fill(|vs|, []);
  }

  lemma ClearedContents<T>(c: seq<T>)
    ensures AfterMutation(c, Clear) == []
  {}
}
