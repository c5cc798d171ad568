# Verified model of the Ascend operator base library

A Dafny model of the self-contained algorithms of the operator base library, with
proofs of what they promise. `dafny verify dfyconfig.toml` checks the whole project.

| module | models | main results |
|---|---|---|
| `Shapes`, `BroadcastIndex`, `BcastTables`, `Bcast` | the broadcast index engine | stride lookup on collapsed shapes equals naive right-aligned broadcasting; the table builder equals the lookup |
| `OpCacheLinks`, `OpCacheSizing`, `OpCacheContainer`, `OpCacheRuns` | the operator cache: intrusive hash chains threaded through a recency ring | every operation keeps all links and refines a recency list; contents and iteration order follow from the call history; when bucket arrays are freed exactly once |
| `CachePolicy`, `KernelCache` | the kernel cache: a list plus a map of iterators | exact residency over every run, as LRU and as FIFO |
| `SessionCache` | the registry of kernel caches | exact residency over every run; exactly when its two indexes stay consistent; every id leads to its own cache, the one its creation returned |
| `SmallVectorSlots`, `SmallVector`, `SmallVectorRuns` | a vector with inline and heap storage | every mutator refines the sequence operation and keeps the lifetime rules; swap and move in every mix of storage; over every run of several vectors on one pool, the blocks in use are exactly theirs |
| `OneDimTiling`, `OneDimKernel` | host tiling and kernel of a one-dimensional broadcast | every output element is written exactly once with the right value; rebalancing is sound exactly when a tile survives |
| `Strides`, `BroadcastCollapse`, `CollapseExact` | the host's collapse of any number of inputs and the output | exactly when the collapsed strides address the naive broadcast source of every output element; then nothing more can be joined |
| `BroadcastTiling`, `TileAddressing` | host tiling of a multi-dimensional broadcast | the largest tile of buffers that fill the local memory; the tiles of all cores follow each other from zero to the end |
| `AxesIndices`, `NddmaCopy`, `NddmaSchedule` | the multi-dimensional kernel: index arithmetic in place, strided loads, tile loop | every output element is written exactly once, from the addressed operands; skipping a reload is never visible |
| `BroadcastOperator` | collapse, tiling and kernel together | whenever the host accepts and the collapse loses nothing, the output is the naive broadcast computation, in one and in several dimensions |
| `Notification` | the one-shot notification of an asynchronous kernel | safety, progress and lifetime over every interleaving |
| `InferBroadcast`, `InferReduce` | shape inference | soundness and exactness against concrete broadcasting; agreement of the two reduce variants |
| `ExtInfo`, `CustLog` | launch parameters and log workspace | exactly when the record walk ends, what the message holds for any records, and agreement of the two walkers; interleaved log writes of all blocks |

Classes stand for the objects the code updates in place; their methods are specified
against functions on values (`Run`, `Join`, `Table`, `Fold`, ...), and the theorems are
lemmas about those functions. `Wrappers` and `Arith` hold shared types and arithmetic, and
`KernelMemory` the local buffers and the output memory of the two kernels. Breaches of the
lifetime rules of raw memory are counted in `SmallVectorSlots.Pool.faults` and shown not to
happen.

Where a promise turns out not to hold for every input, the code is modelled as it is, a
member names an input, and another gives the exact condition:

| promise | exact condition | input |
|---|---|---|
| the bucket array is freed once | `OpCacheRuns.FreedOnceIff`, `OpCacheRuns.FreedOnceIffNeverCleared` | `OpCacheRuns.ClearThenDestroy` |
| the sizing of the buckets ends | `OpCacheSizing.BucketCount` with `OpCacheSizing.SizingDiverges` | every capacity from twice the last prime |
| both broadcast entry points want the same output | `Bcast.EntryPointsAgreeIff` | `Bcast.EmptyDimensionDisagrees` |
| table entries lie inside the inputs | `Bcast.TablesInsideIff` | `Bcast.EmptyDimensionDisagrees` |
| a table has one entry per output element | `BcastTables.TableLengthExact`, `BcastTables.AppendLengthExact` | `BcastTables.EmptyOutputExample` |
| the session indexes stay consistent | `SessionCache.RunConsistentIff` | `SessionCache.FailedCreationExample` |
| insertion inserts | `SmallVector.SmallVector.Insert` | every empty insertion before the end |
| the collapse keeps every address | `CollapseExact.CollapseRightIff` | `CollapseExact.LossExample` |
| the host refuses a buffer too small for a tile | `OneDimTiling.NegativeTileIff` | `OneDimTiling.NegativeTileExample` |
| rebalancing leaves a tile | `OneDimTiling.RebalancingSound` | `OneDimTiling.EmptyTileExample` |
| the object outlives its notifiers | `Notification.LifetimeSafeIffSingle` | `Notification.BadSchedule` |
| broadcast inference is associative | `InferBroadcast.JoinAssociates` | `InferBroadcast.UnknownRankHidesFailure` |
| both reduce variants reject a bad axis | `InferReduce.MissedBadAxis` | `InferReduce.BadAxisExample` |
| the record walk ends | `ExtInfo.WalkEndsIff` | `ExtInfo.StallingExample` |

## Model

| member | source | states |
|---|---|---|
| Bcast.Engine.constructor | aicpu_common/context/utils/bcast.cc:82-142 | the object is valid exactly for compatible shapes, and then holds the collapsed groups of the two shapes with row-major strides |
| Bcast.Engine.Init | aicpu_common/context/utils/bcast.cc:27-80 | the loop computes the collapse of the longest compatible prefix and succeeds exactly if that is everything |
| Bcast.Engine.InitSame | aicpu_common/context/utils/bcast.cc:84-94 | equal shapes become one dimension holding all elements |
| Bcast.StridesOf | aicpu_common/context/utils/bcast.cc:125-140 | each stride is the element count of the dimensions behind it |
| Bcast.GroupsConserve | aicpu_common/context/utils/bcast.cc:61-77 | the collapse keeps the element counts of both inputs and the output, reshape times bcast is the result in every group, and neighbouring groups differ in kind |
| BroadcastIndex.CollapseIndex | aicpu_common/context/utils/bcast.cc:27-80 | collapsing dimensions of one kind does not change which input element an output element reads |
| BroadcastIndex.CollapseNumel | aicpu_common/context/utils/bcast.cc:61-77 | the collapse multiplies dimensions without losing elements |
| BroadcastIndex.CollapseFlip | aicpu_common/context/utils/bcast.cc:36-54 | exchanging the inputs exchanges their roles in every group |
| Bcast.StridedIndex | aicpu_common/context/utils/bcast.cc:144-166 | the division loop yields the output digits, each modulo the input dimension, weighed by the input strides |
| Shapes.NaiveIndexMeaning | aicpu_common/context/utils/bcast.cc:144-166 | the naive index is the one element whose digits are the output's, aligned to the right, with zero in every dimension of size one |
| Bcast.GroupsXIndex | aicpu_common/context/utils/bcast.cc:82-166 | on the collapsed shapes every output element reads the x element of naive right-aligned broadcasting, and that element exists |
| Bcast.GroupsYIndex | aicpu_common/context/utils/bcast.cc:82-190 | the same for y |
| Bcast.Engine.GetBroadcastXIndex | aicpu_common/context/utils/bcast.cc:144-166 | the stride lookup is the naive broadcast index of the original shapes and lies inside x |
| Bcast.Engine.GetBroadcastYIndex | aicpu_common/context/utils/bcast.cc:168-190 | the same for y |
| Bcast.Engine.GenerateBcastInfo | aicpu_common/context/utils/bcast.cc:192-248 | succeeds exactly on padded shapes that are compatible and whose maximum is the requested output; all vectors are fixed on success and on failure, on a reused object too |
| Bcast.FactorsRightIff | aicpu_common/context/utils/bcast.cc:231-246 | the repeat factors are right exactly when the vectors held ones wherever nothing is repeated |
| Bcast.AcceptedIffBroadcast | aicpu_common/context/utils/bcast.cc:218-246 | unless an empty dimension meets a single one, the check accepts exactly the broadcast of the inputs |
| Bcast.EntryPointsAgreeIff | aicpu_common/context/utils/bcast.cc:223-246 | of shapes that broadcast, the check accepts the broadcast exactly when no empty dimension meets a single one |
| Bcast.EmptyDimensionDisagrees | aicpu_common/context/utils/bcast.cc:223-283 | an input on which the two entry points want different outputs, and on which the table names an element that does not exist |
| Bcast.TablesInsideIff | aicpu_common/context/utils/bcast.cc:223-305 | the entries of both tables name existing elements exactly when no input has an empty dimension or the fastest output dimension is empty |
| Bcast.CheckAndBuild | aicpu_common/context/utils/bcast.cc:192-305 | the check and the builder run on any shapes have exactly that property |
| Bcast.Engine.BCastIndexes | aicpu_common/context/utils/bcast.cc:259-305 | what the caller's vectors held stays in front, their new length is fixed, empty vectors become the complete index tables of the padded shapes, and the shape vectors end as they started |
| BcastTables.GrowTables | aicpu_common/context/utils/bcast.cc:285-300 | replicating a table along a new dimension with a bias gives the table with that dimension |
| BcastTables.TableLengthExact | aicpu_common/context/utils/bcast.cc:280-297 | into empty vectors the builder lists one entry per output element exactly when no dimension is empty or the fastest one is |
| BcastTables.AppendLengthExact | aicpu_common/context/utils/bcast.cc:280-297 | into vectors with entries it appends one per output element exactly when every other dimension is one, or the fastest is empty and no other exceeds one |
| BcastTables.EmptyOutputExample | aicpu_common/context/utils/bcast.cc:285-297 | a shape without elements for which the builder lists three entries |
| Bcast.TableIsNaive | aicpu_common/context/utils/bcast.cc:259-305 | every table entry is the naive broadcast index of the unpadded shapes |
| Bcast.TablesMatchLookup | aicpu_common/context/utils/bcast.cc:144-305 | for every rank, builder and stride lookup give the naive index of every output element of compatible non-empty shapes |
| OpCacheLinks.Add | include/nnopbase/opdev/op_cache_container.h:72-78 | a ring stays a ring with the node right behind the head |
| OpCacheLinks.Del | include/nnopbase/opdev/op_cache_container.h:80-84 | a ring stays a ring without the node |
| OpCacheLinks.MoveBehind | include/nnopbase/opdev/op_cache_container.h:151-155 | activation moves one member behind the sentinel and keeps the order of the rest |
| OpCacheLinks.HlistAdd | include/nnopbase/opdev/op_cache_container.h:119-127 | pushes onto one chain, back-pointers included, and touches no other bucket |
| OpCacheLinks.HlistDel | include/nnopbase/opdev/op_cache_container.h:98-106 | unlinks a chain member through the pointer that holds it |
| OpCacheContainer.Container.constructor | include/nnopbase/opdev/op_cache_container.h:244-245 | a cache without entries and without a bucket array |
| OpCacheContainer.Container.Init | include/nnopbase/opdev/op_cache_container.h:263-275 | allocates the computed prime number of empty buckets, more than the capacity exactly if that is below the last prime; the cache is usable exactly if it has no entries |
| OpCacheContainer.Container.Lookup | include/nnopbase/opdev/op_cache_container.h:280-288 | the bucket walk finds the entry of a key exactly if the cache has one |
| OpCacheContainer.Container.FindKey | include/nnopbase/opdev/op_cache_container.h:278-291 | a hit moves one entry to the front of the recency list, a miss changes nothing; ring, chains and counts stay coherent |
| OpCacheContainer.Container.Insert | include/nnopbase/opdev/op_cache_container.h:293-311 | an absent key is added in front as a copy, a present one is only activated; the original stays unlinked |
| OpCacheContainer.Container.Erase | include/nnopbase/opdev/op_cache_container.h:313-321 | the entry leaves ring and chain, everything else stays in order |
| OpCacheContainer.Container.AdvanceIs | include/nnopbase/opdev/op_cache_container.h:203-212 | the iterator steps to the neighbouring entry and ends at the sentinel |
| OpCacheContainer.Container.Traverse | include/nnopbase/opdev/op_cache_container.h:323-341 | a loop from begin visits every entry once, most recent first, and one from rbegin the exact reverse |
| OpCacheContainer.Container.Clear | include/nnopbase/opdev/op_cache_container.h:247-261 | frees every entry exactly once and then the bucket array, however often that was freed before; the destructor is the same call |
| OpCacheContainer.ViewWithout | include/nnopbase/opdev/op_cache_container.h:151-160 | moving or removing a ring node is moving or removing its key in the recency list |
| OpCacheContainer.CoherentInserted | include/nnopbase/opdev/op_cache_container.h:306-309 | ring and chains keep holding the same nodes, each in its key's bucket, when a new key is added |
| OpCacheContainer.CoherentErased | include/nnopbase/opdev/op_cache_container.h:313-321 | the same when an entry is erased |
| OpCacheSizing.BucketCount | include/nnopbase/opdev/op_cache_container.h:263-275 | sizing ends with the first listed prime not below the first doubled size beyond the capacity: larger than the capacity exactly if that is below the last prime, and not larger than a prime at least twice one that reaches the capacity |
| OpCacheRuns.HomeShared | include/nnopbase/opdev/op_cache_container.h:353-356 | two keys share a bucket exactly if their hashes differ by a multiple of the bucket count |
| OpCacheSizing.SizingDiverges | include/nnopbase/opdev/op_cache_container.h:268-271 | from twice the last prime on, no round leaves the sizing loop |
| OpCacheRuns.RunsFollowHistory | include/nnopbase/opdev/op_cache_container.h:278-321 | over every run a key is held exactly if inserted after its last erasure, with the payload of the first such insertion, and entries are listed strictly by last use |
| OpCacheRuns.Perform | include/nnopbase/opdev/op_cache_container.h:278-321 | each call on the linked structure is the call on the recency list |
| OpCacheRuns.Execute | include/nnopbase/opdev/op_cache_container.h:263-341 | after every run on an initialised cache the iterator lists exactly the recency list of the run |
| OpCacheRuns.InUseIffNotFreed | include/nnopbase/opdev/op_cache_container.h:252-275 | there is a bucket array that was not freed exactly when the last of init and clear was an init |
| OpCacheRuns.FreedOnceIff | include/nnopbase/opdev/op_cache_container.h:247-275 | over every life of a cache each bucket array is freed exactly once if and only if init and clear took turns and destruction was not preceded by a clear |
| OpCacheRuns.FreedOnceIffNeverCleared | include/nnopbase/opdev/op_cache_container.h:247-261 | a cache initialised once frees its bucket array exactly once if and only if it is never cleared by hand |
| OpCacheRuns.ClearThenDestroy | include/nnopbase/opdev/op_cache_container.h:247-261 | one explicit clear, then destruction: the bucket array is freed twice |
| OpCacheRuns.Live | include/nnopbase/opdev/op_cache_container.h:244-321 | the class frees its bucket arrays as often as the events say, and destruction frees exactly the entries still held |
| KernelCache.Cache.GetCache | include/aicpu_common/context/common/kernel_cache.h:59-79 | returns the stored value or none, moves a hit to the front unless in session mode, and keeps every iterator on the node of its key |
| KernelCache.Cache.SetCache | include/aicpu_common/context/common/kernel_cache.h:86-118 | updates in place or in front, evicts the last entry of a full list, and keeps every iterator on the node of its key |
| KernelCache.Cache.MoveToFront | include/aicpu_common/context/common/kernel_cache.h:68-72 | erase and push-front re-link the iterator of the moved node |
| KernelCache.Execute | include/aicpu_common/context/common/kernel_cache.h:59-118 | every run of the class is a run of the policy, with the same hits |
| CachePolicy.LruInvariant | include/aicpu_common/context/common/kernel_cache.h:59-118 | in every LRU run the entries are the first capacity + 1 keys of the recency order of all touches |
| CachePolicy.LruResidency | include/aicpu_common/context/common/kernel_cache.h:54-118 | a key is resident exactly if touched and at most capacity other keys were touched since; a hit yields the last value set; size is at most capacity + 1 |
| CachePolicy.FifoInvariant | include/aicpu_common/context/common/kernel_cache.h:86-118 | in every session-mode run the entries are the newest capacity + 1 insertions |
| CachePolicy.FifoResidency | include/aicpu_common/context/common/kernel_cache.h:59-118 | a key is resident exactly if at most capacity insertions followed its own; same value and size claims |
| CachePolicy.LastValue | include/aicpu_common/context/common/kernel_cache.h:81-100 | in either mode an entry holds the last value set for its key |
| SessionCache.Registry.GetOrCreateKernelCache | include/aicpu_common/context/common/session_cache.h:105-141 | one call is one step of the registry, with the cache it returns and the error codes of failed allocation and initialisation |
| SessionCache.ConsistentIffCreated | include/aicpu_common/context/common/session_cache.h:113-137 | one call keeps id list and session map consistent exactly unless it is a session creation that fails |
| SessionCache.RunConsistentIff | include/aicpu_common/context/common/session_cache.h:105-141 | a run is consistent throughout exactly when none of its session creations fails |
| SessionCache.FailedCreationExample | include/aicpu_common/context/common/session_cache.h:124-131 | one failed creation leaves an id without a cache |
| SessionCache.SessionsListed | include/aicpu_common/context/common/session_cache.h:114-137 | in every run, failures included, each session cache has its id listed, so there are at most 257 |
| SessionCache.IdsAreNewest | include/aicpu_common/context/common/session_cache.h:114-125 | in every run, failures included, the id list is the newest 257 creation attempts |
| SessionCache.SessionResidency | include/aicpu_common/context/common/session_cache.h:73-141 | when no session creation fails, ids are unique and are the keys of the map, never more than 257, and resident exactly if at most 256 sessions were created later |
| SessionCache.SidesIndependent | include/aicpu_common/context/common/session_cache.h:76-94 | over every run the sessions held do not depend on the stream calls in between, nor the streams on the session calls |
| SessionCache.CachesUnshared | include/aicpu_common/context/common/session_cache.h:105-141 | in every run different ids, of sessions and of streams together, lead to different caches |
| SessionCache.CreationIsNew | include/aicpu_common/context/common/session_cache.h:124-137 | in every run a call that creates a cache gets one no earlier call got |
| SessionCache.ResidentIsCreated | include/aicpu_common/context/common/session_cache.h:108-112 | in every run a call for an id that is held gets the cache its last creation returned |
| SessionCache.SharedMeansSameId | include/aicpu_common/context/common/session_cache.h:105-141 | two calls of a run that get the same cache name the same session or the same stream |
| SessionCache.StreamResidency | include/aicpu_common/context/common/session_cache.h:83-94 | a stream has a cache exactly if some call for it created one |
| SessionCache.Execute | include/aicpu_common/context/common/session_cache.h:105-141 | a run of the class: every call gets the right cache in this sense, or an error |
| SmallVectorSlots.MoveAcross | include/nnopbase/opdev/small_vector.h:521-530 | elements change blocks slot by slot without a lifetime breach |
| SmallVectorSlots.MoveUp | include/nnopbase/opdev/small_vector.h:537-548 | shifting up from the high end opens a raw gap; a shift by zero breaches once per element |
| SmallVectorSlots.MoveDown | include/nnopbase/opdev/small_vector.h:566-571 | shifting down from the low end closes a gap |
| SmallVector.SmallVector.InitStorage | include/nnopbase/opdev/small_vector.h:440-455 | raw storage of the requested size, inline or one new block |
| SmallVector.SmallVector.ExpandCap | include/nnopbase/opdev/small_vector.h:511-536 | moves to a block of at least twice the capacity with a raw gap; the old block is returned empty |
| SmallVector.SmallVector.ExpandSize | include/nnopbase/opdev/small_vector.h:537-548 | opens a gap in place; a gap of zero loses the elements behind it |
| SmallVector.SmallVector.Expand | include/nnopbase/opdev/small_vector.h:549-558 | chooses between the two by capacity |
| SmallVector.SmallVector.Shrink | include/nnopbase/opdev/small_vector.h:559-573 | removes a range and keeps exactly the first size slots live |
| SmallVector.SmallVector.Insert | include/nnopbase/opdev/small_vector.h:309-349 | inserts the elements at the position without a breach, exactly unless nothing is inserted before the end |
| SmallVector.SmallVector.PushBack | include/nnopbase/opdev/small_vector.h:366-381 | appends one element, inline or on the heap |
| SmallVector.SmallVector.Erase | include/nnopbase/opdev/small_vector.h:350-365 | removes a range; an empty range changes nothing |
| SmallVector.InsertThenErase | include/nnopbase/opdev/small_vector.h:309-365 | inserted elements stand at their position, and erasing them restores the contents |
| SmallVector.EraseThenInsert | include/nnopbase/opdev/small_vector.h:309-365 | inserting what was erased restores the contents |
| SmallVector.SmallVector.PopBack | include/nnopbase/opdev/small_vector.h:382-385 | removes the last element |
| SmallVector.SmallVector.Resize | include/nnopbase/opdev/small_vector.h:386-407 | cuts, or extends with copies |
| SmallVector.SmallVector.Reserve | include/nnopbase/opdev/small_vector.h:287-292 | keeps the contents and reaches the capacity |
| SmallVector.SmallVector.Assign | include/nnopbase/opdev/small_vector.h:153-178 | replaces the contents, reusing storage that is large enough |
| SmallVector.SmallVector.Clear | include/nnopbase/opdev/small_vector.h:299-308 | destroys every element and returns the block |
| SmallVector.SmallVector.MoveFrom | include/nnopbase/opdev/small_vector.h:479-497 | takes over elements or block, leaves the other vector valid and empty, and changes no block's ownership count |
| SmallVector.MoveAssign | include/nnopbase/opdev/small_vector.h:138-145 | the target's own block is returned once, then the other's contents are taken; self-assignment changes nothing |
| SmallVector.Swap | include/nnopbase/opdev/small_vector.h:414-426 | exchanges contents and blocks in every mix of inline and heap, itself included, without a breach or a lost block |
| SmallVectorRuns.ChangeOne | include/nnopbase/opdev/small_vector.h:287-407 | a mutator call on one of several vectors leaves the others alone and keeps the pool's blocks exactly the vectors' blocks |
| SmallVectorRuns.Run | include/nnopbase/opdev/small_vector.h:138-426 | over every run of mutators, swaps and moves each vector holds what the run makes of its contents, the blocks in use are the disjoint blocks of the vectors, and no lifetime rule is broken |
| SmallVectorRuns.ClearAll | include/nnopbase/opdev/small_vector.h:299-308 | once every vector has been cleared no block is left |
| OneDimTiling.GetOneDimUBFormer | pkg_inc/op_common/atvoss/broadcast/broadcast_tiling.h:611-634 | refuses exactly the tile of size zero, for every sign of the buffer size; a tile from a non-negative size fits all buffers and is the largest cache-line aligned one |
| OneDimTiling.FormerFits | pkg_inc/op_common/atvoss/broadcast/broadcast_tiling.h:624-627 | for a non-negative size, the share of a buffer is the largest in whole cache lines, and there is no tile exactly if no element fits it |
| OneDimTiling.NegativeTileIff | pkg_inc/op_common/atvoss/broadcast/broadcast_tiling.h:624-631 | a negative tile is accepted exactly if a buffer of the missing size would hold an element |
| OneDimTiling.NegativeTileExample | pkg_inc/op_common/atvoss/broadcast/broadcast_tiling.h:624-631 | a size of -1000 bytes gives a tile of -896 elements |
| OneDimTiling.SplitExact | pkg_inc/op_common/atvoss/broadcast/broadcast_tiling.h:666-674 | cores, tiles per core and tails multiply out to exactly the length on at most coreNum cores, with even shares |
| OneDimTiling.HalfIdleMeansOneTile | pkg_inc/op_common/atvoss/broadcast/broadcast_tiling.h:676-678 | with fewer than half of the cores used, every core had one tile |
| OneDimTiling.RebalancingSound | pkg_inc/op_common/atvoss/broadcast/broadcast_tiling.h:676-700 | exactly if a tile survives, the new tile is positive and not larger, fits the buffer, leaves one tile per core and gives up no core; it is not larger than it takes to use half of the cores, and not cut below twice the fair share or the minimum byte count; otherwise it is zero |
| OneDimTiling.UsualTilesSurvive | pkg_inc/op_common/atvoss/broadcast/broadcast_tiling.h:685-690 | up to 64 buffers of elements up to 128 bytes a tile always survives |
| OneDimTiling.EmptyTileExample | pkg_inc/op_common/atvoss/broadcast/broadcast_tiling.h:679-693 | with 65 buffers of 128 bytes, a tile size the host computes, the new tile is empty and the code divides by it |
| OneDimTiling.DoOneDimFormerTiling | pkg_inc/op_common/atvoss/broadcast/broadcast_tiling.h:650-712 | unless rebalancing empties the tile: fails exactly on empty inputs, otherwise an exact and even split with tiles no larger than allowed, cut smaller exactly as far as it takes to use more cores |
| OneDimTiling.GetOneDimScalarFlag | pkg_inc/op_common/atvoss/broadcast/broadcast_tiling.h:598-609 | the flag decodes bit by bit to "the input has length one" |
| OneDimTiling.FlagDecodes | pkg_inc/op_common/atvoss/broadcast/broadcast_tiling.h:598-609 | no bit of the sum disturbs another |
| OneDimKernel.BlocksTile | pkg_inc/op_common/atvoss/broadcast/broadcast_sch_one_dim.h:110-116 | the ranges of the cores follow each other and end at the length |
| OneDimKernel.Core.constructor | pkg_inc/op_common/atvoss/broadcast/broadcast_sch_one_dim.h:59-66 | loop count and last tile of the last core and of the others |
| OneDimKernel.CopyInStep | pkg_inc/op_common/atvoss/broadcast/broadcast_sch_one_dim.h:175-220 | one copy-in loads its input and never spoils a buffer that holds a scalar |
| OneDimKernel.Core.CopyIn | pkg_inc/op_common/atvoss/broadcast/broadcast_sch_one_dim.h:175-220 | duplicates a scalar only the first times, copies the tile of any other input |
| OneDimKernel.Core.LoadTile | pkg_inc/op_common/atvoss/broadcast/broadcast_sch_one_dim.h:175-220 | every buffer of the phase holds what the tile needs, even when the duplicate is skipped |
| OneDimKernel.Core.CopyOut | pkg_inc/op_common/atvoss/broadcast/broadcast_sch_one_dim.h:230-260 | writes exactly the tile's elements, each from its own operands |
| OneDimKernel.Core.Process | pkg_inc/op_common/atvoss/broadcast/broadcast_sch_one_dim.h:72-89 | a core writes exactly its range, each element once |
| OneDimKernel.LaunchAll | pkg_inc/op_common/atvoss/broadcast/broadcast_sch_one_dim.h:59-89 | all cores together write every output element exactly once, from element j or from element zero of a scalar |
| OneDimKernel.TileAndRun | pkg_inc/op_common/atvoss/broadcast/broadcast_tiling.h:714-739 | host tiling and kernel end to end: whenever the host accepts, the output is the broadcast computation, each element written once |
| BroadcastCollapse.FlagDims | src/op_common/atvoss/broadcast/broadcast_tiling.cpp:88-109 | succeeds exactly if every input has positive dimensions and broadcasts to the output, and then marks the inputs of size one in every dimension |
| BroadcastCollapse.FlagMeaning | src/op_common/atvoss/broadcast/broadcast_tiling.cpp:92-123 | equal flags mean the same inputs of size one, and the target means all of them |
| BroadcastCollapse.CollapseTensor | src/op_common/atvoss/broadcast/broadcast_tiling.cpp:116-160 | the loop with previous flag, merge and skip, the same for inputs and output |
| BroadcastCollapse.StridesFor | src/op_common/atvoss/broadcast/broadcast_tiling.cpp:163-177 | row-major strides, zero along every dimension the tensor is broadcast along |
| BroadcastCollapse.DimensionCollapse | src/op_common/atvoss/broadcast/broadcast_tiling.cpp:61-179 | fails exactly if some input does not broadcast to the output, and otherwise returns the collapsed dimensions and strides of all tensors |
| BroadcastCollapse.CollapsedNumel | src/op_common/atvoss/broadcast/broadcast_tiling.cpp:116-160 | the collapse keeps every element count |
| BroadcastCollapse.PrevIsLastWide | src/op_common/atvoss/broadcast/broadcast_tiling.cpp:123-134 | the flag compared with is that of the last dimension of more than one element, whatever was skipped or merged since |
| BroadcastCollapse.CollapsedIndex | src/op_common/atvoss/broadcast/broadcast_tiling.cpp:116-160 | without a loss, the collapsed dimensions address the same element as the original ones |
| Strides.DotIsFlat | src/op_common/atvoss/broadcast/broadcast_tiling.cpp:163-177 | digits times strides is the broadcast index |
| CollapseExact.LayoutFacts | src/op_common/atvoss/broadcast/broadcast_tiling.cpp:61-179 | the output keeps its element count, no input dimension exceeds the output's, and the strides are those of the dimensions |
| CollapseExact.LossReadsOutside | src/op_common/atvoss/broadcast/broadcast_tiling.cpp:123-129 | after a loss the last output element reads behind the end of some input |
| CollapseExact.CollapseRightIff | src/op_common/atvoss/broadcast/broadcast_tiling.cpp:61-179 | for any number of inputs, the strides address the naive broadcast source of every output element exactly unless a dimension all inputs broadcast along, some single ones and a dimension of another kind follow each other |
| CollapseExact.ReadsInsideIff | src/op_common/atvoss/broadcast/broadcast_tiling.cpp:61-179 | no output element makes the strides leave an input, exactly under the same condition |
| CollapseExact.CollapseComplete | src/op_common/atvoss/broadcast/broadcast_tiling.cpp:99-150 | without a loss nothing more can be joined: of two neighbouring dimensions that are left, some input broadcasts along exactly one |
| CollapseExact.LossExample | src/op_common/atvoss/broadcast/broadcast_tiling.cpp:123-129 | input [1, 1, 3] and output [5, 1, 3] collapse to [3] and [15] with stride one |
| BroadcastTiling.SplitAxis | src/op_common/atvoss/broadcast/broadcast_tiling.cpp:200-223 | the outermost dimension behind which everything fits the buffer |
| BroadcastTiling.MaxElemNumFills | src/op_common/atvoss/broadcast/broadcast_tiling.cpp:42-51 | the elements per buffer are whole repeats, all buffers fit the local memory, and one repeat more would not |
| BroadcastTiling.DoBroadcastTiling | src/op_common/atvoss/broadcast/broadcast_tiling.cpp:181-254 | fails exactly if not one repeat fits or there is no core; otherwise the parts make up the split dimension, the cores' shares make up the tiles and are even, the buffers of all tensors fill the local memory up to less than one repeat, a tile fits its buffer, and neither a larger part nor one more dimension would |
| TileAddressing.TilesFollow | pkg_inc/op_common/atvoss/util/broadcast_utils.h:69-78 | every tile ends in the output where the next one starts |
| TileAddressing.TilesCover | src/op_common/atvoss/broadcast/broadcast_tiling.cpp:231-244 | the tiles start at zero and end at the last output element |
| TileAddressing.TileDigits | pkg_inc/op_common/atvoss/util/broadcast_utils.h:69-78 | the output digits of a tile's element are the outer digits of the tile number, the position along the split dimension and the digits behind it |
| TileAddressing.TileAddress | pkg_inc/op_common/atvoss/util/broadcast_utils.h:69-78 | in a tensor with any strides a tile's element has the address of its output element |
| AxesIndices.GetAxesIndices | pkg_inc/op_common/atvoss/util/broadcast_utils.h:26-37 | repeated division leaves the mixed-radix digits of the tile number in the array |
| AxesIndices.UpdateAxesIndices | pkg_inc/op_common/atvoss/util/broadcast_utils.h:40-55 | for every tile but the last, increment and carries turn the digits of n into those of n + 1 and never leave the array |
| AxesIndices.UpdateNddmaAxesIndices | pkg_inc/op_common/atvoss/util/broadcast_utils.h:58-67 | the same for the positions of the copies of one tile |
| AxesIndices.GetGmOffset | pkg_inc/op_common/atvoss/util/broadcast_utils.h:70-78 | the address of a tile as digits times strides |
| NddmaCopy.CopyIsTile | pkg_inc/op_common/atvoss/util/broadcast_utils.h:100-124 | one strided copy fetches exactly the tile, in the order of the output |
| NddmaCopy.PlainTile | pkg_inc/op_common/atvoss/util/broadcast_utils.h:164-178 | an input with the output's stride along the split dimension is broadcast nowhere behind it, so a plain copy fetches its tile |
| NddmaCopy.CopyWithLoop | pkg_inc/op_common/atvoss/util/broadcast_utils.h:192-220 | a tile of more dimensions than a copy handles is fetched by several copies without gap or overlap |
| NddmaCopy.LoadTile | pkg_inc/op_common/atvoss/util/broadcast_utils.h:161-220 | in every case the buffer starts with the tile's elements and is otherwise unchanged |
| NddmaCopy.OutputAddress | pkg_inc/op_common/atvoss/broadcast/broadcast_sch_nddma.h:199-203 | with the output's strides the address of a tile is where its output starts |
| NddmaSchedule.SharesFollow | pkg_inc/op_common/atvoss/broadcast/broadcast_sch_nddma.h:74-75 | the tile numbers of the cores follow each other and end at the number of tiles |
| NddmaSchedule.SkipIsSafe | pkg_inc/op_common/atvoss/broadcast/broadcast_sch_nddma.h:137-138 | a skipped load means stride zero and a buffer last filled in the same row with at least as many elements |
| NddmaSchedule.ReloadsIff | pkg_inc/op_common/atvoss/broadcast/broadcast_sch_nddma.h:137-138 | a tile is loaded exactly if its input is not broadcast along the split dimension, or two rounds ago there was no tile or one of another row |
| NddmaSchedule.SameRowData | pkg_inc/op_common/atvoss/broadcast/broadcast_sch_nddma.h:137-164 | such a buffer starts with the data of the current tile |
| NddmaSchedule.CopyInStep | pkg_inc/op_common/atvoss/broadcast/broadcast_sch_nddma.h:117-167 | after one copy-in, loaded or skipped, the input's tile is in place and its buffers are prepared for the next rounds |
| NddmaSchedule.Core.CopyInBrc | pkg_inc/op_common/atvoss/broadcast/broadcast_sch_nddma.h:117-167 | loads the tile into the buffer of the phase; leaves the buffers alone if the input is broadcast along the split dimension and the tile two rounds ago was in the same row |
| NddmaSchedule.Core.LoadTiles | pkg_inc/op_common/atvoss/broadcast/broadcast_sch_nddma.h:170-219 | after the copy-in nodes of a round, every input's tile is in place, loaded or retained |
| NddmaSchedule.Core.CopyOut | pkg_inc/op_common/atvoss/broadcast/broadcast_sch_nddma.h:199-203 | writes exactly the tile's elements, each from its own operands |
| NddmaSchedule.Core.Process | pkg_inc/op_common/atvoss/broadcast/broadcast_sch_nddma.h:72-92 | a core writes exactly the output of its tiles, each element once, as if every tile had been loaded afresh |
| NddmaSchedule.LaunchAll | pkg_inc/op_common/atvoss/broadcast/broadcast_sch_nddma.h:72-92 | all cores together write every output element exactly once, from what the inputs' strides address for it |
| BroadcastOperator.OneDimSource | pkg_inc/op_common/atvoss/broadcast/broadcast_tiling.h:219-220 | in one dimension and without a loss, an input is a scalar or has the output's length, and the kernel's element is the naive source |
| BroadcastOperator.BuffersFit | src/op_common/atvoss/broadcast/broadcast_tiling.cpp:42-51 | the buffers of all tensors, in elements of the largest type, and the extra space fit the local memory |
| BroadcastOperator.RunMultiDim | src/op_common/atvoss/broadcast/broadcast_tiling.cpp:181-254 | tiling and kernel of the collapsed problem accept exactly if a tile fits, and then write every element once from the addressed operands |
| BroadcastOperator.RunOneDim | pkg_inc/op_common/atvoss/broadcast/broadcast_tiling.h:714-739 | without a loss, the one-dimensional path computes the naive broadcast of the original shapes |
| BroadcastOperator.Run | pkg_inc/op_common/atvoss/broadcast/broadcast_tiling.h:185-236 | whenever the host accepts, every output element is written exactly once, and without a loss with the value computed from its naive right-aligned broadcast sources |
| Notification.RunSafe | include/aicpu_common/context/common/notification.h:29-52 | over every interleaving with any number of notifiers: mutual exclusion, no flag without a store, no lost wake-up |
| Notification.WaitIsSound | include/aicpu_common/context/common/notification.h:45-52 | the waiter returns only after the flag is set, and never sleeps with it set unless a notifier is about to signal |
| Notification.NeverNotified | aicpu_common/context/common/async_cpu_kernel.cc:15-23 | without a notification the call never returns |
| Notification.SingleLifetime | include/aicpu_common/context/common/notification.h:29-39 | once the destructor holds the mutex, the only notifier has left its critical section |
| Notification.LifetimeSafeIffSingle | aicpu_common/context/common/async_cpu_kernel.cc:15-23 | no schedule touches the destroyed object exactly if Notify is called at most once |
| Notification.NoDeadlock | include/aicpu_common/context/common/notification.h:29-52 | with one notifier no reachable state is stuck before the object is destroyed |
| Notification.RunsAreBounded | include/aicpu_common/context/common/notification.h:45-52 | apart from spurious wake-ups every run ends within 24 steps |
| InferBroadcast.BroadcastDim | src/op_common/op_host/infershape_broadcast_util.cpp:24-54 | the join of two dimensions, with the first one kept on failure |
| InferBroadcast.BroadcastShapeToOutShape | src/op_common/op_host/infershape_broadcast_util.cpp:62-102 | the in-place update equals the right-aligned join of the original shapes, and fails exactly if that does |
| InferBroadcast.WidenInto | src/op_common/op_host/infershape_broadcast_util.cpp:76-89 | the right-to-left loop never reads a dimension it has overwritten |
| InferBroadcast.JoinInto | src/op_common/op_host/infershape_broadcast_util.cpp:90-100 | the same for an output of at least the rank |
| InferBroadcast.BroadcastShape | src/op_common/op_host/infershape_broadcast_util.cpp:104-115 | copying one shape and joining the other is their join |
| InferBroadcast.JoinSound | src/op_common/op_host/infershape_broadcast_util.cpp:24-102 | for all concrete shapes that broadcast, inference succeeds and describes the result |
| InferBroadcast.JoinExact | src/op_common/op_host/infershape_broadcast_util.cpp:24-102 | for known ranks every described shape is the broadcast of described inputs |
| InferBroadcast.JoinCommutes | src/op_common/op_host/infershape_broadcast_util.cpp:62-102 | the order of two inputs does not matter |
| InferBroadcast.JoinAssociates | src/op_common/op_host/infershape_broadcast_util.cpp:68-102 | three inputs associate exactly unless an unknown rank meets two shapes that fail |
| InferBroadcast.UnknownRankHidesFailure | src/op_common/op_host/infershape_broadcast_util.cpp:68-72 | an input on which the two orders differ |
| InferReduce.ReduceDimsWithKeepDims | src/op_common/op_host/infershape_reduce_util.cpp:22-43 | sets exactly the dimensions some axis names, from the front or from the back, to one; fails exactly on an out-of-bounds axis |
| InferReduce.ReduceDimsWithoutKeepDims | src/op_common/op_host/infershape_reduce_util.cpp:45-70 | lists the dimensions that no axis before the first bad one names, each once and in order; fails exactly if there is a bad axis and such a dimension |
| InferReduce.SelectionsList | src/op_common/op_host/infershape_reduce_util.cpp:49-65 | what is dropped and what is kept are the input's dimensions at the positions inside and outside the reduced set, one entry each, in order |
| InferReduce.AxisMeaning | pkg_inc/op_common/op_host/util/shape_util.h:24-40 | an axis is in bounds exactly if it names a dimension, from the front or from the back, and that is its normalised value |
| InferReduce.AxisSetMeaning | src/op_common/op_host/infershape_reduce_util.cpp:28-40 | the normalised axes are exactly the dimensions some axis names, from the front or from the back |
| InferReduce.Scan | src/op_common/op_host/infershape_reduce_util.cpp:52-62 | the inner loop stops at the first axis that names the dimension |
| InferReduce.ReductionsAgree | src/op_common/op_host/infershape_reduce_util.cpp:22-70 | results depend only on the set of normalised axes; the shorter one lists the positions outside it in order, of the input and of the longer one, and element counts multiply out |
| InferReduce.MissedBadAxis | src/op_common/op_host/infershape_reduce_util.cpp:52-62 | a bad axis goes unnoticed exactly if the axes before it cover every dimension |
| InferReduce.BadAxisExample | src/op_common/op_host/infershape_reduce_util.cpp:52-62 | an input on which the two variants differ |
| ExtInfo.ParseExtMsg | aicpu_common/context/common/cpu_kernel_cache.cc:406-488 | on any memory on which the walk returns, it fails exactly if a record met has a bad length, and otherwise yields the message of the records met: shapes in order, tables, and the last value of each field |
| ExtInfo.WalkEndsIff | aicpu_common/context/common/cpu_kernel_cache.cc:412-485 | on any memory the walk ends exactly when it ends within one round per byte, which is exactly when it never comes back to an offset |
| ExtInfo.EndsIfNoWrap | aicpu_common/context/common/cpu_kernel_cache.cc:482-484 | it ends on every buffer whose headers stay within the 32-bit range |
| ExtInfo.StallsIff | aicpu_common/context/common/cpu_kernel_cache.cc:482-484 | a record leaves the walk where it was exactly if its length is 0xFFFFFFF8 |
| ExtInfo.StallingExample | aicpu_common/context/common/cpu_kernel_cache.cc:412-485 | an eight-byte buffer on which no number of rounds ends the walk |
| ExtInfo.MeetsTheRecords | aicpu_common/context/common/cpu_kernel_cache.cc:412-485 | on concatenated records the walk stops exactly on the record boundaries, meets exactly the records, and ends behind the last |
| ExtInfo.FoldMeaning | aicpu_common/context/common/cpu_kernel_cache.cc:242-488 | over any records: fails exactly if one has a length its kind does not allow; otherwise the shapes are the addresses in exactly the shape records met while shapes were unknown, in order, the tables hold exactly the words of the index records, and every other field comes from the last record of its kind |
| ExtInfo.MessageStep | aicpu_common/context/common/cpu_kernel_cache.cc:242-401 | one record turns the message of the records before it into that of the records up to it, or is refused exactly for a bad length |
| ExtInfo.FindMeaning | aicpu_common/context/common/device_cpu_kernel.cc:22-61 | the search finds the first session record, or fails exactly if that one has the wrong length |
| ExtInfo.AdvancesIff | aicpu_common/context/common/cpu_kernel_cache.cc:482-484 | a record moves the walk behind its payload exactly if that is below the 32-bit range, and always up to its wrap-around |
| ExtInfo.RecordAt | aicpu_common/context/common/cpu_kernel_cache.cc:415-484 | header and payload of every record are read back from the buffer |
| ExtInfo.ParseExtSessionInfo | aicpu_common/context/common/device_cpu_kernel.cc:22-61 | on any memory on which it returns, the second walk finds the first session record met, or fails exactly if that one has the wrong length |
| ExtInfo.WalksAgree | aicpu_common/context/common/device_cpu_kernel.cc:22-61 | if the first walk succeeds so does the second, and it finds a session exactly if the message has one |
| CustLog.SlicesTile | aicpu_common/context/common/cpu_kernel_cache.cc:762-772 | for every block count the slices follow each other without gap or overlap and fill the workspace; all but the last are equal and as large as fits for every block, and the last exceeds them by less than one byte for every block |
| CustLog.FinishMessage | aicpu_common/context/cust_op/cust_op_log.cc:119-132 | the message is the text, with a line break appended if it has none and one NUL; a full buffer gives its last character for it |
| CustLog.Context.constructor | aicpu_common/context/common/cpu_kernel_utils.cc:221-232 | clears exactly the slice |
| CustLog.Context.SafeWrite | aicpu_common/context/cust_op/cust_op_log.cc:73-100 | copies the message, or all that fits in front of a zero, and advances or closes the slice |
| CustLog.Context.Log | aicpu_common/context/cust_op/cust_op_log.cc:135-159 | the slice keeps showing a prefix of all messages followed by zeros, and no byte outside changes |
| CustLog.LogBlocks | aicpu_common/context/common/cpu_kernel_cache.cc:762-775 | over every interleaving of all blocks, each slice ends with a prefix of its own messages, then zeros, its last byte zero, and nothing outside the workspace changes |

## Left out

- Protobuf wrappers, node definitions and their builder: they only delegate.
- Dynamic loading, thread pools, sharding, event queues, platform queries and packaging scripts: foreign calls and text.
- fp16 and bfloat16 arithmetic, data type promotion and format tables: finite tables.
- The schedule that broadcasts in the local buffer, and the host's choice between it and the modelled one; tiling and schedule keys.
- Fixed-width overflow: shapes, strides, offsets and capacities are unbounded integers; only the 32-bit offset of the record walkers wraps.
- Allocation failure and error codes of the secure memory functions, except in `SessionCache` and in the empty copy of `CustLog.Context.SafeWrite`.
- OneDimTiling.GetOneDimScalarFlag: does not model the 32-bit width of the flag, which has room for 31 inputs.
- OneDimKernel.Core.CopyIn: models byte-sized element types only; 1-bit types use other offsets.
- OneDimKernel.Core.CopyOut: the computation between copy-in and copy-out is one function of the operands of an element, and a buffer with a cached scalar is not reused by it.
- OneDimTiling.DoOneDimFormerTiling: inputs on which the code divides by an empty tile are excluded; `OneDimTiling.RebalancingSound` says exactly which these are.
- OneDimKernel.TileAndRun: excludes the same inputs, with the tile size the host computes, and sizes for which that is negative; `OneDimTiling.NegativeTileIff` says exactly which these are.
- BroadcastCollapse.DimensionCollapse: a call without inputs, or with an output without dimensions, reads missing elements in the code and is excluded.
- BroadcastTiling.DoBroadcastTiling: outputs with an empty dimension and operators without buffers or types, for which the code divides by zero, are excluded.
- NddmaCopy.CopyWithLoop: one hardware copy is a single step that reads every strided address; its unused loops of size one are left out.
- NddmaSchedule.Core.Process: all inputs are read by broadcasting copy-in nodes; plain copy-in nodes and the vector-broadcast nodes behind them are not modelled. The computation is one function of the operands of an element, and a retained buffer is not reused by it.
- BroadcastOperator.Run: in one dimension, excludes problems on which the collapse loses a dimension and those `OneDimKernel.TileAndRun` excludes; `CollapseExact.CollapseRightIff` says exactly when nothing is lost.
- Bcast.Engine.BCastIndexes: the caller's two vectors have the same length; what is appended to vectors that were not empty is described by its length only.
- KernelCache.Cache.SetCache: the capacity does not change during a run; the mutex is not modelled, since every call holds it from start to end.
- OpCacheContainer.Container.Insert: the value passed in is in no list. Key and payload are numbers, standing for any types with equality, and the hash is any function of the key.
- OpCacheSizing.BucketCount: takes any ascending prime table; the listed primes themselves are not repeated.
- OpCacheContainer: `operator[]`, which inserts a default key, and copied iterators, which lose their sentinel.
- OpCacheContainer.Container.Lookup: a call on a cache without a bucket array, or with a freed one, is undefined in the code and excluded, here and in the other operations.
- OpCacheRuns.Perform: an erasure names its entry by key, where the code takes a reference to it.
- SmallVector: the range constructor, which returns early on every valid range; arguments that alias the vector's own storage; element access and comparison.
- ExtInfo.ParseExtMsg: type codes, structure sizes and field positions come from a header that is not part of this model and are parameters, and a record header is taken to be two 32-bit words. Memory behind the buffer is readable.
- ExtInfo.ParseExtSessionInfo: memory on which the walk never returns is excluded, here and in `ExtInfo.ParseExtMsg`; `ExtInfo.WalkEndsIff` says exactly when the walk ends.
- Notification.RunSafe: assumes sequentially consistent interleaving; the acquire and release orders of the flag are not modelled.
- CustLog.Context.Log: message text and time stamps are parameters.
- InferBroadcast.BroadcastShapeToOutShape: output shapes have room for every dimension.
- InferReduce.ReduceDimsWithKeepDims: works on a shape value instead of the output object, so a partly written output after a failure is not modelled; the same holds for the other variant.
