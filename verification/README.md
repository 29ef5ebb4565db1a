# HeapForge in Dafny

HeapForge is a family of memory allocators and a write-ahead-logged persistent block pool, written in C, C++ and
Rust. This project models the parts whose correctness is not visible from reading one function, and proves what they
promise over every input and every run. `dafny verify dfyconfig.toml` checks all of it.

**Persistent pool (C and C++).** `PoolMachine` and `CppMachine` are state machines in which every durable location
has its value in memory and the set of values a crash may leave: a store adds the new value (for multi-word records
also a torn one), a sync leaves only the value in memory, a crash picks any combination and may strike between any
two steps, inside recovery too. `PoolSteps`/`CppSteps` prove that every step keeps the protocol invariant,
`PoolRuns`/`CppRuns` lift that to crash atomicity over whole runs. `Pool` and `CppPool` are the pools as objects
updated in place; each of their stores and syncs is one action of the machine. `SortedReplay` is the C++ recovery by
collect, sort and replay, `CppLoss` how the C++ pool can lose its watermark, `CppWide` how it can lose an operation,
`Checksum` the record checksum, `PoolBits` bitmap and history.

**Buddy allocators (C and Rust).** `BuddySpec` is the heap as a value; `BuddyTheorems` and `BuddyRuns` prove
completeness, canonical structure and safety over runs. `EagerBuddy` is the C allocator with doubly linked lists in
memory (`EagerLists`), `LazyBuddy` the Rust allocator with stacks of possibly stale entries (`LazyStacks`), which
`LazyBound` shows to stay small. Both are proved equal to the same specification, and `BuddyAgreement` shows that
callers cannot tell them apart. `BuddyTags` has the tag bytes, the order computation and the walk.

**Free-list allocator (C).** `FreeSpec`, `FreeTheorems` and `FreeList` follow the same pattern for boundary tags,
predecessor links, the circular list with its Next-Fit cursor (`FreeLinks`, `FreeHeaders`) and the three policies,
over-aligned pointers included. `FreePolicies` says which block each policy prefers, without the search; `FreeStale` is
a run in which an over-aligned pointer is traced back to the wrong place.

**Smaller cores.** `ProbeTable`, `Canaries` and `DebugHeap`: the linear-probing table and the guard bytes of the debug
heap. `BlockScan` and `BlockPool`: the bitmap word scan and the run-length walk. `StackHeap`: the bump stack with
in-band headers. `GuardLayout`, `Quarantine` and `GuardHeap`: payload placement and FIFO quarantine of the C++ guard
heap. `Platform` and `Powers`: the bit arithmetic they all rest on. `HeapWalk` and `Seqs` are shared vocabulary.

Specification steps treat the block an operation currently holds as used, so every intermediate state of a split or
merge loop is again a well-formed heap and the invariant is proved once per primitive step. Pointers are offsets from
the start of the mapping, and memory is an array of words indexed by byte offset. Where an address matters, it is that
offset plus the address of the mapping: the free list aligns and compares addresses, the stack aligns offsets
(`StackHeap.AddressAlignedIff`).

Where the code does not do what one would expect, the model follows the code and the exact condition is proved:

- Sizes are 64-bit and wrap. `BuddyTags.OrderHoldsIff`, `FreeList.PointerFitsIff`, `StackHeap.CheckExactIff`,
  `GuardLayout.BetweenIff` and `BlockPool.ReservedHoldsIff` say exactly which requests are served correctly. On the
  stack a wrapped push can leave the top below a mark (`StackHeap.MarkStaysIff`).
- A buddy pointer is 16 bytes into its block, so alignments above 16 are not met (`BuddyTags.PayloadAlignedIff`).
- The C pool cuts block numbers to 32 bits: later blocks are handed out without being marked, again and again
  (`Pool.PersistentPool.Allocate`, `Pool.SameBlockTwice`).
- The C++ pool cuts the block number in the log record and not in the bitmap, so it is crash atomic if and only if it
  has at most 2^32 blocks (`CppWide.CrashAtomicIff`).
- The comment at include/heapforge/persistent_pool.h:11-14 says that the two slots survive torn writes. One torn
  write, yes; two in a row lose the watermark, on some continuation of every run that completed a commit
  (`CppLoss.TwoTornWritesLoseWatermark`), because the slot to write is chosen by the generation left behind in an
  unreadable slot. The bitmap is recovered all the same (`CppRuns.CrashAtomic`).
- A rehash of the debug heap forgets which entries were freed (`DebugHeap.DoubleFreeSeenIff`,
  `DebugHeap.DoubleFreeMissed`).
- An over-aligned free-list pointer is traced back by a heuristic (`FreeList.OverAlignedFreeIff`), which bytes left by
  an earlier owner can mislead (`FreeStale.StaleWordTakenForHeader`); words so large that the address of their end wraps
  on a flat 64-bit machine are among them (ISO C leaves that sum undefined).
- An allocation from a guard heap whose slot table is full locks its own mutex twice and never returns
  (`Quarantine.StallsIff`, `GuardHeap.HangReached`).
- The checksum uses the start value 1469598103934665603, which is not the published FNV-1a offset basis.

## Model

| member | source | states |
|---|---|---|
| `Platform.AlignUpLeast` | c/include/heapforge/hf_platform.h:60-62 | without overflow, aligning up to a power of two gives the least multiple that is at least the argument |
| `Platform.AlignUpWraps` | c/include/heapforge/hf_platform.h:60-62 | when the sum overflows, the result is 0 |
| `Platform.NextPow2` | c/include/heapforge/hf_platform.h:66-72 | the bit-smearing loop gives the least power of two at least n for every n up to 2^63, and wraps to 0 above |
| `Platform.Log2Floor` | c/include/heapforge/hf_platform.h:74-78 | the shift loop gives the position of the highest set bit; 0 for 0 |
| `BuddySpec.InitialInv` | c/src/hf_buddy.c:188 | a new heap is one free top-order block, well formed, with no free buddy pair |
| `BuddySpec.PopInv` | c/src/hf_buddy.c:39-44 | taking the head of a free list keeps the tiling by aligned power-of-two blocks and exact lists |
| `BuddySpec.SplitInv` | c/src/hf_buddy.c:81-85 | halving the held block and pushing its right half keeps tiling, alignment and exact lists |
| `BuddySpec.MergeInv` | c/src/hf_buddy.c:108-115 | joining with a free buddy and unlinking it keeps tiling, alignment and exact lists; the joined block is one order larger |
| `BuddySpec.ReleaseInv` | c/src/hf_buddy.c:116 | pushing the held block back keeps tiling and exact lists |
| `BuddyTheorems.BuddyIsLive` | c/src/hf_buddy.c:108-111 | the buddy offset probed while merging is always the start of a live block of no larger order, so tag bytes left inside merged blocks are never read |
| `BuddyTheorems.AllocUsed` | c/src/hf_buddy.c:66-94 | a successful allocation adds exactly one used block, of the requested order, and keeps free buddies apart; a failed one changes nothing |
| `BuddyTheorems.AllocChoice` | c/src/hf_buddy.c:66-85 | the block handed out starts the free block listed last of the smallest order that has one |
| `BuddyTheorems.AllocGrants` | c/src/hf_buddy.c:66-94 | the block handed out was not in use, is now, and has the order asked for |
| `BuddyTheorems.FreeThenAlloc` | c/src/hf_buddy.c:96-118 | what a freed block has merged into is the next block of its order to be handed out |
| `BuddyTheorems.MergeUpUsed` | c/src/hf_buddy.c:96-118 | a free takes exactly the freed block out of the used blocks and never leaves two free buddies |
| `BuddyTheorems.FreeRegionInBlock` | c/src/hf_buddy.c:107-116 | a wholly free aligned region of 2^k bytes lies inside one free block |
| `BuddyTheorems.AllocComplete` | c/src/hf_buddy.c:74-85 | allocation of order k fails if and only if no aligned region of 2^k bytes is entirely free |
| `BuddyTheorems.AllFreeIsInitial` | c/src/hf_buddy.c:107-116 | with nothing in use the heap is the single top-order block again, lists included |
| `BuddyTheorems.StructureDetermined` | c/src/hf_buddy.c:66-118 | the block layout depends only on the blocks in use, not on the history |
| `BuddyTheorems.AllocFreeRoundTrip` | c/src/hf_buddy.c:66-118 | freeing a fresh allocation restores the block layout exactly |
| `BuddyTheorems.AllocBytes` | c/src/hf_buddy.c:88-89 | the bytes in use grow by the size of the block handed out |
| `BuddyTheorems.FreeBytes` | c/src/hf_buddy.c:105 | the bytes in use shrink by the size of the freed block |
| `BuddyRuns.RunSafe` | c/src/hf_buddy.c:66-118 | in every reachable state the invariant holds, no two free buddies coexist, and the used blocks are exactly the callers' live allocations |
| `BuddyRuns.LiveDisjoint` | c/src/hf_buddy.c:66-118 | after any run live allocations do not overlap and lie inside the heap |
| `BuddyRuns.FreeEverything` | c/src/hf_buddy.c:96-118 | freeing every live block in any order restores the initial heap |
| `BuddyTags.EncodeRoundTrip` | c/src/hf_buddy.c:31-59 | the tag byte gives back order and state, and passes the free-at-order test exactly for a free block of that order |
| `BuddyTags.CreateOrders` | c/src/hf_buddy.c:162-177 | for every 64-bit wish the bytes to reserve and the two orders: the least that hold the minimum block (from 32 bytes) and the capacity; above 2^63 the capacity wraps to nothing and the minimum block to order 0 |
| `BuddyTags.OrderFor` | c/src/hf_buddy.c:61-64 | the computed order, for every 64-bit size |
| `BuddyTags.OrderIsLeast` | c/src/hf_buddy.c:61-64 | for sizes up to 2^63 the order is the least one from the minimum order whose block holds the request |
| `BuddyTags.RequestGetsLeastOrder` | c/src/hf_buddy.c:61-70 | a request, its size with the header and an alignment that counts at most 2^63, gets the least order whose block holds header and payload and, for an alignment larger than both, header and alignment |
| `BuddyTags.WrappedRequestOrder` | c/src/hf_buddy.c:61-70 | every other request gets the smallest block, unless its size wraps past the header and leaves a smaller alignment to decide |
| `BuddyTags.OrderHoldsIff` | c/src/hf_buddy.c:61-70 | for every 64-bit size and alignment, the chosen block holds header and payload if and only if these are at most 2^63 bytes and the alignment does not push the computation past 2^63, or the smallest block happens to do |
| `BuddyTags.HugeRequestsGetSmallestBlock` | c/src/hf_buddy.c:61-70 | a size just above 2^63, a size 8 bytes short of 2^64 and an alignment of 2^63, all given 32 bytes |
| `BuddyTags.PayloadAlignedIff` | c/src/hf_buddy.c:66-93 | the returned pointer meets a requested power-of-two alignment if and only if that alignment is at most 16 |
| `BuddyTags.PayloadKeepsOrders` | rust/src/buddy.rs:129-145 | whatever callers write into their payloads, the order stored in every used block stays |
| `BuddyTags.Walk` | c/src/hf_buddy.c:129-147 | walking the tag bytes reports every block once, in address order, tiling the heap; the used sizes sum to the bytes in use |
| `HeapWalk.TilingSum` | c/src/hf_free_list.c:201-215 | sizes reported in a tiling walk sum to the capacity |
| `EagerBuddy.Heap.constructor` | c/src/hf_buddy.c:169-190 | the new heap represents the initial heap |
| `EagerBuddy.Heap.Push` | c/src/hf_buddy.c:31-37 | links in memory then spell the list with the block in front; its tag says free; no other node is disturbed |
| `EagerBuddy.Heap.Pop` | c/src/hf_buddy.c:39-44 | returns the head; links in memory then spell the rest of the list |
| `EagerBuddy.Heap.Unlink` | c/src/hf_buddy.c:46-50 | links in memory then spell the list without the block, wherever it was |
| `EagerBuddy.Heap.FindOrder` | c/src/hf_buddy.c:76-78 | the smallest order from the requested one with a nonempty list |
| `EagerBuddy.Heap.Obtain` | c/src/hf_buddy.c:80-91 | pop and split-down loop produce exactly the specified heap and block |
| `EagerBuddy.Heap.BuddyFree` | c/src/hf_buddy.c:56-59 | the tag test is true exactly when the buddy is a free block of the same order |
| `EagerBuddy.Heap.Coalesce` | c/src/hf_buddy.c:107-116 | the merge loop produces exactly the specified heap |
| `EagerBuddy.Heap.Allocate` | c/src/hf_buddy.c:66-94 | pointer and heap are exactly those of the specification, for every size and alignment; statistics agree; the block has the least order that holds the request |
| `EagerBuddy.Heap.Deallocate` | c/src/hf_buddy.c:96-118 | heap and statistics are exactly those of the specification; null is ignored |
| `EagerBuddy.Heap.Walk` | c/src/hf_buddy.c:129-147 | the walk reports exactly the blocks of the heap, and used sizes sum to stats.used |
| `EagerBuddy.PayloadWriteHarmless` | c/src/hf_buddy.c:31-50 | whatever callers write into their payloads, every free list and every stored order stays right |
| `LazyStacks.TopRemove` | rust/src/buddy.rs:149-160 | marking a block busy does to the filtered stack what unlinking does to the exact list |
| `LazyStacks.TagCheckExact` | rust/src/buddy.rs:45-59 | an entry passes the tag test exactly when it is a truly free block of that order |
| `LazyStacks.MergeGhosts` | rust/src/buddy.rs:150-160 | merging leaves no stale free tag behind |
| `LazyBound.SplitLean` | rust/src/buddy.rs:108-122 | a split pushes onto a stack that is empty, so no entry is there twice |
| `LazyBound.StackBound` | rust/src/buddy.rs:107-161 | without duplicates, the stack of order o has at most as many entries as the heap has places of that order |
| `LazyBuddy.Heap.StacksStaySmall` | rust/src/buddy.rs:90-162 | after any calls no stack holds an entry twice, and the stack of order o holds at most 2^(hi - o) |
| `LazyBuddy.Heap.constructor` | rust/src/buddy.rs:68-87 | the new heap represents the initial heap |
| `LazyBuddy.Heap.PopFree` | rust/src/buddy.rs:45-54 | popping past stale and duplicate entries yields the head of the exact list, and nothing exactly when that list is empty |
| `LazyBuddy.Heap.JoinBuddy` | rust/src/buddy.rs:151-159 | merging with only the tag zeroed keeps stacks and tags describing the merged heap |
| `LazyBuddy.Heap.Obtain` | rust/src/buddy.rs:106-124 | search, pop and split-down produce exactly the specified heap and block |
| `LazyBuddy.Heap.Coalesce` | rust/src/buddy.rs:149-161 | the merge loop produces exactly the specified heap |
| `LazyBuddy.Heap.Allocate` | rust/src/buddy.rs:91-134 | pointer and heap are exactly those of the specification shared with the C allocator; the block has the least order that holds the request |
| `LazyBuddy.Heap.Deallocate` | rust/src/buddy.rs:136-162 | heap and statistics are exactly those of the specification shared with the C allocator |
| `LazyBuddy.Heap.Walk` | rust/src/buddy.rs:172-191 | the walk reports exactly the blocks of the heap, and used sizes sum to stats.used |
| `BuddyAgreement.Both` | rust/src/buddy.rs:91-162 | one call given to the lazy and the eager allocator: same pointer, same heap |
| `BuddyAgreement.Lockstep` | rust/src/buddy.rs:91-162 | any sequence of calls given to both: same pointers throughout and the same final heap, as the specification predicts |
| `PoolBits.PutBitBits` | c/src/hf_persistent_pool.c:84-88 | setting or clearing one bit changes that block and no other |
| `PoolBits.CountPut` | c/src/hf_persistent_pool.c:97-103 | an applied operation changes the number of set bits exactly when it changes the bit |
| `PoolBits.ReplayRight` | c/src/hf_persistent_pool.c:97-103 | replaying the next record over any partly replayed bitmap leaves one record fewer to correct |
| `PoolSteps.FreshInv` | c/src/hf_persistent_pool.c:217-230 | a newly created pool satisfies the protocol invariant |
| `PoolSteps.StepInv` | c/src/hf_persistent_pool.c:90-159 | every store, sync, crash and recovery step keeps the protocol invariant |
| `PoolSteps.OverwriteSafe` | c/src/hf_persistent_pool.c:90-95 | what an append overwrites is blank or at or below the watermark |
| `PoolSteps.PickIsMark` | c/src/hf_persistent_pool.c:124-134 | the slot scan of recovery finds the slot that holds the true watermark |
| `PoolSteps.ReplayReads` | c/src/hf_persistent_pool.c:143-149 | a ring slot passes the sequence and checksum test exactly for records in the durable history |
| `PoolRuns.LogIsDurable` | c/src/hf_persistent_pool.c:90-121 | along every run the history is exactly the operations whose record became durable, in order |
| `PoolRuns.CrashAtomic` | c/src/hf_persistent_pool.c:90-159 | after any run with crashes anywhere, whenever the pool is idle the bitmap is the in-order fold of exactly the durable operations, and watermark, next sequence number and used count agree |
| `PoolRuns.AllOrNothing` | c/src/hf_persistent_pool.c:115-159 | through any number of crashes and crashed recoveries earlier durable operations survive and the one in flight is there completely or not at all |
| `PoolRuns.RecoveryUnique` | c/src/hf_persistent_pool.c:124-159 | from one crashed pool, however often and wherever recovery is cut short, it ends with the same bitmap, watermark, next sequence number and used count |
| `PoolRuns.HistoryDecides` | c/src/hf_persistent_pool.c:124-159 | idle pools with the same durable history agree on bitmap, watermark, next sequence number and used count |
| `PoolRuns.WatermarkTrue` | c/src/hf_persistent_pool.c:105-134 | at every crash point, torn slot writes included, the slot picked is valid and holds the true watermark; everything above it is in the ring, everything else in the bitmap |
| `PoolRuns.AppendOverwritesCovered` | c/src/hf_persistent_pool.c:90-95 | in every run an append overwrites only blank records or records the watermark covers |
| `Pool.PersistentPool.constructor` | c/src/hf_persistent_pool.c:217-230 | a new pool is settled on the empty history |
| `Pool.PersistentPool.Open` | c/src/hf_persistent_pool.c:231-232 | opening whatever a crash left gives a settled pool whose history is what was durable at the crash |
| `Pool.PersistentPool.WalAppend` | c/src/hf_persistent_pool.c:90-95 | store and sync of the record make the operation durable and leave the bitmap alone; the record goes to the ring slot of its sequence number |
| `Pool.PersistentPool.ApplyOp` | c/src/hf_persistent_pool.c:97-103 | the bitmap is the old one with that operation applied; the used count stays the number of set bits |
| `Pool.PersistentPool.MetaCommit` | c/src/hf_persistent_pool.c:105-113 | store and sync of the other slot move the watermark to the whole history; the other slot then holds the sequence number and the used count |
| `Pool.PersistentPool.Commit` | c/src/hf_persistent_pool.c:115-121 | the six protocol actions in order; the history grows by the operation and the pool is settled again; exactly the bit of the block is changed |
| `Pool.PersistentPool.Allocate` | c/src/hf_persistent_pool.c:246-259 | the lowest free block is handed out, nothing exactly when all blocks are in use; it is durably marked if and only if some block numbered below 2^32 was free |
| `Pool.UnmarkedBlockStaysFirst` | c/src/hf_persistent_pool.c:246-259 | with all blocks below an index of 2^32 or more in use, allocating that block leaves it the first free one |
| `Pool.SameBlockTwice` | c/src/hf_persistent_pool.c:246-259 | calls from a new pool of more than 2^32 blocks on that come to hand out the same block twice |
| `Pool.PersistentPool.Free` | c/src/hf_persistent_pool.c:261-266 | an allocated block is freed durably, its number cut to 32 bits; any other index is ignored |
| `Pool.PersistentPool.DebugWalOnly` | c/src/hf_persistent_pool.c:293-298 | the intent becomes durable and is not applied |
| `Pool.PersistentPool.PickSlot` | c/src/hf_persistent_pool.c:125-133 | the loop finds the valid slot with the larger sequence number; no valid slot has a larger sequence number |
| `Pool.PersistentPool.CountUsed` | c/src/hf_persistent_pool.c:137-138 | the loop counts the set bits |
| `Pool.PersistentPool.ReplayRecord` | c/src/hf_persistent_pool.c:143-149 | one round of the replay loop is one replay action; it reports whether the record was there |
| `Pool.PersistentPool.Recover` | c/src/hf_persistent_pool.c:124-159 | recovery ends idle with the history unchanged, every store and sync being a protocol action |
| `Checksum.Fnv1a` | c/src/hf_persistent_pool.c:56-61 | the loop computes the fold of xor and multiplication modulo 2^64 from the code's own start value |
| `Checksum.PrimeCancel` | c/src/hf_persistent_pool.c:59 | multiplying by the odd constant loses nothing modulo 2^64 |
| `Checksum.HashKeepsApart` | c/src/hf_persistent_pool.c:56-61 | different hash states stay different under equal input |
| `Checksum.CorruptByteDetected` | c/src/hf_persistent_pool.c:56-68 | equal-length inputs that differ in exactly one byte always have different checksums |
| `Checksum.FixedValues` | c/src/hf_persistent_pool.c:56-61 | the value for no bytes, for a zero byte and for the letter a |
| `Checksum.CorruptRecordDetected` | c/src/hf_persistent_pool.c:23-68 | a log record with one byte of its sequence number, operation or block index corrupted has another checksum, with the field order of the C pool and with that of the C++ pool |
| `Checksum.CorruptSlotDetected` | c/src/hf_persistent_pool.c:22-65 | a watermark slot with one byte of its sequence number or used count corrupted has another checksum |
| `Checksum.CorruptOperationDetected` | c/src/hf_persistent_pool.c:23-68 | an allocation whose operation is corrupted into a free has another checksum |
| `Checksum.NeverWrittenRejected` | c/src/hf_persistent_pool.c:63-68 | an all-zero slot or record fails its own checksum |
| `SortedReplay.Collect` | include/heapforge/persistent_pool.h:291-298 | the loop collects exactly the valid records above the watermark, in slot order |
| `SortedReplay.SortBySeq` | include/heapforge/persistent_pool.h:299-300 | a permutation sorted by sequence number |
| `SortedReplay.PendingInOrder` | include/heapforge/persistent_pool.h:288-300 | collected and sorted, the records are exactly the missing part of the history, in order |
| `SortedReplay.WatermarkInsensitive` | include/heapforge/persistent_pool.h:264-313 | with a contiguous suffix of the history in the ring and a bitmap that reflects it up to a point the ring still reaches, sorted replay from any watermark at or below that point rebuilds the same bitmap |
| `CppSteps.StepInv` | include/heapforge/persistent_pool.h:244-313 | every store, sync, crash and recovery step keeps the protocol invariant, for pools of any size: records hold block numbers cut to 32 bits, the bitmap is changed at the uncut ones |
| `CppRuns.LogIsDurable` | include/heapforge/persistent_pool.h:244-262 | along every run of a pool of any size the history is exactly the operations whose record became durable, in order |
| `CppRuns.CrashAtomic` | include/heapforge/persistent_pool.h:244-313 | crash atomicity over all runs of a pool of any size in which no crash leaves a record to replay with a cut block number, also when torn writes made both slots unreadable; pools of at most 2^32 blocks have only such runs |
| `CppRuns.ReplayReaches` | include/heapforge/persistent_pool.h:277-298 | at every crash point the ring holds a contiguous suffix of the history, block numbers cut, that reaches back at least to what the bitmap reflects, whatever watermark is found |
| `CppRuns.WatermarkAtRiskIff` | include/heapforge/persistent_pool.h:269-286 | in every run, a crash during a slot write can lose the latest watermark if and only if the write goes to the newest readable slot and the other is older |
| `CppLoss.TwoTornWritesLoseWatermark` | include/heapforge/persistent_pool.h:244-313 | every run that has just completed a commit or a recovery goes on, over a torn slot write, a recovery and another torn slot write, to a pool with no readable slot and its whole history durable |
| `CppLoss.WatermarkCanBeLost` | include/heapforge/persistent_pool.h:244-313 | from every new pool some run of two operations loses the watermark |
| `CppWide.WideOperationLost` | include/heapforge/persistent_pool.h:244-313 | every idle pool of every run goes on to lose any operation on a block numbered 2^32 or above: a crash after its record is durable, and recovery, leave the block as it was |
| `CppWide.FillTo` | include/heapforge/persistent_pool.h:166-176 | from every new pool a run allocates the first m blocks |
| `CppWide.CrashAtomicIff` | include/heapforge/persistent_pool.h:244-313 | every run of the pool is crash atomic if and only if it has at most 2^32 blocks |
| `CppPool.PersistentPool.constructor` | include/heapforge/persistent_pool.h:111-122 | a new pool of any size is settled on the empty history |
| `CppPool.PersistentPool.Open` | include/heapforge/persistent_pool.h:137-144 | opening whatever a crash left gives a settled pool whose history is what was durable at the crash; its bitmap is that of the history unless a record to replay held a cut block number |
| `CppPool.PersistentPool.WalAppend` | include/heapforge/persistent_pool.h:253-262 | store and sync of the record, its block number cut to 32 bits, make the operation durable and leave the bitmap alone |
| `CppPool.PersistentPool.MetaCommit` | include/heapforge/persistent_pool.h:269-275 | store and sync of the slot of the next generation complete the commit; its generation is one more than the larger |
| `CppPool.PersistentPool.Commit` | include/heapforge/persistent_pool.h:244-251 | the six protocol actions in order; the history grows by the operation and the pool is settled again |
| `CppPool.PersistentPool.Allocate` | include/heapforge/persistent_pool.h:166-176 | the lowest free block of the bitmap is allocated durably, nothing exactly when none is free; while the pool is intact that is the lowest block free in the history |
| `CppPool.PersistentPool.Deallocate` | include/heapforge/persistent_pool.h:178-183 | a block allocated in the bitmap is freed durably, any other index is ignored; while the pool is intact that is a block allocated in the history |
| `CppPool.PersistentPool.LoadAppliedSeq` | include/heapforge/persistent_pool.h:277-286 | the loop gives the sequence number of the valid slot with the larger generation, 0 if none is valid |
| `CppPool.PersistentPool.Recover` | include/heapforge/persistent_pool.h:288-313 | collect, sort and replay end idle with the history unchanged |
| `FreeSpec.TakeInv` | c/src/hf_free_list.c:69-75 | unlinking a free block keeps tiling, coalescing, the exact list and the cursor |
| `FreeSpec.SplitInv` | c/src/hf_free_list.c:120-128 | cutting a block and listing the rest keeps tiling, coalescing, the exact list and the cursor |
| `FreeSpec.JoinInv` | c/src/hf_free_list.c:164-179 | joining two neighbours keeps tiling, coalescing, the exact list and the cursor |
| `FreeSpec.ReleaseInv` | c/src/hf_free_list.c:181 | listing a block between used neighbours keeps tiling, coalescing, the exact list and the cursor |
| `FreeSpec.FirstInFits` | c/src/hf_free_list.c:79-83 | the first block in the given order that is large enough, or none exactly when none is |
| `FreeSpec.BestInFits` | c/src/hf_free_list.c:84-92 | a block of minimum size among those large enough, or none exactly when none is |
| `FreeSpec.FitFits` | c/src/hf_free_list.c:77-102 | all three policies succeed on the same requests, with a free block that is large enough |
| `FreePolicies.FitPicks` | c/src/hf_free_list.c:77-102 | First-Fit finds the first large enough block of the list, Best-Fit the smallest and of those the first, Next-Fit the first from the cursor on, cyclically |
| `FreePolicies.AllocPicks` | c/src/hf_free_list.c:104-144 | an allocation hands out the one block its policy prefers |
| `FreePolicies.AllocCursor` | c/src/hf_free_list.c:77-131 | after Next-Fit the cursor stands at the block after the one handed out; the other policies move it only if it stood there |
| `FreeTheorems.AllocUsed` | c/src/hf_free_list.c:104-144 | a successful allocation adds exactly one used block, less than 32 bytes larger than needed; a failed one changes nothing |
| `FreeTheorems.FreeUsed` | c/src/hf_free_list.c:146-183 | a free takes exactly the freed block out of the used blocks |
| `FreeTheorems.RunInBlock` | c/src/hf_free_list.c:164-181 | a contiguous free run lies inside one free block |
| `FreeTheorems.AllocComplete` | c/src/hf_free_list.c:77-115 | under every policy allocation succeeds if and only if some contiguous free run holds the request |
| `FreeTheorems.AllFreeIsInitial` | c/src/hf_free_list.c:146-183 | with nothing in use the heap is one free block again, list and cursor included |
| `FreeTheorems.StructureDetermined` | c/src/hf_free_list.c:104-183 | the block layout depends only on the blocks in use |
| `FreeTheorems.AllocFreeRoundTrip` | c/src/hf_free_list.c:104-183 | freeing a fresh allocation restores the block layout |
| `FreeTheorems.RunSafe` | c/src/hf_free_list.c:104-183 | in every reachable state the invariant holds and the used blocks are exactly the callers' live requests |
| `FreeTheorems.LiveDisjoint` | c/src/hf_free_list.c:104-183 | after any run live requests do not overlap and lie inside the heap |
| `FreeTheorems.FreeEverything` | c/src/hf_free_list.c:146-183 | freeing every used block in any order coalesces the heap into one free block |
| `FreeList.NeedAligned` | c/src/hf_free_list.c:104-109 | block sizes asked for are multiples of 16 |
| `FreeList.NeedHoldsIff` | c/src/hf_free_list.c:104-109 | the block asked for holds header, payload and alignment if and only if payload and alignment are at most 2^64 - 32 bytes |
| `FreeList.NeedIsLeast` | c/src/hf_free_list.c:104-109 | a request that does not wrap asks for the least multiple of 16, from 32 on, that holds header, payload and alignment |
| `FreeList.WrappedNeed` | c/src/hf_free_list.c:104-109 | 2^64 - 32 bytes aligned to 32 are given 32 bytes |
| `FreeList.WrappedNeverFits` | c/src/hf_free_list.c:104-141 | an over-aligned request that wraps gets a payload that ends past the heap |
| `FreeList.OverAlignedFits` | c/src/hf_free_list.c:136-141 | the address of an over-aligned pointer is aligned as asked, its back word lies inside the payload area and its payload inside the block |
| `FreeList.PointerFitsIff` | c/src/hf_free_list.c:104-141 | the pointer lies behind the header of its block and the payload ends inside the block if and only if neither the size nor the address of the request wraps |
| `FreeList.OverAlignedFreeIff` | c/src/hf_free_list.c:146-158 | an over-aligned pointer leads back to its block if and only if the word 16 bytes before it does not look like a used header, on 64-bit words and addresses |
| `FreeList.PlausibleIff` | c/src/hf_free_list.c:48-54 | a word looks like a header if and only if it is odd, its size is a multiple of 16 from 32 on, and it ends inside the heap or the address of its end wraps |
| `FreeStale.StaleWordTakenForHeader` | c/src/hf_free_list.c:104-158 | for every word that looks like a header, small or wrapping, and every mapping address: a run of calls after which a free would take that word, left by an earlier owner, for a header where no block starts |
| `FreeList.PlainHeader` | c/src/hf_free_list.c:48-54 | the header test accepts the header of every used block |
| `FreeList.PayloadWriteHarmless` | c/src/hf_free_list.c:104-183 | whatever is written into a used payload, headers and list links stay right |
| `FreeHeaders.PayloadKept` | c/src/hf_free_list.c:104-183 | when only words that belong to the allocator before or after change, every block in use before and after keeps its payload |
| `FreeList.Allocator.constructor` | c/src/hf_free_list.c:228-250 | the new heap represents one free block |
| `FreeList.Allocator.InsertNode` | c/src/hf_free_list.c:56-67 | links in memory then spell the circular list with the node between the head and what came after it; a null cursor moves to it |
| `FreeList.Allocator.UnlinkNode` | c/src/hf_free_list.c:69-75 | links in memory then spell the circular list without the node; head and cursor move on if they were there |
| `FreeList.Allocator.FirstOnLap` | c/src/hf_free_list.c:79-100 | one lap from the start finds the first fit in cyclic order, or none |
| `FreeList.Allocator.BestOnLap` | c/src/hf_free_list.c:84-92 | one lap from the head finds the smallest fit, or none |
| `FreeList.Allocator.FindFit` | c/src/hf_free_list.c:77-102 | the block the policy prefers; Next-Fit leaves the cursor at the block after it, the other policies leave it alone |
| `FreeList.Allocator.Cut` | c/src/hf_free_list.c:120-131 | sizes, used flags, predecessor links and list after a split are those of the specification |
| `FreeList.Allocator.AbsorbNext` | c/src/hf_free_list.c:164-171 | coalescing with the next block yields the specified heap in memory |
| `FreeList.Allocator.AbsorbIntoPrev` | c/src/hf_free_list.c:172-181 | coalescing into the previous block and listing the result yields the specified heap in memory |
| `FreeList.Allocator.Allocate` | c/src/hf_free_list.c:104-144 | heap and pointer are exactly those of the specification, for every size and every power of two; if the request fits, tiling, predecessor links, list, cursor and statistics agree, the pointer leads back and no payload in use is written; the block is the one the policy prefers |
| `FreeList.Allocator.Deallocate` | c/src/hf_free_list.c:146-183 | heap and statistics are exactly those of the specification; no other payload in use is written; null is ignored |
| `FreeList.Allocator.Store` | c/src/hf_free_list.c:104-183 | a write of a caller into its payload leaves the allocator well formed |
| `FreeList.Allocator.Walk` | c/src/hf_free_list.c:201-215 | the walk reports exactly the blocks in address order, tiling the heap; used sizes sum to stats.used |
| `ProbeTable.NextSlot` | c/src/hf_debug_heap.c:54 | stepping with the power-of-two mask runs through the table cyclically |
| `ProbeTable.MixedInjective` | c/src/hf_debug_heap.c:42-46 | before it is cut to the size of the table, the hash tells all 64-bit pointers apart |
| `ProbeTable.LowBits` | c/src/hf_debug_heap.c:45 | cutting it keeps exactly the low bits |
| `ProbeTable.AbsentAtHole` | c/src/hf_debug_heap.c:48-57 | a probe that meets a hole proves the key absent |
| `ProbeTable.StoreNew` | c/src/hf_debug_heap.c:63-72 | storing a new key in the hole its probe found keeps every other key reachable |
| `ProbeTable.HoleExists` | c/src/hf_debug_heap.c:62-72 | with fewer keys than slots there is a hole, so the unbounded probe ends |
| `DebugHeap.RehashKeepsLive` | c/src/hf_debug_heap.c:75-84 | a rehash keeps every key with raw block and size, and exactly the live allocations |
| `DebugHeap.DoubleFreeSeenIff` | c/src/hf_debug_heap.c:75-84 | a second free is reported as such if and only if the table has not grown since the first; after growth it goes through a null raw pointer |
| `DebugHeap.VerdictOverRuns` | c/src/hf_debug_heap.c:127-150 | after any calls on a new heap, a free is invalid if and only if nothing was ever allocated at that pointer, and gives back a block if and only if it is the last one allocated there and not freed since |
| `DebugHeap.GrowthForgets` | c/src/hf_debug_heap.c:61-84 | with 44 keys in 64 slots one more allocation makes a repeated free go through a null raw pointer |
| `DebugHeap.DoubleFreeMissed` | c/src/hf_debug_heap.c:61-84 | 47 calls on a new heap, the last of them a double free that goes through a null raw pointer |
| `DebugHeap.Heap.constructor` | c/src/hf_debug_heap.c:224-235 | 64 vacant slots represent the empty map |
| `DebugHeap.Heap.Find` | c/src/hf_debug_heap.c:48-57 | finds the key's slot, or nothing exactly when the key was never put |
| `DebugHeap.Heap.Probe` | c/src/hf_debug_heap.c:63-72 | the probe ends at the key's own slot or at the first hole |
| `DebugHeap.Heap.Put` | c/src/hf_debug_heap.c:61-73 | the map gains exactly that entry; the load stays under 70%; its termination measure shows that no second rehash nests |
| `DebugHeap.Heap.Rehash` | c/src/hf_debug_heap.c:75-84 | the table twice as large represents the same map without freed marks |
| `DebugHeap.Heap.Allocated` | c/src/hf_debug_heap.c:86-108 | canaries, size and fill pattern are written and the allocation is recorded; the active count stays the number of live allocations |
| `DebugHeap.Heap.Deallocate` | c/src/hf_debug_heap.c:110-158 | an invalid free is counted exactly for a pointer that is not null and no key, a double free exactly for a key marked freed, a free exactly for a live one; table, damage count and poisoned payload agree |
| `DebugHeap.Heap.CheckAll` | c/src/hf_debug_heap.c:160-171 | the number of live allocations with a damaged canary, added to the violations |
| `DebugHeap.DamagedAre` | c/src/hf_debug_heap.c:160-171 | an allocation is damaged if it is live and one of its guards is not the canary |
| `DebugHeap.Heap.Leaked` | c/src/hf_debug_heap.c:187-201 | the report counts exactly the active allocations and their bytes |
| `Canaries.GuardedIntact` | c/src/hf_debug_heap.c:86-90 | a new block is intact |
| `Canaries.GuardedAt` | c/src/hf_debug_heap.c:86-101 | a new block holds canary, size, fill pattern and canary, and nothing around it changes |
| `Canaries.DamageSeenIff` | c/src/hf_debug_heap.c:110-124 | any write, of any length and anywhere, makes the test of a block fail if and only if it changes one of its guard bytes |
| `Canaries.OthersUndisturbed` | c/src/hf_debug_heap.c:86-158 | guarding or poisoning a block elsewhere does not change the outcome of the test |
| `BlockScan.LowestZero` | c/src/hf_block_pool.c:23-33 | the number of the lowest clear bit of any word that has one, and 63 otherwise |
| `BlockScan.LinearComplete` | c/src/hf_block_pool.c:46-52 | the scan finds a free block exactly when there is one, and then the first from its start on, cyclically |
| `BlockPool.FoundFirst` | c/src/hf_block_pool.c:46-52 | the first clear bit the word scan meets is the block the linear scan finds |
| `BlockPool.WordFull` | c/src/hf_block_pool.c:49-52 | a skipped word, partly valid last word included, holds no free block |
| `BlockPool.WalkUnique` | c/src/hf_block_pool.c:92-108 | the maximal-run encoding of a bitmap is unique |
| `BlockPool.ReservedHoldsIff` | c/src/hf_block_pool.c:122-130 | the memory reserved holds all blocks if and only if their bytes and one page are at most 2^64, and is then the least whole number of pages |
| `BlockPool.ReservedForOne` | c/src/hf_block_pool.c:122-130 | 17 blocks of 2^60 bytes get the memory of one |
| `BlockPool.Create` | c/src/hf_block_pool.c:122-138 | a pool with every block free and the memory that was reserved, none exactly when that is zero bytes |
| `BlockPool.Pool.constructor` | c/src/hf_block_pool.c:122-138 | a new pool has every block free and the memory that was reserved |
| `BlockPool.Pool.Scan` | c/src/hf_block_pool.c:46-52 | from any hint the word scan finds exactly what the linear scan from there finds |
| `BlockPool.Pool.Allocate` | c/src/hf_block_pool.c:39-64 | exactly the block the linear scan finds becomes used; nothing is returned exactly when the request exceeds a block or every block is used; stats.used is the set-bit count times the block size |
| `BlockPool.Pool.Deallocate` | c/src/hf_block_pool.c:66-81 | exactly the freed block becomes free; statistics agree; null is ignored |
| `BlockPool.Pool.Walk` | c/src/hf_block_pool.c:92-108 | the runs alternate, tile the pool, decode back to the bitmap, and their used sizes sum to stats.used |
| `StackHeap.Placement` | c/src/hf_stack.c:28-29 | the payload is at the least offset that is aligned as asked and whose header is 8-aligned and entirely above the old top; less than 23 bytes plus the alignment are skipped |
| `StackHeap.AddressAlignedIff` | c/src/hf_stack.c:28-29 | the address of the payload is aligned as asked if and only if the mapping is |
| `StackHeap.CheckExactIff` | c/src/hf_stack.c:30-31 | the capacity check is right if and only if the end of the payload does not wrap to a value within the capacity |
| `StackHeap.HugeRequestAccepted` | c/src/hf_stack.c:28-31 | a request of 2^64 - 16 bytes that passes the check |
| `StackHeap.HeadersApart` | c/src/hf_stack.c:28-35 | no header overlaps an earlier payload, for any power-of-two alignment |
| `StackHeap.PayloadWritesHarmless` | c/src/hf_stack.c:33-35 | whatever callers write into their payloads, every live header stays right |
| `StackHeap.StepOrderedIff` | c/src/hf_stack.c:23-57 | a request keeps headers above everything older and frames inside the memory if and only if it is not a push whose end wraps to a value within the capacity |
| `StackHeap.RunOrderedIff` | c/src/hf_stack.c:23-57 | after any run, which ends with its first wrapped push if there is one, the stack is in order if and only if no push of the run wrapped |
| `StackHeap.BalancedRestores` | c/src/hf_stack.c:23-57 | any run that frees exactly its own allocations in reverse order restores top, last payload and every frame |
| `StackHeap.MarkStaysIff` | c/src/hf_stack.c:104-120 | mark, then activity up to its first wrapped push if there is one, with rewinds to later marks only, then rewind: the mark can be rewound to and restores the top if and only if no push wrapped to a value below it |
| `StackHeap.MarkLost` | c/src/hf_stack.c:23-42 | a push of 2^64 - 150 bytes that is accepted and leaves the top below a mark |
| `StackHeap.Allocator.constructor` | c/src/hf_stack.c:90-102 | a new stack is empty |
| `StackHeap.Allocator.Allocate` | c/src/hf_stack.c:23-42 | exactly the specified frame is pushed when the check passes, otherwise nothing changes; nothing below the old top is written; the stack with its headers stays right if and only if the end of the payload does not wrap to a value within the capacity |
| `StackHeap.Allocator.Deallocate` | c/src/hf_stack.c:44-57 | the newest frame is popped and the remembered top and last payload restored; any other pointer is ignored |
| `StackHeap.Allocator.Mark` | c/src/hf_stack.c:104-110 | the current top |
| `StackHeap.Allocator.Rewind` | c/src/hf_stack.c:112-120 | the top is the mark again and nothing below it can be freed singly |
| `Quarantine.StepInv` | include/heapforge/guard_heap.h:111-185 | every allocation and free keeps the deque exact, bounded by the cap, and in the order of the frees |
| `Quarantine.FreeReleases` | include/heapforge/guard_heap.h:135-185 | a successful free releases exactly the region freed cap successful frees earlier, once the quarantine is full |
| `Quarantine.RunInv` | include/heapforge/guard_heap.h:111-185 | in every run the deque lists exactly the owned quarantined slots without duplicates and never exceeds the cap |
| `Quarantine.ReleasedIff` | include/heapforge/guard_heap.h:171-184 | the n-th region freed has been released if and only if at least n + cap frees have succeeded |
| `Quarantine.StallsIff` | include/heapforge/guard_heap.h:111-114 | in every run of a heap alone on the table, the next allocation finds no slot if and only if 4096 more regions were allocated than released |
| `Quarantine.DoubleFreeRejected` | include/heapforge/guard_heap.h:140-150 | freeing a quarantined pointer again changes nothing |
| `Quarantine.FreeChangesIff` | include/heapforge/guard_heap.h:135-150 | a free changes something if and only if its pointer is that of a live allocation of this heap |
| `GuardLayout.OneBitIff` | include/heapforge/allocator.h:12 | exactly the powers of two pass the test |
| `GuardLayout.BetweenIff` | include/heapforge/guard_heap.h:86-102 | the payload lies inside its data pages between two whole pages and meets the first or ends less than its alignment before the second if and only if it leaves room for three pages below 2^64; its offset is aligned as asked |
| `GuardHeap.Heap.constructor` | include/heapforge/guard_heap.h:63-68 | a new heap owns no slot of the shared table |
| `GuardHeap.Heap.FindEmpty` | include/heapforge/guard_heap.h:222-227 | the first slot that is empty and unowned |
| `GuardHeap.Heap.FindLive` | include/heapforge/guard_heap.h:140-145 | the first live slot of this heap with that pointer |
| `GuardHeap.Heap.Allocate` | include/heapforge/guard_heap.h:86-132 | the payload meets the guard page of its mode as closely as its alignment allows, and exactly the first empty slot is taken; it is refused exactly for an alignment above a page or no power of two, fails exactly without a mapping and hangs exactly with a mapping and no empty slot; bytes in use grow by the size |
| `GuardHeap.HangReached` | include/heapforge/guard_heap.h:86-132 | calls on a new heap and an empty table that end in an allocation that never returns |
| `GuardHeap.Heap.Deallocate` | include/heapforge/guard_heap.h:135-185 | table, deque, order of frees and releases are exactly those of the specification; bytes in use agree |
| `GuardHeap.Heap.EvictOldest` | include/heapforge/guard_heap.h:177-184 | the eviction loop leaves the deque at the cap, oldest regions first |
| `GuardHeap.UserGuarded` | include/heapforge/guard_heap.h:86-104 | in a page-aligned mapping that does not wrap the payload is aligned as asked and lies in the least number of whole pages, at their start in underflow mode and otherwise ending less than its alignment before the guard page |

## Left out

- Opening, creating and mapping files, magic numbers, page reservation and protection: foreign calls. A sync is
  modelled as "this location is now durable", never less; a fresh mapping as a fresh array.
- Torn log records and slots are assumed to fail their checksum; `Checksum` proves this only for a single changed byte
  and for locations never written.
- Sequence numbers and generations of the pools are unbounded here, 64-bit in the code.
- Payload bytes of pool blocks, which the pools do not log.
- Commits issued after the log-only debug hook in the same session; the hook is modelled up to the next crash and at
  most 256 pending records. The C++ counterpart of the hook is not modelled.
- The clean-shutdown flag of the C++ pool appears as the step `Reopen`, which skips recovery on an idle pool.
- The log ring of the C++ pool has at least two records; a page holds 128 or more.
- `std::sort` is modelled by an insertion sort with the same specification (`SortedReplay.SortBySeq`).
- Mutexes: each locked operation is atomic.
- Rust arithmetic is that of a release build: sizes wrap.
- Failing `calloc`, `realloc` and `mmap` calls, and writes of callers outside their payloads.
- Assertions on misuse (freeing what is not allocated, foreign pointers) become preconditions where the code only
  asserts; where it handles the case, the model does too.
- The skip branch of the buddy walks and the empty-cursor branch of Next-Fit are not written out: the walk starts at
  block starts only, and the cursor is null only with an empty list.
- BuddyTags.Walk: takes the tag bytes alone; the heap walks of both allocators call it.
- DebugHeap.Heap.Allocated: the block the backend returns is a parameter; that its size, 16 bytes more than asked for,
  wraps for requests within 16 bytes of 2^64 is not modelled.
- GuardHeap.Heap.Allocate: the mapping is a parameter; the fill bytes around the payload and their check on free are not
  modelled.
- StackHeap.Allocator.Allocate: alignments are powers of two that leave room in the address space above the capacity.
  A header is stored as far as it lies inside the memory; what it hits outside is not modelled.
- StackHeap.RunOrderedIff: nothing follows a wrapped push, since from then on frames overlap and headers in memory are
  no longer those of the frames.
- StackHeap.MarkStaysIff: nothing follows a wrapped push, for the same reason.
- FreeList.Allocator.Allocate: alignments above 16 are powers of two, as `hf_align_up` takes them. A back word is stored
  if it lies inside the heap; what it hits outside is not modelled.
- FreeList.Allocator.constructor: the mapping starts at a multiple of 16 and ends below 2^64.
- EagerBuddy.Heap.constructor: orders as `BuddyTags.CreateOrders` gives them for a minimum block up to 2^63.
- LazyBuddy.Heap.constructor: orders as `BuddyTags.CreateOrders` gives them for a minimum block up to 2^63.
- BlockPool.Create: the system maps no region of zero bytes, so pools without a block or with blocks of size zero do
  not exist. Block counts within 64 of 2^64, whose number of bitmap words wraps, are not modelled.
- BlockPool.Pool.Allocate: offsets and bytes in use are unbounded; they can wrap only in a pool that
  `BlockPool.ReservedHoldsIff` finds too small.
- Pool.PersistentPool.DebugWalOnly: the block must exist, which the test hook does not look at.
- Fault handlers, back traces, loggers, the analyzer and its exports: operating-system behaviour and formatting.
- Slab allocators: the C magazine is shared by all instances of a thread, so per-instance claims do not follow; the
  Rust one is a plain stack.
- The C++ and Rust twins of the free list, block pool, stack, debug heap and pool, and the C++ twin of the buddy
  allocator: the same algorithms as the files modelled.
