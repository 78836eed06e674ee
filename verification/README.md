# Allocators and concurrent structures of the ZGC work, in Dafny

This project models three memory allocator families and seven data structures of a garbage collector, and proves what
each of them is for.

* **Buddy allocators** (`buddy_allocator.cpp`, `ibuddy.cpp`, `bbuddy.cpp`, `btbuddy.cpp`). A region is a power of two
  of smallest blocks, called cells. The three subclasses keep very different state: iBuddy an ambiguous bitmap and
  lists of single cells, the binary buddy pair bits and lists of blocks, the binary-tree buddy a packed tree of
  heights. Each is an imperative class proved against one specification (`BuddySpec`: the free cells, the free sizes
  and the blocks in use, before and after a call). `BuddyFamily` makes the three one type, and `LazyBuddy` is the base
  class over any of them, with its lazy lists. `BuddyRuns` follows every run of the base class.
* **JSMalloc** (`JSMalloc.cpp`): two-level segregated fit with immediate coalescing.
* **The ZGC structures**: the lock-free forwarding table, the reference count of a page, the lock-free mark stack
  list, the live map, the tree that hands out indices, the driver port, the memory manager with its list. The
  concurrent ones are systems of atomic steps; every theorem about them is over all runs of any number of threads.

A method is proved against a function or predicate of the state before and after it; what the design promises is then
a lemma about that function or predicate, or an invariant of all runs. Run `dafny verify dfyconfig.toml`.

| module | what it is |
|---|---|
| `Powers`, `Options`, `BuddyGeometry`, `BlockSets` | shifts and powers of two, options, the binary tree of blocks, sets of disjoint blocks |
| `BuddySpec` | block sizes and levels, and what one call does to the free cells and the accounts |
| `FreeLists`, `ZList` | the intrusive rings of the buddy lists and of ZGC |
| `IBuddyModel`, `IBuddy` | iBuddy |
| `BinaryBuddyModel`, `BinarySplitBits`, `BinaryBuddy` | the binary buddy and its split bits |
| `BTBuddyModel`, `BTBuddyClimb`, `PackedTree`, `BTBuddy` | the binary-tree buddy and its packed tree |
| `SplitBits` | the size map of split bits that both use |
| `BlockBits` | bitmaps with one bit for each block |
| `BuddyRange` | how `deallocate_range` cuts a range into blocks |
| `BuddyFamily`, `LazyBuddy`, `BuddyRuns`, `BuddyHistory` | the base class over any subclass, its runs, and what its caller sees of them |
| `BuddyFailures` | small programs that run into the failures of the buddy allocators |
| `TlsfClasses`, `JSMallocModel`, `JSMallocBits`, `JSMalloc`, `JSMallocHidden` | JSMalloc, and how it loses blocks |
| `ForwardingTable`, `PageRefCount`, `VersionedStack`, `StackWrap`, `LiveMap`, `ClaimTree`, `DriverPort`, `MemoryManager` | the ZGC structures |

## Findings

Properties that the code does not have, each with its exact condition.

1. **JSMalloc loses free blocks.** `remove_block` clears the bit of a class whenever the block removed has no
   successor (`JSMalloc.cpp:297-302`). That is right for a head, but not for the last of several blocks, which
   coalescing also removes. `JSMallocHidden.LoseBlock` is a run on a fresh heap that ends with a request that fails
   although a block of exactly its size is free: four blocks of 32 bytes are taken, the first and the last are freed,
   the second is freed and so merged with the first, a request for 96 bytes takes the merged block, and a request for
   32 bytes then returns null. As long as the bitmaps are complete, an allocation keeps them so, and fails exactly
   when no free block is of a sufficient class (`JSMalloc.JSMalloc.Allocate`). A free makes them incomplete if and
   only if it merges the last block of a list that holds a block it does not merge, and the merged block is of another
   class (`JSMallocBits.FreeHides`).
2. **The free size drifts.** Two subclasses take the request rounded up to a power of two out of the free size when a
   block is taken (`bbuddy.cpp:170`, `btbuddy.cpp:306`), and the whole block is added back. The account stays exact if
   and only if the request is larger than half the smallest block (`BinaryBuddy.Region.Allocate`,
   `BTBuddy.Region.Allocate`); over any run it is off by exactly the sum of the shortfalls (`BuddyRuns.RunInv`).
   `BuddyFailures.BinaryBuddyGrows` and `BTBuddyGrows` take a block for one byte and return it, after which more bytes
   are free than the region has.
3. **iBuddy runs out of bounds.** For requests of at most half the smallest block, the size test of an exhausted
   region (`ibuddy.cpp:130-133`) succeeds, and the pop that follows reads past the lists. This pop happens if and only
   if the request is that small and the first region is exhausted (`IBuddy.IBuddyAllocator.AllocateInternal`); in
   `BuddyFailures.PopsPastTheLists` the second request of a fresh region does it. Apart from that, the test of the
   loop before (`ibuddy.cpp:123-126`) looks at the list past the last one in every exhausted region, whatever the
   size.
4. **The versions of the mark stack list may wrap.** A push that succeeds is always right. A pop that succeeds is
   right if and only if the link it read is still that of the element it takes, and so a run linearizes if and only if
   this holds of all its pops (`VersionedStack.RunLinearizes`). In terms of operations: all runs whose successful pops
   have each lived through at most `k` others linearize if and only if `k < 2^32` (`StackWrap.BoundIsExact`).
   `StackWrap.WrapLoses` is a run in which a pop drops two of three elements.
5. **The binary-tree buddy cannot return parts or several blocks at once.** `deallocate_range` hands its pieces to
   `deallocate_internal`, which writes the node of the piece and those above only (`btbuddy.cpp:334-357`). The tree is
   right afterwards if and only if the piece is exactly one block in use (`BTBuddyClimb.ReturnExact`): part of a block
   makes the block above look free, and several blocks leave zeros below. In `BuddyFailures.HalfReturned` half of a
   block in use comes back, and the root says that the whole region is free.

## Model

| member | source | states |
|---|---|---|
| `BuddySpec.FindSmallestBlockLevel` | buddy_allocator.cpp:165-172 | the level found is that of the smallest block that holds the size |
| `BuddySpec.TakeThenReturn` | buddy_allocator.cpp:352-420 | over several regions, taking a block and returning it restores the set of free cells of every region |
| `BuddySpec.FreedOne` | ibuddy.cpp:273-288 | freeing one cell of the heap frees that address and no other |
| `BuddySpec.WholeCells` | buddy_allocator.cpp:436-440 | rounding the start of a byte range up and its end down leaves exactly the cells that lie in the range as a whole, stated in byte addresses for every start and size |
| `BuddyGeometry.Buddy` | buddy_allocator.cpp:58-67 | the buddy of a block is the other half of the block above: no cell in common, together the whole parent, at the index the code computes |
| `BuddyGeometry.BlockIndexInjective` | buddy_allocator.cpp:52-55 | two blocks have the same index if and only if they are of the same level and the same block |
| `FreeLists.Links.Remove` | buddy_helper.hpp:14-19 | unlinking a cell takes it out of its list and leaves the order of the others |
| `FreeLists.Links.PushBack` | buddy_helper.hpp:21-26 | the cell comes to the end of the list, and the links of every list stay right |
| `FreeLists.Links.PopFirst` | buddy_helper.hpp:28-40 | the first cell is returned and its list is the rest |
| `IBuddyModel.MarkedIffFree` | ibuddy.cpp:225-262 | although a bit only records that some cell is listed at exactly that level, for the buddy of a block that is not wholly free it says exactly whether the buddy is wholly free |
| `IBuddyModel.TopIsLargest` | ibuddy.cpp:94-222 | no free block is larger than the level at which the topmost list holds a cell |
| `IBuddyModel.TakeBlock` | ibuddy.cpp:94-222 | taking a block of any level around a topmost cell keeps the listing certified, unambiguous and complete |
| `IBuddyModel.FreeCell` | ibuddy.cpp:225-270 | freeing a cell and listing it at the highest level whose block becomes wholly free keeps the listing in order |
| `IBuddyModel.InitialListingInv` | ibuddy.cpp:30-90 | the listing that the constructor builds is in order, with every cell free |
| `IBuddy.Region.Empty` | ibuddy.cpp:30-90 | a region starts with every cell free, counted and listed |
| `IBuddy.Region.Allocate` | ibuddy.cpp:94-222 | for every size: out of bounds exactly for at most half the smallest block on an exhausted region; null exactly if no aligned block of the level is wholly free; otherwise such a block is taken and nothing else |
| `IBuddy.Region.DeallocateSingle` | ibuddy.cpp:225-270 | the cell becomes free, and bitmap, lists and free size agree again |
| `IBuddy.IBuddyAllocator.AllocateInternal` | ibuddy.cpp:94-222 | over all regions: out of bounds if and only if the size is at most half the smallest block and the first region is exhausted; otherwise the first region that can serve does, and free cells, free sizes and blocks in use change by exactly that block |
| `IBuddy.IBuddyAllocator.DeallocateRange` | ibuddy.cpp:273-288 | a cell becomes free if and only if its bytes, from the first to the last, lie in the byte range; nothing else changes, in any region |
| `IBuddy.IBuddyAllocator.DeallocateInternal` | ibuddy.cpp:291-293 | cell by cell, the whole block comes back with its size |
| `BinaryBuddyModel.ListedIffMaximal` | bbuddy.cpp:67-250 | the listed blocks are exactly the maximal wholly free blocks, so the lists follow from the free cells alone |
| `BinaryBuddyModel.ServesIffListed` | bbuddy.cpp:104-144 | a request can be served if and only if some list at or above its level holds a block |
| `BinaryBuddyModel.SplitCanonical` | bbuddy.cpp:110-140 | splitting a listed block leaves the free cells as they are and creates no pair of buddies but the two halves |
| `BinaryBuddyModel.MergeStep` | bbuddy.cpp:197-235 | joining a block with its listed buddy leaves the free cells as they are and moves the only possible pair one level up |
| `BinaryBuddyModel.PairIndexInjective` | bbuddy.cpp:253-261 | each pair of buddies has one bit, and no two pairs share one |
| `BinaryBuddy.Region.Allocate` | bbuddy.cpp:67-174 | null exactly if no aligned block of the level is wholly free; otherwise one is taken; the free size falls by the request rounded up, so that it stays exact if and only if the request exceeds half the smallest block |
| `BinaryBuddy.Region.Deallocate` | bbuddy.cpp:178-250 | the block becomes free, its size is added, and the lists hold the maximal free blocks again; the block may be part of a larger one taken before |
| `BinaryBuddy.Region.DeallocatePart` | buddy_allocator.cpp:481-511 | after the split bits inside a piece of a range are cleared and the piece is returned, all split bits are right again if and only if the piece cuts no block in use |
| `BinaryBuddy.Region.GetLevel` | buddy_allocator.cpp:91-100 | as long as blocks come back whole, the level of a block in use can be read off the split bits |
| `BinaryBuddy.BinaryBuddyAllocator.AllocateInternal` | bbuddy.cpp:67-174 | the first region that can serve the request does; free cells, free sizes and blocks in use change by exactly that block |
| `BinaryBuddy.BinaryBuddyAllocator.DeallocateInternal` | bbuddy.cpp:178-250 | the block comes back with its size, in its region and nowhere else |
| `SplitBits.LevelFromSplit` | buddy_allocator.cpp:91-100 | above a block in use a node lies strictly above a block in use exactly when it is above the level of that block |
| `BinarySplitBits.TracksSplit` | bbuddy.cpp:115-122 | marking the split block keeps every split bit right |
| `BinarySplitBits.TracksMerge` | bbuddy.cpp:197-235 | clearing the bit before a merge leaves every bit right but the one the next round clears |
| `BinarySplitBits.SplitByHeld` | bbuddy.cpp:115-122 | though the bits are set when free blocks are split, they say exactly which blocks lie strictly above one in use |
| `BinarySplitBits.TracksAsOne` | buddy_allocator.cpp:481-511 | clearing the bits inside a block makes the blocks in use inside count as one, and leaves every other bit right |
| `BTBuddyModel.ValueIsLargest` | btbuddy.cpp:200-317 | outside blocks in use a node holds at least the height of a level if and only if a free aligned block of that level lies under it |
| `BTBuddyModel.TreeUnique` | btbuddy.cpp:200-360 | the tree is a function of the blocks in use, whatever the order of calls |
| `BTBuddyModel.PathStep` | btbuddy.cpp:241-246 | going left unless the left child is too small stays above the lowest-addressed free block of the level |
| `BTBuddy.Region.Empty` | btbuddy.cpp:21-98 | the packed tree starts as that of an empty region |
| `BTBuddy.Region.Allocate` | btbuddy.cpp:200-317 | the lowest-addressed free block of the level is taken, or null if there is none; the free size stays exact if and only if the request exceeds half the smallest block |
| `BTBuddy.Region.Deallocate` | btbuddy.cpp:321-360 | the block comes back with its size, and tree and split bits are those of the remaining blocks |
| `BTBuddy.Region.DeallocateInternal` | btbuddy.cpp:321-360 | for any aligned block, whatever it is made of: its node is full, and the nodes and split bits above are recomputed |
| `BTBuddyClimb.ReturnedRight` | btbuddy.cpp:321-360 | returning a whole block in use leaves the tree and the split bits of the other blocks |
| `BTBuddyClimb.ReturnExact` | btbuddy.cpp:330-357 | returning an aligned block of cells in use leaves a tree that is right for some blocks in use if and only if it is exactly one block in use |
| `BTBuddy.Region.GetLevel` | buddy_allocator.cpp:91-100 | the level of a block in use, from its address alone |
| `BTBuddy.ReturnRestores` | btbuddy.cpp:200-360 | taking a block and returning it restores the tree and the split bits exactly |
| `BTBuddy.BTBuddyAllocator.AllocateInternal` | btbuddy.cpp:200-317 | the lowest block of the first region that has one; free cells, free sizes and blocks in use change by exactly that block |
| `BTBuddy.BTBuddyAllocator.DeallocateInternal` | btbuddy.cpp:321-360 | the block comes back with its size, in its region and nowhere else |
| `PackedTree.LevelOfIndexIs` | buddy_allocator.cpp:47-50 | the level of an index is that whose first index is the last at or below it |
| `PackedTree.DecodeEncode` | btbuddy.cpp:125-189 | in the mixed layout of one, two, four and eight bits a node, writing a node reads back, and every other node reads as before |
| `PackedTree.PutGet` | btbuddy.cpp:125-160 | within a byte the field written reads back |
| `PackedTree.Tree.Set` | btbuddy.cpp:125-160 | the packed bytes change so that exactly this node has the new height |
| `PackedTree.Tree.Get` | btbuddy.cpp:162-189 | the height that was last written to the node |
| `BuddyFamily.Subclass.AllocateInternal` | buddy_allocator.cpp:352-383 | for every size and whichever the subclass, the first region that can serve does, with the same change of free cells and blocks in use, and the free size falls by what the subclass charges; out of bounds exactly when iBuddy is asked for at most half the smallest block and its first region is exhausted |
| `BuddyFamily.Subclass.DeallocateInternal` | buddy_allocator.cpp:388-420 | whichever the subclass, the block comes back with its size |
| `BuddyFamily.Subclass.SplitBitsRight` | buddy_allocator.cpp:91-100 | a split bit is set exactly when a block in use lies strictly below |
| `LazyBuddy.InitThresholds` | buddy_allocator.cpp:288-300 | each level down the tree doubles the threshold, and the whole region has none |
| `LazyBuddy.BuddyAllocator.constructor` | buddy_allocator.cpp:302-340 | over any empty subclass, the heap of the first state of a run, with the thresholds spelled out level by level |
| `LazyBuddy.BuddyAllocator.Allocate` | buddy_allocator.cpp:352-383 | for every size over every subclass: a cached block of the level if there is one, and otherwise what the subclass answers, or that it runs out of bounds: one step of a run |
| `LazyBuddy.BuddyAllocator.Deallocate` | buddy_allocator.cpp:388-420 | into the lazy list below its threshold, and otherwise back to the subclass; null and foreign pointers change nothing: one step of a run |
| `LazyBuddy.BuddyAllocator.DeallocateUnsized` | buddy_allocator.cpp:422-431 | without a size, exactly the live block is freed |
| `LazyBuddy.BuddyAllocator.EmptyLazyList` | buddy_allocator.cpp:521-534 | every lazy list is emptied, neither the live blocks nor the free size change, and the subclass has every block back but the live ones |
| `LazyBuddy.BuddyAllocator.FreeSizeTotal` | buddy_allocator.cpp:342-348 | the bytes in no live block, and what small requests have left uncounted |
| `BuddyRuns.Shortfall` | bbuddy.cpp:170-170 | an allocation takes too little out of the count if and only if it charges the request and that is at most half the smallest block |
| `BuddyRuns.AllocateInv` | buddy_allocator.cpp:352-383 | an allocation keeps live, cached and free blocks a partition of the regions, and the account |
| `BuddyRuns.DeallocateInv` | buddy_allocator.cpp:388-420 | so does a deallocation |
| `BuddyRuns.EmptyInv` | buddy_allocator.cpp:521-534 | so does each round of emptying the lazy lists, and the free size stays |
| `BuddyRuns.RunInv` | buddy_allocator.cpp:342-420 | over any run of any subclass, with requests of any size, live, cached and free blocks partition the regions, and the free size is the bytes in no live block plus exactly the shortfalls so far |
| `BuddyHistory.RunOwned` | buddy_allocator.cpp:352-420 | over any run the live blocks are exactly those that have been answered and not been freed since, each of the level of its request |
| `BuddyHistory.NullExactly` | buddy_allocator.cpp:352-383 | a request is answered with null if and only if it is too large, or no block of its level is cached and no region has one wholly free |
| `BuddyHistory.ReusedNext` | buddy_allocator.cpp:356-415 | a block freed into an empty lazy list is the answer to the next request for its level, and the heap is then as before, but for what the request is short by |
| `BuddyHistory.FirstInFirstOut` | buddy_allocator.cpp:360-413 | over any run a request served from a lazy list is given the block that has been in it longest |
| `BuddyHistory.RunBounded` | buddy_allocator.cpp:401-413 | over any run no lazy list grows beyond its threshold |
| `BuddyRange.PiecesTile` | buddy_allocator.cpp:456-515 | the pieces are aligned blocks that lie end to end over the range |
| `BuddyRange.Fewest` | buddy_allocator.cpp:456-515 | no way to cut the range into aligned blocks has fewer of them |
| `BuddyRange.AtMostTwice` | buddy_allocator.cpp:456-515 | no size occurs more than twice |
| `BuddyRange.LevelAlignment` | buddy_allocator.cpp:247-263 | the largest level, from the given one on, to which the address is aligned |
| `BuddyRange.ChooseLevel` | buddy_allocator.cpp:462-474 | the level chosen is that of the largest aligned block that fits |
| `BuddyRange.DeallocateRegion` | buddy_allocator.cpp:450-515 | the range of one region is freed and counted piece by piece, and nothing else; the split bits still tell every block that is left if and only if no piece cuts a block in use |
| `BuddyRange.DeallocateRange` | buddy_allocator.cpp:434-518 | a cell becomes free if and only if its bytes lie in the byte range, across regions, and as long as the split bits are right exactly the blocks in use that start outside the range are left |
| `BuddyFailures.BinaryBuddyGrows` | bbuddy.cpp:170-170 | in a fresh region, taking a block for a byte and returning it leaves more bytes free than the region has |
| `BuddyFailures.BTBuddyGrows` | btbuddy.cpp:306-307 | the same in the binary-tree buddy |
| `BuddyFailures.PopsPastTheLists` | ibuddy.cpp:123-143 | in a fresh region, a request for the whole region and then one for a byte run out of bounds |
| `BuddyFailures.HalfReturned` | btbuddy.cpp:334-357 | in a fresh region that is taken as one block, returning half of it makes the root say that the whole region is free |
| `TlsfClasses.TargetIsNextClass` | JSMalloc.cpp:410-415 | the search starts exactly one class above that of the largest size that is too small |
| `TlsfClasses.GoodFit` | JSMalloc.cpp:217-241 | the class the search starts from is the least from which every block is large enough |
| `TlsfClasses.ClassMono` | JSMalloc.cpp:410-420 | larger sizes have the same or a larger class |
| `TlsfClasses.ClassBounds` | JSMalloc.cpp:410-415 | a size has a class if and only if it lies in that step of the 32 equal steps between two powers of two |
| `TlsfClasses.UpdateOk` | JSMalloc.cpp:448-458 | one class's bit changes, and the first-level bitmap stays the summary of the second |
| `TlsfClasses.AdjustIsLeast` | JSMalloc.cpp:422-445 | the class found is the least one set from the given one on, and none is found if and only if none is set |
| `JSMallocModel.InsertLists` | JSMalloc.cpp:191-214 | pushing a block keeps every list well linked |
| `JSMallocModel.RemoveLists` | JSMalloc.cpp:273-314 | unlinking a block anywhere in its list keeps every list well linked |
| `JSMallocModel.ListExact` | JSMalloc.cpp:191-314 | the list of a class holds exactly the free blocks of that class, each once |
| `JSMallocModel.SplitPhys` | JSMalloc.cpp:317-342 | splitting keeps the chain of physical blocks |
| `JSMallocModel.MergePhys` | JSMalloc.cpp:244-270 | so does coalescing |
| `JSMallocModel.Tiles` | JSMalloc.cpp:345-354 | every address of the pool lies in exactly one block |
| `JSMallocModel.Canonical` | JSMalloc.cpp:465-488 | blocks, sizes, flags and physical links follow from the blocks in use, whatever the order of calls |
| `JSMalloc.UsedApart` | JSMalloc.cpp:90-108 | two blocks in use never overlap, and each lies in the pool |
| `JSMalloc.AllocateThenFree` | JSMalloc.cpp:465-488 | taking a block and freeing it restores every block, size, flag and physical link |
| `JSMalloc.JSMalloc.constructor` | JSMalloc.cpp:179-188 | one free block over the pool, which starts at the first multiple of 8 and takes as many smallest blocks as fit; its bit set |
| `JSMalloc.BlocksAligned` | JSMalloc.cpp:179-188 | every block of such a pool, and so every pointer handed out, lies at a multiple of 8 |
| `JSMalloc.JSMalloc.InsertBlock` | JSMalloc.cpp:191-214 | the block becomes free at the head of its list, and its class's bit is set |
| `JSMalloc.JSMalloc.RemoveBlock` | JSMalloc.cpp:273-314 | the block leaves its list and is in use; the bit of its class is cleared exactly when it has no successor |
| `JSMalloc.JSMalloc.SplitBlock` | JSMalloc.cpp:317-342 | one block in use becomes two, of the size asked for and the rest |
| `JSMalloc.JSMalloc.CoalesceBlocks` | JSMalloc.cpp:244-270 | two neighbours become one block in use, of both sizes and one header |
| `JSMalloc.JSMalloc.FindBlock` | JSMalloc.cpp:217-241 | the head of the list of the least class known to be large enough is taken and trimmed |
| `JSMalloc.JSMalloc.Allocate` | JSMalloc.cpp:90-108 | null exactly if no class that is large enough has its bit set; otherwise a block of the least such class becomes the one new block in use, at least as large as asked and less than two headers larger; complete bitmaps stay complete, and then null means that no free block is of a sufficient class |
| `JSMalloc.JSMalloc.Free` | JSMalloc.cpp:465-488 | exactly the block at the pointer is no longer in use, merged with the free blocks around it; complete bitmaps stay complete if and only if it hides no block; null and foreign pointers change nothing |
| `JSMallocBits.FailsIffNone` | JSMalloc.cpp:422-445 | with complete bitmaps a search fails if and only if no free block is of a sufficient class |
| `JSMallocBits.ServedKeeps` | JSMalloc.cpp:217-241 | an allocation removes the head of a list, so complete bitmaps stay complete |
| `JSMallocBits.FreeHides` | JSMalloc.cpp:297-302 | the exact condition for a free to make the bitmaps incomplete: it merges the last block of a list that holds a block it does not merge, and the merged block is of another class |
| `JSMallocHidden.TailLost` | JSMalloc.cpp:465-488 | from a fresh heap, after such a free only the class of the merged block has its bit set, although a block of 32 bytes is free |
| `JSMallocHidden.LoseBlock` | JSMalloc.cpp:273-314 | a run on a fresh heap at whose end a request for 32 bytes fails although a block of 32 bytes is free |
| `ForwardingTable.EntryRoundTrip` | zForwardingEntry.hpp:50-81 | the three fields of the packed entry read back as written, and the empty word is not populated |
| `ForwardingTable.HalfFull` | zForwarding.inline.hpp:43-51 | the table is a power of two of at least twice and less than four times the live objects |
| `ForwardingTable.SomeEmpty` | zForwarding.inline.hpp:43-51 | at least one slot stays empty, so every probe ends |
| `ForwardingTable.OnceOnly` | zForwarding.inline.hpp:246-272 | no object has two entries |
| `ForwardingTable.StepInv` | zForwarding.inline.hpp:228-272 | every atomic step of every thread keeps the invariant, and no step changes a populated slot |
| `ForwardingTable.RunKeeps` | zForwarding.inline.hpp:246-272 | once populated, a slot keeps its entry for the rest of the run |
| `ForwardingTable.Agreement` | zForwarding.inline.hpp:228-272 | whoever looks up or inserts an object, at whatever time in the run, is told the same new offset |
| `ForwardingTable.OffsetsGiven` | zForwarding.inline.hpp:246-272 | over any run, every offset that the table holds for an object and every offset that a thread is told for it is one at which some thread has asked to insert this object |
| `ForwardingTable.StaysWith` | zForwarding.inline.hpp:228-272 | over any run a thread keeps the object it starts on, and the offset at which it starts to insert it, until its operation ends |
| `ForwardingTable.InsertEnds` | zForwarding.inline.hpp:246-272 | over any run, an insertion that changes the table enters its object at the very offset it was given and is told that offset; any other is told what the table already held for its object |
| `ForwardingTable.MissedWhenAbsent` | zForwarding.inline.hpp:228-244 | a lookup that finds nothing read its last slot at a moment when the object had no entry |
| `ForwardingTable.WaitFree` | zForwarding.inline.hpp:228-272 | in any run a thread probes for at most 3n + 2 steps of its own, whatever the others do |
| `ForwardingTable.CanStep` | zForwarding.inline.hpp:228-272 | in every reachable state every thread can take its next step |
| `PageRefCount.CountIsHolders` | zForwarding.cpp:88-171 | in every reachable state the absolute value of the count is the number of holders |
| `PageRefCount.Exclusive` | zForwarding.cpp:112-183 | a thread that has claimed the page is its only holder, and a detached page has no holder ever again |
| `PageRefCount.ZeroForGood` | zForwarding.cpp:136-171 | a count of zero stays zero |
| `PageRefCount.NoRetainWhenClaimed` | zForwarding.cpp:88-134 | once the count is negative nobody retains the page: the holders only become fewer |
| `PageRefCount.RetainSucceeds` | zForwarding.cpp:88-110 | a retain that reads a count and finds it unchanged at its swap read a positive one, makes the thread a holder and raises the count by one |
| `PageRefCount.RetainBlocked` | zForwarding.cpp:92-103 | a retaining thread waits only if the count it reads is negative, and is refused only if that is zero or after waiting |
| `PageRefCount.RefusedOnlyIfGone` | zForwarding.cpp:88-110 | over any run, `retain_page` returns false only if the count it read last was zero or negative |
| `PageRefCount.ReleaseSucceeds` | zForwarding.cpp:136-171 | a release that finds the count unchanged at its swap gives up the reference, brings the count one closer to zero, and wakes the sleepers exactly if it becomes 0 or -1 |
| `PageRefCount.ClaimSucceeds` | zForwarding.cpp:112-134 | a claim that finds the count unchanged at its swap inverts it, and has the page at once exactly if nobody else holds it |
| `PageRefCount.WaitEnds` | zForwarding.cpp:125-183 | a waiting thread that reads the count it waits for has claimed, or detached, the page |
| `PageRefCount.CanStep` | zForwarding.cpp:88-183 | in every reachable state each thread can take its next step unless it sleeps, or waits for a lock that another thread has |
| `PageRefCount.LockMoves` | zForwarding.cpp:125-183 | a thread that has the lock is never blocked |
| `PageRefCount.AssertionsHold` | zForwarding.cpp:112-171 | a releasing thread never sees zero, and a claiming thread sees a positive count |
| `PageRefCount.RunInv` | zForwarding.cpp:88-183 | over any run every step keeps the count, the holders and the wake-ups in agreement, so no waiting thread sleeps through the count it waits for |
| `VersionedStack.DecodeEncode` | zMarkStack.inline.hpp:84-108 | the head word reads back as written |
| `VersionedStack.PushDone` | zMarkStack.inline.hpp:120-137 | a push that succeeds is right however many operations it has lived through |
| `VersionedStack.PopDone` | zMarkStack.inline.hpp:139-161 | a pop that succeeds always takes the first element, and the list is right afterwards if and only if the link it read is that of this element |
| `VersionedStack.Linearizes` | zMarkStack.inline.hpp:120-161 | every step does to the abstract stack what the operation promises, and the list is the new abstract stack if and only if the step is no pop that succeeds with a link that is no longer current |
| `VersionedStack.RunLinearizes` | zMarkStack.inline.hpp:120-161 | a run linearizes, every list being the abstract stack, if and only if no pop succeeds with a link that is no longer current |
| `VersionedStack.Conserved` | zMarkStack.inline.hpp:120-161 | over any such run every element has been popped as often as it was pushed, or once less while it is listed |
| `VersionedStack.FailsOnlyIfBeaten` | zMarkStack.inline.hpp:120-161 | a swap fails only if another operation has succeeded since the thread read the head |
| `VersionedStack.EmptyExactly` | zMarkStack.inline.hpp:145-149 | a pop returns null if and only if the list is empty when it reads the head |
| `VersionedStack.CanStep` | zMarkStack.inline.hpp:120-161 | in every state whose list is the abstract stack every thread can take its next step |
| `VersionedStack.YoungRun` | zMarkStack.inline.hpp:139-161 | every run linearizes in which each pop that succeeds has lived through fewer than 2^32 other operations |
| `StackWrap.WrapLoses` | zMarkStack.inline.hpp:139-161 | a run that does not linearize: its last pop has lived through exactly 2^32 other operations, every other through none, and it drops two of three elements |
| `StackWrap.BoundIsExact` | zMarkStack.inline.hpp:84-161 | all runs whose successful pops have each lived through at most k other operations linearize if and only if k is below 2^32 |
| `LiveMap.StepInv` | zLiveMap.cpp:52-127 | every atomic step of marking, resetting and clearing keeps the invariant |
| `LiveMap.RunGetExact` | zLiveMap.inline.hpp:98-103 | over any run, through any number of cycles, `get` is true exactly of the objects marked in the current cycle, and for the second bit exactly of those marked strongly |
| `LiveMap.RunMarksStay` | zLiveMap.cpp:94-127 | over the rest of the cycle in any run no mark, of either kind, is wiped by a late clear |
| `LiveMap.ReportsOnce` | zBitMap.inline.hpp:55-92 | a finalizable mark succeeds if and only if the object was not marked, a strong one if and only if it was not marked strongly; a mark is told to count the object exactly if it is the first of the cycle |
| `LiveMap.MarkDone` | zLiveMap.inline.hpp:105-120 | over any run, when a mark that a thread has begun is over, `get` is true of its object, and for a strong mark the strong bit is read as set |
| `LiveMap.AloneEnds` | zLiveMap.cpp:52-127 | whatever state the others have left the map in, a thread that they leave alone is never stuck and comes closer to the end of its mark with each step |
| `LiveMap.CountedOnce` | zLiveMap.inline.hpp:105-120 | over any part of one cycle of any run, an object is reported for counting once if it comes to be marked, and otherwise never |
| `LiveMap.CountExact` | zLiveMap.inline.hpp:122-125 | when no thread is marking, the count of live objects is the number of marked objects |
| `ClaimTree.IndexBijection` | zIndexDistributor.inline.hpp:222-237 | the four positions are a mixed-radix numeral: each stands for an index below the count, and each such index has exactly one |
| `ClaimTree.SlotsDistinct` | zIndexDistributor.inline.hpp:96-165 | no two nodes of the tree share a slot of the claim array |
| `ClaimTree.ClaimIsNew` | zIndexDistributor.inline.hpp:168-184 | a claim hands out indices that nobody was handed before |
| `ClaimTree.ClaimTree.DoIndices` | zIndexDistributor.inline.hpp:186-292 | when it returns, every index has been handed to exactly one thread, and this thread has processed exactly its own, each once, whatever the other threads claim in between |
| `DriverPort.DriverPort.SendSync` | zDriverPort.cpp:102-126 | the entry is queued under the number of collections received so far |
| `DriverPort.DriverPort.SendAsync` | zDriverPort.cpp:128-136 | without a message the request becomes the message and nothing else changes; with one nothing changes at all |
| `DriverPort.DriverPort.Receive` | zDriverPort.cpp:138-156 | a queued message or the oldest waiting request becomes the message, under a new number |
| `DriverPort.DriverPort.Ack` | zDriverPort.cpp:158-185 | exactly the entries for the message's cause that were queued before it was received are satisfied and leave the queue; the others stay in order |
| `DriverPort.StepInv` | zDriverPort.cpp:102-185 | every step keeps: a satisfied request was served by a collection for its cause that was received after it was queued |
| `DriverPort.MessageStays` | zDriverPort.cpp:138-185 | between receive and ack the message stays what receive returned |
| `DriverPort.PostedIsTaken` | zDriverPort.cpp:128-156 | in any run a request posted to a port without a message is the one that the next receive returns |
| `DriverPort.DonePosts` | zDriverPort.cpp:178-184 | after an ack the port has a message if and only if a request still waits, and it is that of the oldest |
| `DriverPort.NeverStuck` | zDriverPort.cpp:138-185 | while a request is posted or queued the collector can always receive or acknowledge |
| `DriverPort.SatisfiedInTime` | zDriverPort.cpp:102-185 | in any run a request at place p of the queue is satisfied after at most p + 2 acknowledgements |
| `MemoryManager.Unique` | zMemory.cpp:179-224 | an ordered list of disjoint areas that do not touch is determined by the set of free addresses |
| `MemoryManager.AllocateThenFree` | zMemory.cpp:104-224 | freeing exactly what was allocated restores the list itself |
| `MemoryManager.MemoryManager.AllocLowAddress` | zMemory.cpp:104-127 | the lowest address at which the size fits, or none exactly if it fits nowhere; exactly that range leaves |
| `MemoryManager.MemoryManager.AllocLowAddressAtMost` | zMemory.cpp:129-153 | the lowest free range, all of it or as much as asked |
| `MemoryManager.MemoryManager.AllocHighAddress` | zMemory.cpp:155-177 | the highest address at which the size fits, or none exactly if it fits nowhere |
| `MemoryManager.MemoryManager.Free` | zMemory.cpp:179-224 | exactly the range becomes free, merged with the areas it touches on either side |
| `ZList.ZList.Insert` | zList.inline.hpp:66-84 | the unlinked node comes after the given one, and the ring stays well linked |
| `ZList.ZList.Remove` | zList.inline.hpp:168-189 | the node leaves the ring, which stays well linked, and can be inserted again |
| `ZList.ZList.First` | zList.inline.hpp:112-114 | the first node, or null for an empty list |
| `ZList.ZList.Next` | zList.inline.hpp:122-132 | the next node, or null after the last |
| `ZList.ZList.Prev` | zList.inline.hpp:135-145 | the node before, or null before the first |
| `ZList.ZList.InsertLast` | zList.inline.hpp:153-155 | the node comes to the end |
| `ZList.ZList.InsertAfter` | zList.inline.hpp:163-165 | the node comes just after the given one |
| `ZList.ZList.RemoveFirst` | zList.inline.hpp:192-199 | the first node leaves, or nothing changes on an empty list |
| `ZList.ZList.InsertBefore` | zList.inline.hpp:158-160 | the node comes just before the given one |
| `ZList.ZList.RemoveLast` | zList.inline.hpp:202-209 | the last node leaves, or nothing changes on an empty list |
| `ZList.RemoveInserted` | zList.inline.hpp:66-189 | removing what was inserted restores the list |

## Left out

- Locks and `try_lock` of the buddy allocators: calls run one at a time, and a region is never skipped because it is locked. Contention only changes which region serves.
- A run of the base class ends at a request on which iBuddy runs out of bounds.
- LazyBuddy.BuddyAllocator.Deallocate: the caller passes a live block and a size of its level, as the code demands without checking.
- BuddyRange.DeallocateRange: over the binary buddy. iBuddy has its own, `IBuddyAllocator.DeallocateRange`; over the binary-tree buddy each piece is one `deallocate_internal`, whose exact condition is `BTBuddyClimb.ReturnExact`, and what an allocator does after a wrong return is not followed.
- IBuddy.Region.LowerTop: looks at the bound before the list; the loop at `ibuddy.cpp:123-128` looks at the list past the last one before it compares.
- The size maps of iBuddy, whose split bits are never cleared, and the size maps with 4 or 8 bits a cell.
- Regions of the binary-tree buddy that start full.
- Block sizes of `2^32` and above, for which `1U << i` is undefined.
- `fill` and the statistics and printing of the allocators.
- `JSMallocZ`, the optimized configuration, deferred coalescing, and `TLSF.cpp`.
- JSMalloc pools that start full: `initialize` leaves the size of the first block unset.
- JSMalloc keeps the two flags of a header in its size word; the model has them as fields. Its bitmaps are sequences of bits. Its sizes do not wrap at 64 bits. Its blocks are counted in the base configuration's header of 32 bytes.
- The hash of the forwarding table is any function, and a thread may start a lookup or an insertion of any live object at any time.
- `ForwardingTable`: publishing of remembered fields, and the claim bit of `zForwarding.cpp:53`.
- `PageRefCount`: the count is an unbounded integer, and a condition variable wakes only those it is told to wake.
- `LiveMap`: the two mark bits of an object change in one step, where the code swaps a whole word; live bytes, `find_base_bit` and iteration.
- `ClaimTree`: the other threads are any sequence of claims between two of ours; the striped distributor.
- `DriverPort`: the number of worker threads of a request, and the condition variables.
- `MemoryManager`: the list is a sequence of areas; its links are modelled in `ZList`. Requests of size 0, and the callbacks (an area that `free` merges away is deleted without the destroy callback).
- `ZList`: iteration and transfer.
