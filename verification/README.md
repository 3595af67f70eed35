# Verified models of the lab programs

Four programs of the repository, each modelled in the form it has in C and proved to keep the promises it makes.

**The red-black-tree allocator** (`malloclab-handout/mm.c` on `memlib.c`). The heap is an array of tagged 4-byte words; an
address is a word offset. Two structures share that memory: the segment list, whose headers hold a size and a back
pointer, and a red-black tree of the free segments, whose child pointers lie in what is payload while a segment is live.
`Mm.Allocator` works in place on the words, statement by statement. Its invariant `Valid` ties memory to two ghost values:
`segs`, the segments by address, which tile the heap from offset 24 to the epilogue, and `tree`, an ordered red-black tree
with a black root that holds exactly the free segments. Every operation is proved to keep `Valid`, to make of `segs` what
a relation between segment lists says (`CutTo`, `AddedAt`, `FreedTo`, `Placed`, `Resized`: addresses, sizes and flags, not
the steps), and to change no word of another live payload. `AllocSpec` says what a client may expect, without mentioning segments or trees.

**Its driver** (`mdriver.c`), which runs any trace of requests, fills every payload, and checks alignment, bounds, overlap
and data. It is linked with `mm.c` or with `mm_.c` (`Package`), and what is proved holds with either: which traces pass,
that a run ends for lack of memory only in a state in which the next request needs more than `mem_sbrk` can give, and that
utilization is at most 1.

**The first-fit allocator** (`mm_.c`), with a doubly linked list of free blocks, meets the same `AllocSpec` by another
representation; its `mm_free` does the joins of `mm.c` in another order and is proved to reach the same block list.

**The shell** (`shlab-handout/tsh.c`): the job table as an array with loops, and the shell as interleaved steps of the main
thread, the SIGCHLD handler and the children. A lookup of the main thread is one step a slot, so that the handler can
delete a job in the middle of it.

**Integer to float** (`float_i2f` in `datalab-handout/bits.c`): the two loops for any magnitude and any precision, then at
32 bits and 24 digits.

| file | contents |
|---|---|
| `RBTree.dfy` | the tree code as functions, with order, balance, best fit and depth |
| `TreeRep.dfy`, `MmTree.dfy` | how the tree lies in memory; the in-place tree code |
| `Segments.dfy`, `SegMem.dfy` | segment lists as values; how they lie in memory |
| `MmState.dfy`, `Mm.dfy` | the invariant under each kind of store; the allocator |
| `MemLib.dfy`, `AllocSpec.dfy` | words, bytes and the break; what a client may expect |
| `Package.dfy` | the allocator that the driver is linked with, either of the two |
| `DriverState.dfy`, `MDriver.dfy` | traces, range list and data pattern; the driver |
| `FreeList.dfy`, `FirstFit.dfy` | the doubly linked list; the first-fit allocator |
| `JobTable.dfy`, `Tsh.dfy` | the job table; the interleaved shell |
| `Powers.dfy`, `Rounding.dfy`, `Float.dfy` | powers of two, rounding, and `float_i2f` |

## Five results that qualify what the code promises

- The driver compares a plain `char` with `index & 0xFF` (`malloclab-handout/mdriver.c:656`). With signed chars the check
  can only succeed for ids whose low byte is below 128. `EvalMmValid` shows that, when memory suffices, a well-formed trace
  passes if and only if no request reallocates an id with a low byte of 128 or more. `RejectsCorrectPackage` is a trace of
  two requests that is rejected although the allocator did everything right.
- `add_range` does not see a new range that reaches beyond an old one on both sides
  (`malloclab-handout/mdriver.c:409-410`). `HitsExactly` gives the exact condition and `AcceptsOverlap` an instance; the
  driver's result does not depend on it, because the payloads are proved disjoint.
- `fgpid` (`shlab-handout/tsh.c:671-678`) can answer 0 while a job is in the foreground, so that ctrl-c and ctrl-z do
  nothing: `do_bgfg` marks a slot FG even if its job was reaped after the lookup. `FgPidIsForeground` gives the exact
  condition, a lower free slot marked FG, and `ForegroundUnseen` a run that ends that way.
- `mm_check_node` (`malloclab-handout/mm.c:585-614`) means to check for a valid binary search tree and a valid red-black
  tree, but compares each node with its own children only. `CheckNode` says exactly what passes, for any tree in memory;
  `LooksCanDeceive` is a tree that passes, is neither ordered nor balanced, and on which the search misses the best fit.
  States that the operations leave always pass (`CheckPasses`).
- Job ids can repeat (`shlab-handout/tsh.c:639-641`), because `nextjid` wraps after 16 while `deletejob` sets it behind the
  largest id. `AddUnique` says that ids stay unique if and only if `nextjid` is not in use, which holds after every
  `deletejob`; `RepeatedJid` runs the table into two jobs with id 1.

## Model

| member | source | states |
|---|---|---|
| RBTree.SearchIsBestFit | malloclab-handout/mm.c:173-191 | The descent returns the (size, address)-least key of at least the given size, and nothing exactly when no key is large enough. |
| RBTree.BestFitUnique | malloclab-handout/mm.c:132-139 | There is only one best fit, so the previous row determines the result of the search. |
| RBTree.InsertNodeKeys | malloclab-handout/mm.c:197-260 | Insertion adds exactly the new key and keeps the search order. |
| RBTree.InsertNodeBalances | malloclab-handout/mm.c:197-260 | Insertion keeps the black height; a red-red pair can be left only at the subtree's root, and only if that root was red before. |
| RBTree.InsertIsRedBlack | malloclab-handout/mm.c:450-460 | With the root blackened the result is an ordered red-black tree with a black root and one more key. |
| RBTree.DeleteLeftRepairs | malloclab-handout/mm.c:266-311 | The left repair ends with a red-black tree: balance 1 means the old black height, balance 0 one less and a black root; its self-recursion happens once. |
| RBTree.DeleteRightRepairs | malloclab-handout/mm.c:317-362 | The same for the right repair. |
| RBTree.DeleteLeftReshapes | malloclab-handout/mm.c:266-311 | The left repair changes neither the keys nor their order. |
| RBTree.DeleteRightReshapes | malloclab-handout/mm.c:317-362 | The right repair changes neither the keys nor their order. |
| RBTree.DeleteLeast | malloclab-handout/mm.c:372-390 | Taking out the least node keeps red-black form; the balance flag tells whether the black height fell by one, and then the root is black. |
| RBTree.DeleteLeastKeys | malloclab-handout/mm.c:372-390 | Exactly the least key leaves, and the rest stays in order. |
| RBTree.DeleteNode | malloclab-handout/mm.c:368-430 | Deletion from any red-black tree keeps red-black form, with the same meaning of the balance flag. |
| RBTree.DeleteNodeKeys | malloclab-handout/mm.c:368-430 | Exactly the given key leaves, and the rest stays in order. |
| RBTree.DeleteIsRedBlack | malloclab-handout/mm.c:466-477 | Every key of an ordered tree is found by comparisons, and deleting it leaves an ordered red-black tree with a black root. |
| RBTree.DepthsWithinHeight | malloclab-handout/mm.c:173-191 | The descents of search, insertion and deletion stay within the height of the tree. |
| RBTree.HeightIsLogarithmic | malloclab-handout/mm.c:197-260 | The height of a tree of n nodes with a black root is at most 2 log2(n + 1). |
| RBTree.OrderedLooksRight | malloclab-handout/mm.c:595-611 | An ordered tree without red-red pairs passes every comparison of a node with its children. |
| RBTree.LooksCanDeceive | malloclab-handout/mm.c:595-611 | A tree can pass them all without being ordered or balanced, and its search then misses the best fit. |
| MmTree.RotateLeft | malloclab-handout/mm.c:145-153 | The two pointer stores perform the left rotation of the tree in memory and touch no other node. |
| MmTree.RotateRight | malloclab-handout/mm.c:159-167 | The same for the right rotation. |
| MmTree.CmpNode | malloclab-handout/mm.c:132-139 | On headers in memory the comparison is the order by size, then address. |
| MmTree.SearchNode | malloclab-handout/mm.c:173-191 | On the tree in memory the recursion returns what the search function returns, NULL for nothing. |
| MmTree.InsertFixLeft | malloclab-handout/mm.c:210-230 | The rebalancing after a left insertion, with its rotations and colour stores, yields the rebalanced tree in memory. |
| MmTree.InsertFixRight | malloclab-handout/mm.c:236-256 | The mirror image. |
| MmTree.InsertNode | malloclab-handout/mm.c:197-260 | Insertion in place yields the tree of the insertion function and changes only colours and child pointers of its nodes. |
| MmTree.DeleteLeft | malloclab-handout/mm.c:266-311 | The repair in place yields the repaired tree and its balance flag. |
| MmTree.DeleteRight | malloclab-handout/mm.c:317-362 | The mirror image. |
| MmTree.DeleteLeast | malloclab-handout/mm.c:372-390 | The call with a target hands out the node of the least key and leaves the tree without it. |
| MmTree.DeleteRoot | malloclab-handout/mm.c:391-412 | Deleting the node found puts its successor, with its links and colour, in its place. |
| MmTree.DeleteNode | malloclab-handout/mm.c:368-430 | Deletion in place yields the tree and the balance flag of the deletion function, and changes only colours and child pointers of its nodes. |
| MmTree.CheckNode | malloclab-handout/mm.c:585-614 | On any tree in memory the result is 1 if and only if each node is in order with its own children and no red node has a red child; then each node is counted once. |
| Segments.TilingPartitions | malloclab-handout/mm.c:493-497 | In a tiled heap every word belongs to exactly one segment. |
| Segments.AbsorbedIsStretched | malloclab-handout/mm.c:792-826 | For any tiled list and need, the absorbing loop stretches the block to where the counting walk stops, removing what began in between and nothing else. |
| Segments.RunEndBehind | malloclab-handout/mm.c:794-797 | A walk over a free run and a free segment that passes the limit stops exactly where that segment ends. |
| Segments.FragIsCut | malloclab-handout/mm.c:513-543 | In any tiled list, cutting keeps exactly the given units and makes the rest one free segment if it has 2 units or more, leaves the segment whole otherwise, and changes no other; this determines the list. |
| Segments.CoalescedIsFreed | malloclab-handout/mm.c:723-755 | In any tiled list, with free neighbours elsewhere or not, freeing turns everything from the free predecessor (or the block) to the end of the free successor (or of the block) into one free segment and changes nothing else; this determines the list. |
| Segments.AbsorbedEnough | malloclab-handout/mm.c:822-826 | If the free run behind a block reaches far enough, absorbing it makes the block at least as large as requested. |
| Segments.AbsorbedKeeps | malloclab-handout/mm.c:822-826 | Absorbing enlarges only that block; other live segments stay. |
| Segments.ReuseNoFreeNeighbours | malloclab-handout/mm.c:705-714 | Taking a free segment, split or whole, leaves no two free segments next to each other. |
| Segments.GrownNoFreeNeighbours | malloclab-handout/mm.c:549-579 | Growing the heap when nothing fits leaves no two free segments next to each other. |
| Segments.CoalescedNoFreeNeighbours | malloclab-handout/mm.c:723-755 | Neither does freeing. |
| Segments.AllFreeIsOne | malloclab-handout/mm.c:723-755 | If all segments are free and no two are neighbours, there is one, and it is the whole heap. |
| Segments.SizesFillHeap | malloclab-handout/mm.c:549-579 | The segment sizes add up to the extent of the tiling. |
| SegMem.BackPointer | malloclab-handout/mm.c:483-487 | The word at a header is the address of the segment that ends there, NULL exactly for the first one. |
| SegMem.TreeChangeKeeps | malloclab-handout/mm.c:450-477 | Work on tree nodes changes no header field but colours, and no live payload. |
| SegMem.TreeSizeIsFreeCount | malloclab-handout/mm.c:620-661 | The tree has as many nodes as there are free segments. |
| MmState.StateAfterSplit | malloclab-handout/mm.c:525-537 | The stores of a split keep the whole invariant, with the new segment still to be inserted. |
| MmState.StateAfterMerge | malloclab-handout/mm.c:738-748 | The size store of a join keeps the invariant up to one back pointer. |
| MmState.StateAfterExtend | malloclab-handout/mm.c:549-579 | The stores after mem_sbrk keep the invariant up to one back pointer. |
| MmState.StateAfterWrite | malloclab-handout/mm.c:761-832 | A client's stores to its own payload keep the invariant and every other payload. |
| MmState.StateLayout | malloclab-handout/mm.c:690-832 | In every state payloads are 8-byte aligned, inside the heap and disjoint; segment bytes are the heap size less 32; every size fits into 29 bits. |
| MmState.StateDepth | malloclab-handout/mm.c:173-191 | With n free segments, search, insertion and deletion go at most 2 log2(n + 1) nodes deep, whatever they look for. |
| Mm.FitInSegments | malloclab-handout/mm.c:436-444 | The tree search returns the best fit of a scan of all segments, and fails only if no free segment is large enough. |
| Mm.Units | malloclab-handout/mm.c:694-695 | The least number of 8-byte units that hold a header and the requested bytes. |
| Mm.RunFrom | malloclab-handout/mm.c:792-797 | Where the counting loop stops: all it passed is free and was still needed, and it stopped for lack of need, at the heap's end or at a live segment. |
| Mm.GrownIsAdded | malloclab-handout/mm.c:549-579 | A segment asked of mm_sbrk has just its units from 18 on; below, one more, with what remains of 18 units free, or all 18 if less than 2 remain; all else stays. |
| Mm.AbsorbedIsRun | malloclab-handout/mm.c:792-826 | The absorbing loop takes in exactly the segments that the counting loop passed: the block ends where the count stopped, and everything else stays. |
| Mm.GrowthIsResize | malloclab-handout/mm.c:799-826 | After the heap has grown, the absorbing loop takes in the counted run and the fresh segment, and stops where that segment ends. |
| Mm.Allocator.Init | malloclab-handout/mm.c:667-684 | From a reset break it establishes the invariant with no segment. |
| Mm.Allocator.Search | malloclab-handout/mm.c:436-444 | Returns what the tree search returns and changes nothing. |
| Mm.Allocator.Insert | malloclab-handout/mm.c:450-460 | The free segment joins the tree; headers and live payloads stay. |
| Mm.Allocator.Delete | malloclab-handout/mm.c:466-477 | The free segment leaves the tree; headers and live payloads stay. |
| Mm.Allocator.FragNode | malloclab-handout/mm.c:513-543 | The segment keeps exactly the size asked for, and the rest becomes one free segment, listed and in the tree, if it has 2 units or more; otherwise it stays whole and its back pointer is restored. No other segment differs. |
| Mm.Allocator.Sbrk | malloclab-handout/mm.c:549-579 | The heap grows by 144 bytes or, if more is asked, by the size; the new live segment starts at the old epilogue, with its size and the free rest given in numbers. |
| Mm.Allocator.Malloc | malloclab-handout/mm.c:690-717 | The block is the best fitting free segment, cut to exactly the units needed if 2 or more remain, which stay free, and the heap grows only if none fits, by a segment of the size mm_sbrk gives; no other segment and no live payload changes. It fails exactly when none fits and mem_sbrk cannot give the growth, and then changes nothing. |
| Mm.Allocator.Free | malloclab-handout/mm.c:723-755 | The block becomes one free segment with a free predecessor and a free successor, whatever lies beyond them; every other segment and every other live payload stays. |
| Mm.Allocator.CountRun | malloclab-handout/mm.c:792-797 | The counting loop adds up exactly the free segments behind the block that are needed, and tells whether they reach the end. |
| Mm.Allocator.Absorb | malloclab-handout/mm.c:822-828 | The absorbing loop makes the block end where the counting loop stopped, and keeps tree, list and payloads. |
| Mm.Allocator.GrowInPlace | malloclab-handout/mm.c:799-829 | At the end of the heap it grows by what is missing, and the block absorbs exactly the counted run and the fresh segment; it fails exactly when mem_sbrk cannot give what is missing, and then changes nothing. |
| Mm.Allocator.Move | malloclab-handout/mm.c:808-819 | A new block gets the whole old payload, the old one is freed; it fails exactly when no free segment fits and mem_sbrk cannot give the growth, and then changes nothing. |
| Mm.Allocator.Realloc | malloclab-handout/mm.c:761-832 | Which of the four ways is taken (shrink, absorb, grow at the end, move only past a live segment) and what the list becomes: a shrunk block has exactly the units needed and the rest is free if 2 or more remain. On each way the first min(old, new) bytes and all other live payloads are kept. A shrink or an absorb never fails, the others exactly for lack of memory, changing nothing; NULL and size 0 act as mm_malloc and mm_free. |
| Mm.Allocator.Check | malloclab-handout/mm.c:620-661 | On any heap whose segments and tree can be walked the result is 1 if and only if every back pointer agrees, every tree node passes, and there are as many nodes as free segments. |
| Mm.Allocator.CheckPasses | malloclab-handout/mm.c:620-661 | All of that holds in every state that the operations leave, so mm_check returns 1 there. |
| MemLib.Heap.Sbrk | malloclab-handout/memlib.c:58-69 | The old break, or a failure that moves nothing, exactly when the increment is negative or too large. |
| MemLib.Memcpy | malloclab-handout/mm.c:117-126 | Byte by byte, the destination becomes the source and no other byte changes. |
| MemLib.Memset | malloclab-handout/mdriver.c:625 | Every byte of the range becomes the given one and no other byte changes. |
| AllocSpec.MoveIsRealloc | malloclab-handout/mm.c:808-819 | Allocating, copying what fits and freeing amounts to a reallocation. |
| AllocSpec.CopyThenFree | malloclab-handout/mm.c:813-816 | Copying to one block and freeing another keeps the copy and all other payloads. |
| DriverState.HitsExactly | malloclab-handout/mdriver.c:409-410 | The overlap test sees an overlap unless the new range reaches beyond the old one on both sides. |
| DriverState.RequestedFit | malloclab-handout/mdriver.c:698-778 | The requested sizes of the live blocks add up to no more than the heap. |
| DriverState.RequestedLast | malloclab-handout/mdriver.c:716-774 | An id has a block exactly if the last request that names it is not a free, and then of the size requested last. |
| DriverState.HighWaterIsMost | malloclab-handout/mdriver.c:732-755 | The high-water mark bounds the live requested bytes after every request, and is reached. |
| DriverState.OrderMeans | malloclab-handout/mdriver.c:577-685 | When the driver's books are in order, every live id has an aligned payload of the requested size inside the heap that holds its low byte throughout, and no two payloads share a byte. |
| DriverState.Dropped | malloclab-handout/mdriver.c:634-642 | When an id gives up its block, remove_range finds its record, and owners, data and range list stay right for the others. |
| DriverState.Survived | malloclab-handout/mdriver.c:604-617 | Whatever an allocator does that keeps other payloads, bookkeeping and data stay right, and add_range will accept the block it hands out. |
| Package.MmPackage.Malloc | malloclab-handout/mdriver.c:607 | With either allocator: a new block of at least the size, other payloads kept, or a refusal that changes nothing, exactly when memory does not suffice; without free neighbours before there are none after. |
| Package.MmPackage.Realloc | malloclab-handout/mdriver.c:636 | With either allocator: a block of at least the size with the common prefix of the payload, other payloads kept, or a refusal that changes nothing, exactly when memory does not suffice. |
| Package.MmPackage.Free | malloclab-handout/mdriver.c:674 | With either allocator: exactly that block goes and other payloads are kept; without free neighbours before there are none after. |
| Package.MmPackage.SegmentsFit | malloclab-handout/mdriver.c:577-685 | With either allocator, in every state payloads are aligned, inside the heap and disjoint, and mm_.c never has free neighbours. |
| MDriver.AddRange | malloclab-handout/mdriver.c:381-429 | Accepts exactly the aligned ranges inside the heap that the overlap test lets through, and then puts the range at the head. |
| MDriver.RemoveRange | malloclab-handout/mdriver.c:434-449 | Takes out the first record that starts at the address, and changes nothing if there is none. |
| MDriver.Driver.DoAlloc | malloclab-handout/mdriver.c:604-630 | No check fails after mm_malloc; bookkeeping, range list and data pattern stay true; out of memory exactly when the allocator refuses. |
| MDriver.Driver.DoRealloc | malloclab-handout/mdriver.c:632-667 | After mm_realloc the data test fails if and only if the id's low byte is 128 or more, and the range test never; out of memory exactly when the allocator refuses. |
| MDriver.Driver.CheckData | malloclab-handout/mdriver.c:655-661 | On intact data the signed comparison succeeds if and only if the low byte is below 128. |
| MDriver.Driver.DoFree | malloclab-handout/mdriver.c:669-675 | The record and the block go, and everything else stays true. |
| MDriver.Driver.EvalMmValid | malloclab-handout/mdriver.c:577-685 | For every well-formed trace and either allocator: it passes, or the data test fails and a realloc has an id with low byte above 127, or the present state is one after k requests and request k needs more than mem_sbrk can give, which cannot happen when the worst-case growth of the whole trace fits. After a passed run every live id has an aligned payload of the requested size inside the heap, filled with its low byte and disjoint from the others. Passed runs leave no two free segments touching if there was no realloc or the allocator is mm_.c, and a single free segment once all is freed. |
| MDriver.RejectsCorrectPackage | malloclab-handout/mdriver.c:656 | Allocating and reallocating 8 bytes for id 128 fails the data test with either allocator. |
| MDriver.AcceptsOverlap | malloclab-handout/mdriver.c:409-410 | A range that covers a recorded one is accepted. |
| MDriver.Driver.EvalMmUtil | malloclab-handout/mdriver.c:698-778 | With either allocator the result, times the final heap size, is the largest sum of the requested bytes of live ids after any number of requests: no sum exceeds it and one reaches it. It lies between 0 and 1. There is none only if the present state is one after k requests and request k needs more than mem_sbrk can give. |
| MDriver.EverythingFreed | malloclab-handout/mm.c:723-755 | With every id freed and no free neighbours the heap is a single free segment or has none. |
| FreeList.InsertNode | malloclab-handout/mm_.c:71-83 | Four stores put the node right before the given one in the doubly linked chain and change only links. |
| FreeList.DeleteNode | malloclab-handout/mm_.c:86-96 | Two stores take the node out of the chain and change only links. |
| FreeList.RemovedIsWithout | malloclab-handout/mm_.c:86-96 | Taking out one position of a chain takes out that node. |
| FirstFit.FitIsFirst | malloclab-handout/mm_.c:139-145 | The search stops at the first listed block that fits, all before it are too small, and it reaches the tail if and only if no free block fits. |
| FirstFit.StateLayout | malloclab-handout/mm_.c:123-229 | In every state payloads are 8-byte aligned, inside the heap and disjoint; with no live block there is at most one block. |
| FirstFit.FreeOrder | malloclab-handout/mm_.c:194-206 | Joining the successor first and the predecessor second gives the same block list as the order of mm.c. |
| FirstFit.FreeFacts | malloclab-handout/mm_.c:194-206 | Freeing leaves no free neighbours and takes exactly that block from the live ones. |
| FirstFit.FreedIsRelisted | malloclab-handout/mm_.c:194-206 | A free successor leaves the list, wherever it is, the block is appended before the tail unless a free block ends where it begins, and all other nodes stay in order. |
| FirstFit.UnitsFor | malloclab-handout/mm_.c:133-137 | The least number of 8-byte units, at least 2, that hold a size word and the requested bytes. |
| FirstFit.Allocator.Init | malloclab-handout/mm_.c:102-117 | Establishes the invariant with the empty list. |
| FirstFit.Allocator.FindFit | malloclab-handout/mm_.c:139-145 | The loop returns the first fit, or the tail, whose size 0 fits nothing. |
| FirstFit.Allocator.Malloc | malloclab-handout/mm_.c:123-164 | The block is the end of the first fit, cut to exactly the units needed, if 2 or more remain in front, which stay free and listed; else the whole first fit, which leaves the list; or new at the break, which moves only if nothing fits. No other block and no live payload changes. It fails exactly when nothing fits and mem_sbrk cannot give the block, and then changes nothing. |
| FirstFit.Allocator.FindNeighbours | malloclab-handout/mm_.c:182-192 | The loop over the free list finds the free block that ends where the block begins and the one that begins where it ends. |
| FirstFit.Allocator.Free | malloclab-handout/mm_.c:169-207 | The block joins its free neighbours into one free block; the successor leaves the list, and the block is appended unless it joined a predecessor; no other block and no live payload changes. |
| FirstFit.Allocator.Realloc | malloclab-handout/mm_.c:212-229 | Always a new block, with the first min(old, new) bytes kept and all other payloads unchanged; fails exactly when mm_malloc does. |
| JobTable.FindPid | shlab-handout/tsh.c:681-690 | The first slot with the pid. |
| JobTable.MaxJid | shlab-handout/tsh.c:616-624 | The largest jid, 0 if none is positive. |
| JobTable.MaxJidTestsEmpty | shlab-handout/tsh.c:616-624 | In a well-formed table maxjid is 0 if and only if there is no job. |
| JobTable.AddAddsPid | shlab-handout/tsh.c:627-650 | With fewer than 16 jobs there is a free slot, exactly the new pid joins, and nextjid goes up by one or from 16 on back to 1. |
| JobTable.DeleteRemovesPid | shlab-handout/tsh.c:653-668 | Exactly the given pid leaves, its slot is cleared and all others stay; nextjid is then above every job id and, unless it is 1, by one above some. |
| JobTable.AddUnique | shlab-handout/tsh.c:639-641 | In a table with unique job ids, adding keeps them unique if and only if no slot has nextjid, which holds after deletejob. |
| JobTable.RepeatedJid | shlab-handout/tsh.c:639-663 | Twenty jobs that overlap in pairs bring the table to two jobs with id 1. |
| JobTable.Jobs.InitJobs | shlab-handout/tsh.c:608-613 | All slots are cleared. |
| JobTable.Jobs.GetMaxJid | shlab-handout/tsh.c:616-624 | The loop computes the largest jid. |
| JobTable.Jobs.AddJob | shlab-handout/tsh.c:627-650 | The first slot without a pid is filled, with nextjid for its id, and all others stay; nextjid goes up by one or from 16 on back to 1; fails exactly for a pid below 1 or a full table, changing nothing. |
| JobTable.Jobs.DeleteJob | shlab-handout/tsh.c:653-668 | The first slot with the pid is cleared and all others stay; nextjid is then above every job id and, unless it is 1, by one above some; fails exactly if there is none, changing nothing. |
| JobTable.Jobs.FgPid | shlab-handout/tsh.c:671-678 | The pid in the first slot marked FG, 0 if none is. |
| JobTable.Jobs.GetJobPid | shlab-handout/tsh.c:681-690 | The first slot with the pid, or none. |
| JobTable.Jobs.GetJobJid | shlab-handout/tsh.c:693-703 | The first slot with the jid, or none. |
| Tsh.NextKeeps | shlab-handout/tsh.c:224-331 | Every step of the main thread, the handler or a child keeps the invariant. |
| Tsh.WaitKeeps | shlab-handout/tsh.c:498-513 | Whatever waitpid reports, the invariant is kept, with a reaped child still in the table. |
| Tsh.DeadKeeps | shlab-handout/tsh.c:515-539 | For a child that died, deletejob restores the agreement of table and children. |
| Tsh.StopKeeps | shlab-handout/tsh.c:527-533 | For a child that stopped, its job is found and its slot marked ST, nothing else of the table changes, and the invariant is kept. |
| Tsh.FewerKeepsMain | shlab-handout/tsh.c:462-476 | Whatever the handler does in between, the main thread's view of the slot it looks at stays right. |
| Tsh.TableIsChildren | shlab-handout/tsh.c:252-324 | In every interleaving the nonzero pids are the unreaped children, except between fork and addjob, when SIGCHLD is blocked, and between reaping and deletejob inside the handler. |
| Tsh.LookupsNeverFail | shlab-handout/tsh.c:489-541 | In every interleaving the handler's getjobpid and that of eval succeed, waitpid never finds no child, and addjob has a free slot. |
| Tsh.ContinuesAJob | shlab-handout/tsh.c:430-439 | SIGCONT is only ever sent to the group of a positive pid, whose slot still holds it or has been freed. |
| Tsh.OneForeground | shlab-handout/tsh.c:306-330 | In every interleaving at most one job is in state FG; it is the one the main thread waits for, at the prompt there is none, and a job that is waited for is in state FG or ST. |
| Tsh.ForegroundIsWaitedFor | shlab-handout/tsh.c:256-330 | In every interleaving, from eval of a foreground command to any later prompt its child is forked, and the step that gives up waiting for it finds its job deleted or stopped. |
| Tsh.FgWaits | shlab-handout/tsh.c:441-448 | The same for a job that fg brings to the foreground. |
| Tsh.MarkedAsAsked | shlab-handout/tsh.c:306-456 | A new job is in the table, FG or BG as asked, when SIGCHLD is unblocked; fg and bg mark the job they found FG and BG. |
| Tsh.BgFgFinds | shlab-handout/tsh.c:385-440 | bg and fg go on with a slot that has the pid or job id asked for, report a missing job only if none has, and mark a job that was ST only after its child has been continued. |
| Tsh.FgPidIsForeground | shlab-handout/tsh.c:671-678 | With a job in the foreground, fgpid answers its pid if and only if no lower free slot is marked FG, and 0 otherwise. |
| Tsh.ForegroundUnseen | shlab-handout/tsh.c:441-448 | A run of the shell that ends with a job in the foreground while fgpid answers 0. |
| Tsh.HandlerReapsAll | shlab-handout/tsh.c:489-541 | When the handler returns, no zombie and no unreported stop is left, and table and children agree. |
| Rounding.Normalize | datalab-handout/bits.c:436-457 | For any magnitude and precision the loops compute the digit count, the shift and the rounded significand, with the carry into the count. |
| Rounding.Cut | datalab-handout/bits.c:447-452 | Guard digit, sticky bit and last kept digit give the significand rounded half to even. |
| Rounding.ShrLow | datalab-handout/bits.c:447-451 | What repeated halving keeps and drops are the quotient and the remainder by the power of two. |
| Rounding.RoundIsNearest | datalab-handout/bits.c:443-457 | No integer of p digits is nearer, and if another is as near the significand is even. |
| Rounding.RoundIsNearestFraction | datalab-handout/bits.c:443-457 | The same against every fraction of p digits. |
| Rounding.RoundIsIdentity | datalab-handout/bits.c:443-457 | Rounding leaves a number unchanged if and only if it has at most p significant digits. |
| Rounding.RoundIsMonotone | datalab-handout/bits.c:443-457 | Rounding keeps the order. |
| Float.FloatI2F | datalab-handout/bits.c:422-466 | For every 32-bit integer the pattern is finite, has its sign, and its value is the integer rounded to 24 digits. |
| Float.ConversionIsNearest | datalab-handout/bits.c:422-466 | No finite single-precision number is nearer to the integer, and if another is as near the result's significand is even. |
| Float.ConversionIsMonotone | datalab-handout/bits.c:422-466 | The conversion keeps the order. |
| Float.ConversionIsExact | datalab-handout/bits.c:422-466 | It is exact if and only if the integer has at most 24 significant digits, in particular up to 2^24 in magnitude. |

## Left out

- Mm.Allocator.Malloc: requests of size 0 are excluded, since they make a segment too small for a tree node, and so are requests whose rounded size wraps around in 32 bits.
- Mm.Allocator.Realloc: a NULL block with size 0 is excluded for the same reason; blocks handed in are live.
- Mm.Allocator.Sbrk: a failing mem_sbrk is an outcome (`ok` false) at which the model stops, because mm.c and mm_.c use its result unchecked.
- MemLib.Heap.Sbrk: the buffer starts at an 8-byte boundary, addresses count words from there, and NULL is offset 0, which is never a block.
- MemLib.StoreByte: a word written bytewise is data afterwards; reading it as a pointer or size again is not modelled, and no verified code does so.
- MmTree.DeleteNode: the call with a target is a method of its own, `DeleteLeast`, and the balance flag is a result instead of an out-parameter.
- MDriver.Driver.EvalMmValid: ids are allocated before they are reallocated or freed, and sizes are at least 1 and at most `MAX_REQUEST`; the run ends as `OutOfMemory` at a request that the allocator refuses, where the C code would go on with a wrong address.
- MDriver.AddRange: the range list is a sequence with its head first instead of linked records; error messages are not modelled.
- MDriver.Driver.EvalMmUtil: the division is over real numbers.
- FirstFit.Allocator.Realloc: the copy may read up to 8 bytes past the old payload, at worst past the break; the memory model has two words of slack there, and only the payload prefix is stated.
- Tsh.TableIsChildren: fork succeeds and no more than 16 children are unreaped, as the table demands; a failed fork would leave SIGCHLD blocked.
- Tsh.OneForeground: slots whose job has been reaped may be left marked FG by do_bgfg; the claim is about slots with a nonzero pid.
- Float.FloatI2F: `x >> 31` is the sign test (arithmetic shift), and fields that do not overlap are added instead of or-ed.
- Termination of waitfg: a signal between its test and pause can be missed, so no liveness is claimed.
- Blank command lines, quit, jobs, output, command parsing and the keyboard handlers, which only read the table; the signals they send are steps of the children.
- `malloclab-handout/mm_miss.c` and `malloclab-handout/rb.c`: a superseded version and an unfinished draft.
- The other puzzles of `bits.c`: fixed 32-bit identities.
- Trace files, timing, the libc runs, the proxy, system-call wrappers and the scripts.
