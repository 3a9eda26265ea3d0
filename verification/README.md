# A verified model of the RT-Thread kernel in this repository

The repository carries the RT-Thread 4.0.2 kernel next to board code. This project models the parts
of it whose correctness is hard to see from the code, and proves what they promise: the four memory
allocators, the blocking communication objects, the scheduler, and the three self-contained
algorithms that the board code relies on (the bounded formatter, a software CRC, and the EEPROM
driver that splits transfers into pages).

Every component comes in two layers.

* A module whose name ends in `Spec` describes the component on values: its state, one function per
  operation, the invariant, and the lemmas about every operation and every run of operations.
* A module beside it holds the imperative code: a class with the fields, link words, arrays and
  loops of the C source. Each of its methods is proved to do to the state what the operation of the
  value layer does, so that everything proved about the values holds of the code.

The configuration is the one of `rtconfig.h`: 32-bit words, `RT_ALIGN_SIZE` 4, 32 priorities, no
SMP, no signals. Integer widths appear where the code depends on them: `RT_ALIGN` and the size checks
wrap around at 2^32, the mutex hold counter at 2^8; the semaphore value and the sizes and counts of
mailboxes and message queues are 16-bit fields.

For the communication objects and the memory pool, every stretch of code that runs with interrupts
disabled is one step. A blocking call ends a step asleep and runs the same step again after it was
resumed; anything else may happen in between. Invariants therefore hold over all interleavings of
steps of any number of threads. The page and chunk allocator is treated in the same way, with the
stretches between two operations on its semaphore as steps. What `rt_thread_suspend`, `rt_thread_resume`, the thread timers and
the timeout handler do to a wait list is taken from `rt-thread/src/thread.c:715-829`; when a timer
fires is left open.

## Files

| file | contents |
|---|---|
| `RtDef.dfy`, `Lists.dfy`, `Chains.dfy` | shared types, alignment, sequences without repetition, singly linked lists |
| `RtList.dfy`, `LinkTable.dfy` | the circular doubly linked list of `rtservice.h`; lists through one table of link words |
| `BlockList.dfy`, `Memory.dfy` | lists of heap blocks that tile an address range; the copy routines |
| `MemHeapSpec.dfy`, `MemHeap.dfy` | `memheap.c` |
| `SmallMemSpec.dfy`, `SmallMem.dfy` | `mem.c` |
| `Pages.dfy`, `ZoneSizes.dfy`, `ZoneTable.dfy`, `Slab.dfy`, `SlabSteps.dfy`, `SlabLaws.dfy` | `slab.c`: pages, size classes, zone headers and their chunks, the allocator, calls that interleave, where chunks come from and when zones are given up |
| `IpcList.dfy`, `WaitList.dfy`, `Waiters.dfy` | wait lists on values and as rings; sleepers and resumed threads of a blocking object |
| `MemPool.dfy`, `Semaphore.dfy`, `Mutex.dfy`, `Event.dfy`, `Mailbox.dfy`, `MsgQueue.dfy` | `mempool.c` and `ipc.c` |
| `Bitmap.dfy`, `ReadyTable.dfy`, `Scheduler.dfy`, `SchedulerLaws.dfy` | `__rt_ffs`, the ready bitmaps, the ready lists, `scheduler.c`, the time slices of `clock.c`, round robin over any number of rounds |
| `Format.dfy`, `FormatLaws.dfy` | the formatter of `kservice.c`, and what formats mean |
| `Crc32.dfy`, `CrcRemainder.dfy`, `Eeprom.dfy` | `bspHcrc32.cpp`, its CRC as a remainder of polynomials, `at24cxx.c` |

## What the code does not do

Where the code falls short of its documentation or of what one would expect, the model follows the
code, a lemma says exactly when it happens, and another names an input or a run that shows it.

* `rt_malloc` of `mem.c` never uses the last free block when the request fills it exactly
  (`FitsUnlessLastExact`, `LastExactExample`). Shrinking a block with `rt_realloc` can leave a free block below the cached
  `lfree` that the searches after it miss (`ShrinkLowest`, `ShrinkThenMallocFails`). `rt_realloc` with more
  than 2^32 - 4 bytes returns NULL and releases the block (`FailureKeeps`, `FailureLoses`). On a heap with
  fewer than twelve payload bytes, `rt_malloc` does not come to an end once it searches (`FirstSearchEnds`,
  `TinyNeverEnds`).
* `rt_memheap_realloc` to a size from 2^32 - 15 to 2^32 - 4, on a block with a free one behind it, writes a
  header into that of the block itself and reports success (`OverrunsExactly`, `ReallocKeepsUnless`,
  `OverrunExample`).
* `rt_memheap_alloc` refuses a request that would use up the whole free memory, even when one block
  has exactly that size (`AllocMisses`, `AllocMissExample`).
* The chunks of 8192 and 16384 bytes of `slab.c` are not aligned to their size, although its comment
  guarantees that for powers of two (`PowerAligned`, `LargeChunkMisaligned`).
* The round-up of a request of more than 2^32 - 4 bytes wraps around to zero (`AlignCovers`, `AlignExample`).
* A mutex with the FIFO flag does not lend priority when it is handed over (`FifoHandOff`,
  `FifoInversion`). A 256th nested take wraps the hold counter (`NestingWraps`,
  `NestingExample`). After a timeout the
  owner may keep a priority that nobody lends any more (`StepTight`, `StaleLoan`).
* Releasing a semaphore whose value is 65535 resets it to zero (`StepBalance`, `FullCounterExample`).
* `rt_thread_yield` only schedules: a thread does not give way to others of its priority before its
  time slice is used up, although the documentation says that it does (`GivesWay`, `YieldExample`).
* `%o` prints hexadecimal digits (`OctalOnlyBelow8`, `OctalExample`), and a precision of zero suppresses all digits of
  any number (`PrecisionZero`, `DigitsShown`).
* `at24cxx_page_write` reports an error only when a transfer sends no message at all; the bus driver
  returns negative codes for failures, and those count as success (`ReportedErrors`, `OkTrusted`, `SilentLoss`). The
  range check of the driver wraps around at 2^32 (`RangeCheck`, `RangeCheckExample`).

## Model

| member | source | states |
|---|---|---|
| RtDef.AlignCovers | rt-thread/include/rtdef.h:286-290 | `RT_ALIGN` gives the least multiple of four that covers the size, unless the size is above 2^32 - 4, when it gives 0 |
| RtList.InsertLinks | rt-thread/include/rtservice.h:58-80 | the four link writes of an insertion turn a ring into the ring with the node at the given place |
| RtList.RemoveLinks | rt-thread/include/rtservice.h:86-92 | the link writes of a removal turn a ring into the ring without the node |
| RtList.LinksInverse | rt-thread/include/rtservice.h:33-92 | in a ring `prev` inverts `next` at every node |
| RtList.RtListInit | rt-thread/include/rtservice.h:47-50 | the node becomes a ring of its own, no other link changes |
| RtList.RtListInsertAfter | rt-thread/include/rtservice.h:58-66 | the node stands behind `l` in the ring, all others keep their order |
| RtList.RtListInsertBefore | rt-thread/include/rtservice.h:73-80 | the node stands in front of `l`, at the end when `l` is the list head |
| RtList.RtListRemove | rt-thread/include/rtservice.h:86-92 | the ring loses the node, which becomes a ring of its own |
| RtList.RtListIsEmpty | rt-thread/include/rtservice.h:98-101 | true exactly when the ring has no node but its head |
| RtList.RtListLen | rt-thread/include/rtservice.h:107-118 | the number of nodes behind the head |
| Memory.RtMemcpy | rt-thread/src/kservice.c:210-280 | word by word where both areas are aligned, the target holds what the source held, and no other byte changes |
| Memory.RtMemmove | rt-thread/src/kservice.c:293-312 | the same for areas that overlap in any way |
| BlockList.BlocksApart | rt-thread/src/memheap.c:50-121 | in a tiled block list, headers and payloads of different blocks never overlap |
| BlockList.FreedKeeps | rt-thread/src/mem.c:156-194 | releasing a block and joining it to its free neighbours keeps the tiling, leaves no two free blocks side by side, and takes exactly that block from the client |
| BlockList.FreedForwardFirst | rt-thread/src/mem.c:156-194 | joining first to the right and then to the left, as plug_holes does, gives the fully joined list |
| BlockList.FreedBySteps | rt-thread/src/memheap.c:536-578 | joining first to the left and then to the right, as rt_memheap_free does, gives the fully joined list |
| BlockList.FreedUndoesSplit | rt-thread/src/memheap.c:186-236 | releasing the front of a split block restores the block list |
| BlockList.LiveDetermines | rt-thread/src/memheap.c:536-578 | where no two free blocks touch, the blocks in use determine the whole list, so that a law that gives the blocks in use after a call gives the state |
| MemHeapSpec.RequestCovers | rt-thread/src/memheap.c:147-150 | the rounded request covers the size unless rounding wraps, and wastes less than four bytes above the minimum |
| MemHeapSpec.InitInv | rt-thread/src/memheap.c:50-121 | a new pool satisfies the invariant and has all but two headers available |
| MemHeapSpec.AllocKeeps | rt-thread/src/memheap.c:138-281 | alloc keeps the invariant; on success exactly one block, large enough and formerly nobody's, joins the live ones; on failure nothing changes |
| MemHeapSpec.AllocMisses | rt-thread/src/memheap.c:155-183 | a request that some free block can hold fails if and only if it equals the whole free memory |
| MemHeapSpec.AllocMissExample | rt-thread/src/memheap.c:155-183 | a new pool that refuses the exact size of its one free block |
| MemHeapSpec.AllocExact | rt-thread/src/memheap.c:138-281 | alloc answers if and only if the request is below the whole free memory and some free block holds it; the answer is the first such block of the free list, cut to the request unless the rest is smaller than a header and a smallest block, and max_used follows |
| MemHeapSpec.FreeKeeps | rt-thread/src/memheap.c:495-595 | free keeps the invariant and takes exactly the released block from the live ones |
| MemHeapSpec.ReleasedFirst | rt-thread/src/memheap.c:536-595 | what is released without joining a free block on its left is the first that the next search looks at |
| MemHeapSpec.RestFirst | rt-thread/src/memheap.c:186-236 | after an allocation that leaves a rest of its block, the next request that the rest can hold is served from it |
| MemHeapSpec.GrowKeeps | rt-thread/src/memheap.c:328-403 | growing in place keeps the invariant, the block keeps its address and has the new size, and the free bytes drop by the growth |
| MemHeapSpec.ShrinkKeeps | rt-thread/src/memheap.c:420-492 | shrinking in place, with the merge to the right, keeps the invariant, and the block keeps its address |
| MemHeapSpec.ReallocAnswers | rt-thread/src/memheap.c:284-492 | for a size other than zero, whatever path realloc takes, unless it overruns, the old block is replaced by one of at least the requested size, or the pool is unchanged |
| MemHeapSpec.ReallocNew | rt-thread/src/memheap.c:300-308 | without a former block, realloc answers if and only if an allocation of that size would, with the same block |
| MemHeapSpec.ReallocReleases | rt-thread/src/memheap.c:294-299 | a held block and size zero: the answer is NULL, exactly that block leaves the live ones, and at least its payload becomes available; without a block nothing happens |
| MemHeapSpec.ReallocShrinks | rt-thread/src/memheap.c:419-492 | a smaller size keeps the address and cuts the block to the request, unless no more than a header and a smallest payload would be cut off, when nothing changes |
| MemHeapSpec.ReallocGrows | rt-thread/src/memheap.c:328-403 | a larger size that finds room behind the block keeps the address, gives the block the size of the request, and max_used follows |
| MemHeapSpec.ReallocMoves | rt-thread/src/memheap.c:405-417 | any other size answers if and only if an allocation of that size would, and then exactly the old block is replaced by a piece of that one; else nothing changes |
| MemHeapSpec.RunAtLeast | rt-thread/src/memheap.c:138-595 | no run of calls that do not overrun ever makes a block with less than the smallest payload |
| MemHeapSpec.RunInv | rt-thread/src/memheap.c:138-595 | after a sequence of alloc, realloc and free the blocks tile the pool, no two free blocks are neighbours and the free list names each free block once, if and only if no call of it resized a block with a free block behind it to a size from 2^32 - 15 to 2^32 - 4 |
| MemHeapSpec.ModestRunInv | rt-thread/src/memheap.c:138-595 | when all sizes passed to realloc are at most 2^32 - 16, every sequence of calls keeps the invariant |
| MemHeapSpec.OverrunsExactly | rt-thread/src/memheap.c:344 | the 32-bit test of the room to grow passes although there is no room exactly when the block behind is free and the rounded size plus 12 wraps around |
| MemHeapSpec.ReallocKeepsUnless | rt-thread/src/memheap.c:344-402 | realloc leaves a sound pool if and only if it does not overrun; when it does, it returns the old pointer as a success |
| MemHeapSpec.OverrunExample | rt-thread/src/memheap.c:344-402 | the pool after one allocation of 100 bytes, and a request of 0xFFFFFFF1 bytes that destroys it |
| MemHeapSpec.FreeUndoesAlloc | rt-thread/src/memheap.c:138-595 | releasing what alloc just returned gives back the block list it started from |
| MemHeap.Heap.constructor | rt-thread/src/memheap.c:50-121 | builds the two rings of the initial pool |
| MemHeap.Heap.FindFree | rt-thread/src/memheap.c:169-180 | the walk along the free ring finds the first block of it that is large enough, or none |
| MemHeap.Heap.RtMemheapAlloc | rt-thread/src/memheap.c:138-281 | the linked code takes the state and returns the address that the allocation on values gives; available_size stays the sum of the free payloads |
| MemHeap.Heap.RtMemheapFree | rt-thread/src/memheap.c:495-595 | the linked code joins the block to its neighbours in both rings as the release on values does |
| MemHeap.Heap.GrowInPlace | rt-thread/src/memheap.c:328-403 | the link writes that take the free neighbour out and put the rest of it back give the grown state, in 32-bit arithmetic, with or without room |
| MemHeap.Heap.ShrinkInPlace | rt-thread/src/memheap.c:432-492 | the link writes of a shrink, with or without a merge to the right, give the shrunk state |
| MemHeap.Heap.RtMemheapRealloc | rt-thread/src/memheap.c:284-492 | the links are those of the realloc on values, for every former block and size, so that the block is released, made, shrunk, grown or moved as ReallocReleases, ReallocNew, ReallocShrinks, ReallocGrows and ReallocMoves say; unless the call overruns the pool is sound, the first min(old, new) payload bytes are those of the old block, every other live block keeps its bytes, and on failure no byte changes |
| SmallMemSpec.RequestCovers | rt-thread/src/mem.c:289-300 | the rounded request covers the size unless rounding wraps |
| SmallMemSpec.InitInv | rt-thread/src/mem.c:204-257 | a new heap satisfies the invariant, with the cached pointer at the lowest free block |
| SmallMemSpec.SearchFirst | rt-thread/src/mem.c:305-312 | the scan finds the first eligible block in address order |
| SmallMemSpec.MallocKeeps | rt-thread/src/mem.c:272-410 | malloc keeps the invariant and the strong reading of `lfree`; exactly one block joins the live ones, or nothing changes |
| SmallMemSpec.MallocLowest | rt-thread/src/mem.c:305-387 | with nothing free below `lfree`, malloc returns the lowest fitting block whose header is below mem_size_aligned - size, and NULL exactly when there is none |
| SmallMemSpec.MallocExact | rt-thread/src/mem.c:272-410 | in every reachable heap malloc answers if and only if the request passes the size tests and some block from `lfree` on is eligible; the answer is the lowest such block, cut to the request unless the rest is too small, and max_mem follows |
| SmallMemSpec.FitsUnlessLastExact | rt-thread/src/mem.c:305-308 | a large enough free block is passed over exactly when it is the last one and would be filled completely |
| SmallMemSpec.LastExactExample | rt-thread/src/mem.c:305-312 | a new heap on which malloc misses its one free block, of exactly the size asked for |
| SmallMemSpec.SearchEnds | rt-thread/src/mem.c:305-307 | in every reachable heap that holds the smallest block the search comes to its end |
| SmallMemSpec.TinyNeverEnds | rt-thread/src/mem.c:289-312 | in a heap of fewer than twelve payload bytes, a request that passes the size tests meets a bound that wraps around, and every turn of the search leads to another |
| SmallMemSpec.FirstSearchEnds | rt-thread/src/mem.c:275-312 | the first malloc on an initialised heap ends if and only if it is refused by the size tests or the heap holds the smallest block |
| SmallMemSpec.FreeKeeps | rt-thread/src/mem.c:546-609 | free keeps the invariant and the strong reading of `lfree`, takes exactly the released block, and used_mem falls by its span |
| SmallMemSpec.ShrinkKeeps | rt-thread/src/mem.c:471-497 | the shrink path keeps the weak form of the invariant |
| SmallMemSpec.ShrinkLowest | rt-thread/src/mem.c:471-497 | it keeps every block below `lfree` used exactly when `lfree` was below the block or its right neighbour was free |
| SmallMemSpec.ShrinkThenMallocFails | rt-thread/src/mem.c:471-497 | a reachable heap on which a shrink makes malloc miss a free block that fits |
| SmallMemSpec.ResizedAnswers | rt-thread/src/mem.c:421-510 | once the size is rounded, on every path of realloc the old block is replaced by one of that size, or nothing changes |
| SmallMemSpec.ReallocAnswers | rt-thread/src/mem.c:421-510 | a request of up to 2^32 - 4 bytes is answered with a block that covers it and replaces the old one, or fails and changes nothing; a larger one releases the block and returns NULL |
| SmallMemSpec.ReallocNew | rt-thread/src/mem.c:445-446 | without a former block, realloc answers if and only if malloc of that size would, with a block that covers the size, and else changes nothing |
| SmallMemSpec.ReallocReleases | rt-thread/src/mem.c:431-442 | a held block and a size that rounds to zero: the answer is NULL, exactly that block leaves the live ones and used_mem falls by its span |
| SmallMemSpec.ReallocInPlace | rt-thread/src/mem.c:430-498 | a size above the heap fails, the same size changes nothing, and a size that leaves room for a header and more than a smallest payload cuts the end off the block |
| SmallMemSpec.ReallocMoves | rt-thread/src/mem.c:499-510 | every other size moves the block to the lowest eligible one if there is one, and else fails and changes nothing |
| SmallMemSpec.ReallocOutside | rt-thread/src/mem.c:448-457 | a pointer from outside of the heap changes nothing and comes back |
| SmallMemSpec.FailureKeeps | rt-thread/src/mem.c:421-510 | a failed realloc with a size other than zero leaves the block live, and the heap as it was, if and only if the size is at most 2^32 - 4 |
| SmallMemSpec.FailureLoses | rt-thread/src/mem.c:430-442 | a failing call that takes the block from its owner |
| SmallMemSpec.RunInv | rt-thread/src/mem.c:272-609 | after every sequence of calls the chain tiles the heap, no two free blocks touch, `lfree` names a free block or the end and used_mem is the span of the used blocks; without realloc every block below `lfree` is used |
| SmallMemSpec.RunAtLeast | rt-thread/src/mem.c:272-609 | no run of calls ever makes a block with less than four bytes, and without realloc none with less than the smallest payload |
| SmallMemSpec.FreeUndoesMalloc | rt-thread/src/mem.c:272-609 | releasing what malloc just returned restores the block list and used_mem |
| SmallMem.SmallHeap.constructor | rt-thread/src/mem.c:204-257 | writes the two headers of the initial heap, which is fit for use if and only if it holds the smallest block |
| SmallMem.SmallHeap.PlugHoles | rt-thread/src/mem.c:156-194 | the header writes join the block forward and backward and move `lfree` as the release on values does |
| SmallMem.SmallHeap.FindFit | rt-thread/src/mem.c:305-323 | the loop over the headers finds the block that the search on values chooses |
| SmallMem.SmallHeap.RtMalloc | rt-thread/src/mem.c:272-410 | the header code takes the state and returns the address that the malloc on values gives, for every call that comes to an end |
| SmallMem.SmallHeap.RtFree | rt-thread/src/mem.c:546-609 | the header code takes the state of the free on values |
| SmallMem.SmallHeap.RtRealloc | rt-thread/src/mem.c:421-510 | the state and the answer of the realloc on values for every former pointer and size, so that the block is released, made, kept, shrunk or moved as ReallocReleases, ReallocNew, ReallocInPlace, ReallocMoves and ReallocOutside say; the first min(old, new) bytes are preserved, every other live block keeps its bytes, on failure no byte changes, and a failure with a size other than zero changes nothing exactly when the size can be rounded up |
| PagesSpec.AllocPages | rt-thread/src/slab.c:236-270 | the run list stays canonical; exactly the pages handed out leave the set of free pages, and they were free |
| PagesSpec.AllocLowest | rt-thread/src/slab.c:236-270 | page alloc returns the lowest address with that many free pages in a row, and fails only when there is none |
| PagesSpec.FreePages | rt-thread/src/slab.c:272-322 | the run list stays sorted, disjoint and never touching; exactly the released pages join the free ones |
| PagesSpec.CanonicalUnique | rt-thread/src/slab.c:272-322 | the run list is determined by the set of free pages |
| PagesSpec.FreeUndoesAlloc | rt-thread/src/slab.c:236-322 | freeing what was just allocated restores the identical list |
| PagesSpec.FreesCommute | rt-thread/src/slab.c:272-322 | two disjoint runs may be freed in either order |
| Pages.RtPageList.PageAlloc | rt-thread/src/slab.c:236-270 | the walk over the headers, and the write through the pointer to the previous link, give the list of the allocation on values |
| Pages.RtPageList.FindSpot | rt-thread/src/slab.c:285-311 | the scan of page free stops where the released run belongs |
| Pages.RtPageList.PageFree | rt-thread/src/slab.c:272-322 | the header writes give the list of the release on values, whichever neighbours are joined |
| ZoneSizes.SmallestFit | rt-thread/src/slab.c:401-459 | the index is in 0..71 and names the smallest chunk size of all that covers the request |
| ZoneSizes.SameIndexSameChunk | rt-thread/src/slab.c:401-459 | two requests share an index if and only if they share a chunk size, across all range boundaries; index and chunk grow with the request |
| ZoneSizes.EveryIndexUsed | rt-thread/src/slab.c:401-459 | every one of the 72 lists has requests of its own |
| ZoneSizes.WasteBounded | rt-thread/src/slab.c:401-459 | the waste is at most 7 bytes below 128 and less than an eighth above |
| ZoneSizes.RoundedStays | rt-thread/src/slab.c:401-459 | rounding a rounded size changes nothing |
| SlabSpec.NewZoneOk | rt-thread/src/slab.c:628-646 | for every class that a zone size admits, a new zone holds at least three chunks behind its header |
| SlabSpec.MallocLargeKeeps | rt-thread/src/slab.c:493-520 | a request for whole pages keeps the allocator sound and grants pages that were nobody's |
| SlabSpec.MallocSmallKeeps | rt-thread/src/slab.c:534-659 | a request for a chunk, from a listed zone, a spare zone or fresh pages, keeps the allocator sound and grants a chunk that was not handed out |
| SlabSpec.MallocKeeps | rt-thread/src/slab.c:478-667 | every rt_malloc grants memory of at least the size that was in nobody's hands and changes no other grant, or fails and changes nothing |
| SlabSpec.MallocFails | rt-thread/src/slab.c:478-667 | a request in range fails only when the free pages it needs are nowhere in a row |
| SlabSpec.FullyFree | rt-thread/src/slab.c:842-855 | a zone with z_nfree equal to z_nmax has no chunk handed out |
| SlabSpec.FreeKeeps | rt-thread/src/slab.c:771-904 | every rt_free of a live grant keeps the allocator sound and takes back that grant only; what becomes of its zone is the subject of SlabLaws.FreeRetires |
| SlabSpec.LiveApart | rt-thread/src/slab.c:539-659 | different grants never overlap |
| SlabSpec.GrantsAligned | rt-thread/src/slab.c:635-648 | every grant starts at a multiple of eight |
| SlabSpec.PowerAligned | rt-thread/src/slab.c:628-648 | a chunk with a power of two for its size starts at a multiple of it if and only if it is no larger than a page or its zone starts at such a multiple |
| SlabSpec.LargeChunkMisaligned | rt-thread/src/slab.c:628-648 | a first request that gets a chunk of 8192 bytes at an address that is no multiple of 8192 |
| SlabSpec.OwnerFound | rt-thread/src/slab.c:795-828 | memusage leads from the address of a grant back to its zone and chunk |
| SlabSpec.RunSound | rt-thread/src/slab.c:478-904 | over every run z_nfree counts unused and freed chunks, zone_array lists exactly the zones with free chunks, at most two free zones are kept, and no two grants overlap |
| SlabSteps.StepGood | rt-thread/src/slab.c:478-904 | every stretch of rt_malloc and rt_free between two semaphore operations keeps the allocator sound, with pages in the hands of any number of threads on their way between the page list and the tables |
| SlabSteps.StepGrants | rt-thread/src/slab.c:478-904 | every stretch adds exactly the grant that it hands out, of enough memory and formerly nobody's, or takes back exactly the one that is released, and all other grants stay where they are |
| SlabSteps.GrantStays | rt-thread/src/slab.c:478-904 | over every interleaving a grant keeps its place and size until a stretch releases it |
| SlabSteps.InterleavedSound | rt-thread/src/slab.c:478-904 | over every interleaving of such stretches no two grants overlap, and no grant lies in pages that are on their way |
| SlabSteps.MallocAlone | rt-thread/src/slab.c:493-667 | the stretches of an rt_malloc that nobody interrupts have the effect of the call, hand out its grant, and leave no pages in hand |
| SlabSteps.FreeAlone | rt-thread/src/slab.c:795-904 | the stretches of an rt_free that nobody interrupts have the effect of the call and leave no pages in hand |
| SlabHeap.RtSlab.constructor | rt-thread/src/slab.c:344-395 | chooses the zone size by doubling, frees all pages, and takes those of memusage |
| SlabHeap.RtSlab.RtMalloc | rt-thread/src/slab.c:478-667 | the code on linked zones and linked chunks takes the state of the malloc on values and returns the address of its grant |
| SlabHeap.RtSlab.RtFree | rt-thread/src/slab.c:771-904 | the linked code has the effect of the free on values, in zones, lists, page list and memusage, so that zones are given up as SlabLaws.FreeRetires says |
| SlabLaws.IdleExactly | rt-thread/src/slab.c:842-855 | a zone is wholly free if and only if nobody holds a chunk of it |
| SlabLaws.FreeRetires | rt-thread/src/slab.c:842-902 | a release that leaves a zone without live chunks, while another zone of its class has a chunk to give, ends that zone: it is kept for reuse, or when two are kept already exactly its pages become free; every other release leaves zones, spare zones and pages alone |
| SlabLaws.PutBackRetires | rt-thread/src/slab.c:842-902 | the same for the one stretch of a free that runs under the semaphore, after which the pages of the zone may be in the hand of its thread |
| SlabLaws.RunGivesUp | rt-thread/src/slab.c:478-904 | over every run, no class ever has two zones of which nobody holds a chunk |
| SlabLaws.InterleavedGivesUp | rt-thread/src/slab.c:478-904 | nor over every interleaving of the stretches of any number of calls |
| SlabLaws.LargeExact | rt-thread/src/slab.c:493-520 | a request for whole pages gets the lowest run that covers it with less than a page too much, and fails if and only if there is no such run or its size exceeds 32 bits |
| SlabLaws.SmallExact | rt-thread/src/slab.c:534-659 | a request for a chunk is served with the smallest chunk size of all that covers it, from a zone of its class, else from a spare zone, else from the lowest pages in a row, with a chunk never used before as long as the zone has one; it fails if and only if there is none of the three |
| SlabLaws.FreeUndoesMalloc | rt-thread/src/slab.c:534-904 | releasing a chunk that a used-up zone just gave restores the whole state, unless it ends the zone |
| SlabLaws.MallocUndoesFree | rt-thread/src/slab.c:534-904 | the chunk that came back last is the next one given, and the state is as before its release |
| SlabLaws.FreeUndoesLarge | rt-thread/src/slab.c:493-826 | releasing whole pages restores the page list and the large blocks |
| SlabLaws.InitPages | rt-thread/src/slab.c:326-391 | at the start exactly the pages behind those of memusage are free, which are the fewest that hold its entries |
| SlabLaws.ZoneSizeLeast | rt-thread/src/slab.c:371-374 | the zone size is the least power of two in its range that is at least half of a 1024th of the heap |
| LinkTable.RtLinkTable.Remove | rt-thread/src/slab.c:862-865 | the scan along z_next and the one write take exactly that zone out of its list, and no other list changes |
| LinkTable.RtLinkTable.HasOther | rt-thread/src/slab.c:854-855 | the test of the two pointers tells whether the list has another zone |
| ZoneTable.RtZoneTable.Give | rt-thread/src/slab.c:548-581 | the zone gives its next unused chunk, or the first of the chunks linked through their own memory |
| ZoneTable.RtZoneTable.Put | rt-thread/src/slab.c:830-842 | the link word written into a released chunk puts it in front of the free ones of its zone and disturbs no other zone |
| IpcList.SuspendKeeps | rt-thread/src/ipc.c:80-123 | queueing adds exactly the thread and leaves the order of the others alone |
| IpcList.SuspendSorted | rt-thread/src/ipc.c:93-118 | with the priority flag the list stays sorted, first come first among equals |
| IpcList.SuspendJoins | rt-thread/src/ipc.c:80-121 | the thread joins at the end under FIFO, and under PRIO in front of the first thread that it outranks |
| IpcList.JoinsOnly | rt-thread/src/ipc.c:80-121 | this rule leaves no choice |
| IpcList.WithoutLeaves | rt-thread/src/thread.c:807-829 | a thread that times out leaves the list, and the others keep their order |
| WaitList.RtIpcList.RtIpcListSuspend | rt-thread/src/ipc.c:80-123 | the link writes on the ring of the list give the list of the queueing on values, and touch no other node |
| WaitList.RtIpcList.FindPlace | rt-thread/src/ipc.c:100-117 | the walk along the ring finds the first thread that the newcomer outranks |
| WaitList.RtIpcList.RtIpcListResume | rt-thread/src/ipc.c:134-147 | the first thread leaves the ring and its node is a ring of its own |
| WaitList.RtIpcList.RtIpcListResumeAll | rt-thread/src/ipc.c:158-183 | the threads leave in the order of the list, until the ring is empty |
| WaitList.RtIpcList.Leave | rt-thread/src/thread.c:799-829 | a timed-out thread leaves the ring wherever it stands |
| WaitList.RtIpcList.InsertFirst | rt-thread/src/mempool.c:338 | insertion behind the head puts the newcomer first, as rt_mp_alloc queues |
| WaitList.RtIpcLists.Leave | rt-thread/src/thread.c:799-829 | with two lists in one object, a timed-out thread leaves the ring that it is in and the other stays |
| WaitList.RtIpcLists.ResumeAll | rt-thread/src/ipc.c:158-183 | both lists of an object are emptied |
| Waiters.WakeKeeps | rt-thread/src/ipc.c:134-147 | one more item and one more resumed thread keep the rule that sleepers leave no item uncovered |
| Waiters.RanKeeps | rt-thread/src/ipc.c:1473-1542 | a thread that runs and takes an item keeps the rule as well |
| Waiters.WakesFirst | rt-thread/src/ipc.c:134-148 | exactly the first sleeper is resumed |
| Waiters.SideOrder | rt-thread/src/ipc.c:80-148 | whatever threads come, go or time out, the sleepers of an object with the priority flag stay in order, so that the next to be resumed is one of the best |
| MemPoolSpec.RunInv | rt-thread/src/mempool.c:303-449 | in every interleaving the free list names blocks of the pool once each, and while a thread sleeps every free block has a resumed thread coming for it |
| MemPoolSpec.NobodyStranded | rt-thread/src/mempool.c:319-445 | once the resumed threads have run, nobody sleeps while a block is free |
| MemPoolSpec.AllocExclusive | rt-thread/src/mempool.c:371-382 | a block that is handed out was free and is so no longer, and giving it back restores the free list |
| MemPoolSpec.AllocOutcome | rt-thread/src/mempool.c:303-391 | an allocation gets the first free block if and only if there is one, and sleeps, in front of the others, if and only if there is none and it waits |
| MemPoolSpec.OtherOutcome | rt-thread/src/mempool.c:399-450 | a block that comes back is the next handed out and the thread that went to sleep last is resumed; a timeout takes one thread off |
| MemPoolSpec.BlocksApart | rt-thread/src/mempool.c:96-121 | the link words and payloads of different blocks do not overlap and lie in the area |
| MemPool.RtMemPool.constructor | rt-thread/src/mempool.c:77-124 | threads the free list through all blocks in address order |
| MemPool.RtMemPool.AllocStep | rt-thread/src/mempool.c:316-391 | one step of rt_mp_alloc has the effect of the allocation on values |
| MemPool.RtMemPool.FreeStep | rt-thread/src/mempool.c:399-449 | one step of rt_mp_free has the effect of the release on values |
| SemaphoreSpec.StepInv | rt-thread/src/ipc.c:324-515 | nobody sleeps on a semaphore with a unit to take, after any step |
| SemaphoreSpec.StepBalance | rt-thread/src/ipc.c:433-471 | a step loses no unit if and only if it is not a release of the full counter without sleepers |
| SemaphoreSpec.FullCounterExample | rt-thread/src/ipc.c:433-471 | a release of a full counter leaves zero |
| SemaphoreSpec.RunBalance | rt-thread/src/ipc.c:324-471 | over any run without reset, with room in the counter, units granted plus units left equal units given |
| SemaphoreSpec.TakeOutcome | rt-thread/src/ipc.c:324-412 | a take succeeds if and only if there is a unit, and sleeps if and only if there is none and it waits, queued by the rule of the flag; nothing else changes |
| SemaphoreSpec.OtherOutcome | rt-thread/src/ipc.c:433-515 | a release resumes the first sleeper or counts, a timeout takes one thread off, a reset takes all and sets the value |
| SemaphoreSpec.RunOrder | rt-thread/src/ipc.c:324-515 | in every run with the priority flag the next thread to be resumed is one of the best sleepers |
| Semaphore.RtSemaphore.TakeStep | rt-thread/src/ipc.c:324-409 | one step of rt_sem_take has the effect of the take on values |
| Semaphore.RtSemaphore.ReleaseStep | rt-thread/src/ipc.c:433-471 | one step of rt_sem_release hands the unit to the first sleeper or counts it |
| MutexSpec.StepInv | rt-thread/src/ipc.c:654-881 | every step keeps ownership and hold count consistent, only the owner's priority raised, and with the priority flag the waiters sorted behind the owner |
| MutexSpec.RunInherits | rt-thread/src/ipc.c:681-870 | in every reachable state every thread but the owner has its own priority, and with the priority flag no waiter outranks the owner |
| MutexSpec.StepTight | rt-thread/src/ipc.c:721-728 | a step leaves the owner with a priority that is neither its own nor a waiter's if and only if it is the timeout of the only waiter that still lent it |
| MutexSpec.StaleLoan | rt-thread/src/ipc.c:721-728 | a run after which the owner has a priority that nobody lends |
| MutexSpec.ReleaseUndoesTake | rt-thread/src/ipc.c:681-870 | a take that gets the mutex is undone by the matching release, nested or not |
| MutexSpec.TakeOutcome | rt-thread/src/ipc.c:654-775 | a take reports success if and only if its thread owns the mutex afterwards, a timeout if and only if another thread owns it and it does not wait, when nothing changes; a thread that sleeps lends the owner its priority if that is better, and nothing else to anybody |
| MutexSpec.ReleaseOutcome | rt-thread/src/ipc.c:790-880 | a release reports success if and only if its thread owned the mutex, and else changes nothing; the mutex passes on to the first waiter, or becomes free, with the last hold |
| MutexSpec.TimeoutOutcome | rt-thread/src/thread.c:807-829 | a waiter that gives up leaves the list and nothing else |
| MutexSpec.LastReleaseRestores | rt-thread/src/ipc.c:828-839 | the last release gives every thread back its own priority |
| MutexSpec.HandOffToBest | rt-thread/src/ipc.c:841-861 | with the priority flag the mutex goes to a waiter that no other outranks |
| MutexSpec.FifoHandOff | rt-thread/src/ipc.c:841-861 | with the FIFO flag the new owner is outranked by no waiter if and only if the one that waited longest is |
| MutexSpec.FifoInversion | rt-thread/src/ipc.c:841-861 | a run that ends with an owner outranked by a waiter |
| MutexSpec.NestingWraps | rt-thread/src/ipc.c:681-685 | a nested take keeps the mutex consistent if and only if it is not the 256th hold |
| MutexSpec.NestingExample | rt-thread/src/ipc.c:681-685 | a run of 255 nested takes, after which one more leaves an owned mutex that is held zero times |
| Mutex.RtMutex.TakeStep | rt-thread/src/ipc.c:654-779 | the code of rt_mutex_take, with the priority change of the owner, has the effect of the take on values |
| Mutex.RtMutex.ReleaseStep | rt-thread/src/ipc.c:790-881 | the code of rt_mutex_release has the effect of the release on values |
| EventSpec.ServeKeeps | rt-thread/src/ipc.c:1050-1101 | the scan only takes events away, touches only the waiters it serves, and leaves no waiter whose condition the final set meets |
| EventSpec.StepInv | rt-thread/src/ipc.c:1029-1277 | after every send, receive, timeout or reset no waiter's condition is met |
| EventSpec.RunStrandsNobody | rt-thread/src/ipc.c:1029-1277 | the same after every run |
| EventSpec.DelayedIsImmediate | rt-thread/src/ipc.c:1063-1092 | for every waiter of the list, the scan of a send serves it exactly when a receive called at that point of the scan would succeed, with the same events delivered and the same left behind |
| EventSpec.DeliveredWereSet | rt-thread/src/ipc.c:1050-1101 | nobody receives an event that is not set |
| EventSpec.ClearedOnce | rt-thread/src/ipc.c:1087-1095 | an event that one send clears for a waiter reaches no waiter after it |
| EventSpec.SatisfiedMeans | rt-thread/src/ipc.c:1063-1082 | with the AND flag a thread waits for every event that it names, else with the OR flag for any, event by event |
| EventSpec.RecvOutcome | rt-thread/src/ipc.c:1127-1239 | a receive succeeds if and only if its condition holds, with the events it names that are set, and sleeps if and only if it does not hold and it waits; only with the CLEAR flag do those it names leave the set, without it the set stays as it is |
| EventSpec.SendLeaves | rt-thread/src/ipc.c:1029-1114 | after a send an event is set if and only if it was set or sent and was not delivered to a waiter with the CLEAR flag |
| EventSpec.OtherOutcome | rt-thread/src/ipc.c:1041-1042 | a send of nothing is refused; a timeout takes one thread off, the reset all of them and all events |
| EventSpec.RunOrder | rt-thread/src/ipc.c:1029-1239 | in every run with the priority flag the waiters are served best first |
| Event.RtEvent.Deliver | rt-thread/src/ipc.c:1059-1091 | the AND and OR branches, the saved set and the clearing equal an immediate receive |
| Event.RtEvent.SendStep | rt-thread/src/ipc.c:1029-1111 | the scan of a list from which waiters drop out has the effect of the send on values |
| Event.RtEvent.RecvStep | rt-thread/src/ipc.c:1158-1220 | one step of rt_event_recv has the effect of the receive on values |
| MailboxSpec.RunInv | rt-thread/src/ipc.c:1442-1758 | no interleaving loses a wakeup: while a receiver sleeps, each waiting mail has a resumed receiver coming for it, and the same for senders and free slots |
| MailboxSpec.NobodyStranded | rt-thread/src/ipc.c:1473-1706 | once the resumed threads have run, receivers sleep only on an empty mailbox and senders only on a full one |
| MailboxSpec.RunFifo | rt-thread/src/ipc.c:1535-1691 | without a reset, the mails received and those still queued are the mails sent, in order and once each |
| MailboxSpec.SendOutcome | rt-thread/src/ipc.c:1442-1565 | a send succeeds if and only if there is room, sleeps if and only if there is none and it waits, and resumes the first receiver if and only if it succeeds |
| MailboxSpec.RecvOutcome | rt-thread/src/ipc.c:1590-1714 | a receive gets the oldest mail if and only if there is one, sleeps if and only if there is none and it waits, and resumes the first sender if and only if it succeeds |
| MailboxSpec.OtherOutcome | rt-thread/src/ipc.c:1726-1757 | a timeout takes one thread off the lists, the reset all of them and all mails |
| MailboxSpec.RunOrder | rt-thread/src/ipc.c:1442-1757 | in every interleaving with the priority flag the thread that is resumed is one of the best that sleep |
| Mailbox.RtMailbox.RingPut | rt-thread/src/ipc.c:1535-1542 | the ring gains the mail behind its youngest |
| Mailbox.RtMailbox.RingGet | rt-thread/src/ipc.c:1683-1691 | the ring loses its oldest mail |
| Mailbox.RtMailbox.SendStep | rt-thread/src/ipc.c:1442-1561 | one step of rt_mb_send_wait has the effect of the send on values |
| Mailbox.RtMailbox.RecvStep | rt-thread/src/ipc.c:1590-1714 | one step of rt_mb_recv has the effect of the receive on values |
| Mailbox.RtMailbox.ResetStep | rt-thread/src/ipc.c:1726-1758 | all sleepers leave, the ring is empty |
| MsgQueueSpec.StepInv | rt-thread/src/ipc.c:1975-2445 | every step keeps every node in exactly one place, free, queued or in one thread's hand, and loses no wakeup |
| MsgQueueSpec.RunConserves | rt-thread/src/ipc.c:2017-2434 | over every interleaving free, queued and held nodes make up max_msgs, and nobody sleeps on a condition that holds once the resumed threads have run |
| MsgQueueSpec.StepRefines | rt-thread/src/ipc.c:2090-2361 | linking appends the message of a plain send and prepends that of an urgent one, as the call that took the node was the one or the other, unlinking pops the first, a reset empties the queue, and all other steps leave it alone |
| MsgQueueSpec.RunRefines | rt-thread/src/ipc.c:2090-2361 | every run is a run of a deque of the messages that the nodes hold when they are linked, however the copies outside the lock interleave |
| MsgQueueSpec.RunCarries | rt-thread/src/ipc.c:2085-2361 | over every interleaving a deque of the buffers passed to the sends goes along with the queue, with those of plain calls joining its end and those of urgent calls its front: each queued node, and each node in a receiver's hand, begins with the buffer that was sent in it, urgent buffers stand in front, and plain ones leave in the order in which they joined |
| MsgQueueSpec.Delivered | rt-thread/src/ipc.c:2085-2361 | what any receiver copies out, after any interleaving from an empty queue on, begins like the buffer that a send put in its place of that deque |
| MsgQueueSpec.TakeFreeOutcome | rt-thread/src/ipc.c:1991-2083 | a send gets a node if and only if the message fits and one is free, is rejected if and only if it does not fit, and sleeps if and only if none is free, it is a plain one and it waits |
| MsgQueueSpec.TakeFirstOutcome | rt-thread/src/ipc.c:2262-2352 | a receive gets the first message if and only if there is one, and sleeps if and only if there is none and it waits |
| MsgQueueSpec.OtherOutcome | rt-thread/src/ipc.c:2111-2445 | linking resumes the first receiver and a released node the first sender; a timeout takes one thread off the lists, the reset all of them, and the queued nodes become free |
| MsgQueueSpec.RunOrder | rt-thread/src/ipc.c:1975-2445 | in every interleaving with the priority flag the thread that is resumed is one of the best that sleep |
| MsgQueueSpec.HandKept | rt-thread/src/ipc.c:2085-2088 | a node in hand and its message are touched by no step of another thread |
| MsgQueueSpec.CopyRoundTrip | rt-thread/src/ipc.c:2354-2355 | what is copied out of a node begins like what was copied in |
| MsgQueueSpec.ReceivesFirst | rt-thread/src/ipc.c:2339-2355 | the receiver holds the message that was first in the queue |
| MsgQueue.RtMessageQueue.PointersTell | rt-thread/src/ipc.c:2342-2346 | the head pointer is null exactly when the tail pointer is, namely when nothing is queued |
| MsgQueue.RtMessageQueue.constructor | rt-thread/src/ipc.c:1781-1831 | pushes all nodes onto the free list, for every message size and pool size |
| MsgQueue.NodeSizeCovers | rt-thread/src/ipc.c:1807-1808 | a node takes a message of the size asked for if and only if that is at most 65532, because msg_size is a 16-bit field |
| MsgQueue.NodesFit | rt-thread/src/ipc.c:1807-1808 | the max_msgs nodes fit into the pool, and no further one does unless 65536 or more would |
| MsgQueue.RtMessageQueue.SendTake | rt-thread/src/ipc.c:1991-2083 | the first step of a plain send has the effect of the take on values for a plain call; that it marks its node as one is part of StepRefines and TakeFreeOutcome |
| MsgQueue.RtMessageQueue.UrgentTake | rt-thread/src/ipc.c:2166-2189 | the first step of an urgent send, which never waits |
| MsgQueue.RtMessageQueue.LinkStep | rt-thread/src/ipc.c:2090-2125 | linking through head, tail and next pointers appends or prepends the node and wakes a receiver |
| MsgQueue.RtMessageQueue.RecvTake | rt-thread/src/ipc.c:2262-2352 | the first step of a receive unlinks the head or waits |
| MsgQueue.RtMessageQueue.Fill | rt-thread/src/ipc.c:2087-2088 | the copy into the node in hand has the effect of the copy on values |
| MsgQueue.RtMessageQueue.Drain | rt-thread/src/ipc.c:2354-2355 | the copy out of the node in hand gives at most msg_size bytes of its message |
| MsgQueue.RtMessageQueue.ReleaseStep | rt-thread/src/ipc.c:2357-2366 | the emptied node goes to the front of the free list and a sender is woken |
| MsgQueue.RtMessageQueue.ResetStep | rt-thread/src/ipc.c:2397-2445 | every queued node returns to the free list, head and tail are null |
| Bitmap.FfsRight | rt-thread/src/kservice.c:1286-1330 | __rt_ffs with its byte table gives the least significant bit that is set, counted from 1 |
| Bitmap.HighestRight | rt-thread/src/scheduler.c:162-184 | with up to 32 priorities the bitmap search gives the first non-empty list, and zero means that all are empty |
| Bitmap.InsertAgrees | rt-thread/src/scheduler.c:708-742 | an insertion keeps the bitmap in agreement with the lists |
| Bitmap.RemoveAgrees | rt-thread/src/scheduler.c:805-835 | a removal keeps it in agreement |
| Bitmap.Highest256Right | rt-thread/src/scheduler.c:167-171 | with more than 32 priorities the two-level search gives the same plain minimum |
| Bitmap.Insert256Agrees | rt-thread/src/scheduler.c:733-737 | an insertion keeps both levels in agreement with the lists |
| Bitmap.Remove256Agrees | rt-thread/src/scheduler.c:818-831 | a removal of the last thread of a list keeps both levels in agreement |
| SchedulerSpec.ScheduleKeeps | rt-thread/src/scheduler.c:418-538 | a schedule keeps the invariant: each ready thread is in exactly the list of its priority, the current thread in none |
| SchedulerSpec.StepInv | rt-thread/src/scheduler.c:418-965 | so do startup, suspend, resume, priority change, critical sections and ticks |
| SchedulerSpec.Run | rt-thread/src/scheduler.c:418-965 | the invariant holds in every state that a run of them reaches |
| SchedulerSpec.BestRuns | rt-thread/src/scheduler.c:418-538 | after an unlocked schedule with a thread ready, the current thread runs and no ready thread outranks it |
| SchedulerSpec.GivesWay | rt-thread/src/scheduler.c:439-454 | the running thread gives way if and only if a ready thread outranks it, or equals it and the slice is used up |
| SchedulerSpec.YieldExample | rt-thread/src/scheduler.c:418-538 | rt_thread_yield keeps the processor although a thread of the same priority is ready |
| SchedulerSpec.SliceUsedUp | rt-thread/src/clock.c:83-96 | when the slice of the running thread is used up, the ring of threads of that priority has turned by one, that thread has its full slice again, and no other slice has changed |
| SchedulerSpec.RunsInTurn | rt-thread/src/clock.c:83-96 | with the ready threads fixed, the thread at position k runs within the slices of the k threads ahead of it |
| SchedulerLaws.TickSlice | rt-thread/src/clock.c:83-96 | whoever else is ready, a tick costs the running thread one of its ticks, or at the end of its slice gives it init_tick again, and changes nobody else's |
| SchedulerLaws.FullTurn | rt-thread/src/clock.c:83-96 | once the ring has turned fully, it is as before and every thread in it has its full slice |
| SchedulerLaws.Rounds | rt-thread/src/clock.c:83-96 | from then on every round takes exactly the sum of the init_ticks and ends as it began, for any number of rounds |
| SchedulerLaws.RoundRobin | rt-thread/src/clock.c:83-96 | in every round after the first, the thread at position k runs in exactly the ticks of its slice, after the slices of the threads in front of it |
| SchedulerLaws.LockHolds | rt-thread/src/scheduler.c:878-965 | as long as fewer exits than enters have been made, the current thread keeps the processor, whatever threads become ready or suspended and however many ticks pass |
| SchedulerLaws.ExitSchedules | rt-thread/src/scheduler.c:940-965 | the exit that ends the lock schedules: if a thread is ready, the current one runs afterwards and nobody ready outranks it |
| SchedulerLaws.SwitchOutcome | rt-thread/src/scheduler.c:418-538 | a switch gives the processor to the first thread of the best list; the one that gave way is ready, last of its list and not marked as having used up a slice; everything else stays |
| SchedulerLaws.SuspendOutcome | rt-thread/src/thread.c:715-755 | suspending a ready or running thread takes it off its list and changes nothing else; any other stays as it is |
| SchedulerLaws.ResumeOutcome | rt-thread/src/thread.c:764-797 | a suspended thread, and only such, becomes ready and last of its list, and so does an initial one that is started |
| SchedulerLaws.ChangeOutcome | rt-thread/src/thread.c:620-668 | a change of priority changes nothing else; a ready thread moves from its list to the end of the other |
| Scheduler.RtScheduler.InsertThread | rt-thread/src/scheduler.c:708-742 | ring and bitmap writes have the effect of the insertion on values |
| Scheduler.RtScheduler.RemoveThread | rt-thread/src/scheduler.c:805-835 | ring and bitmap writes have the effect of the removal on values |
| ReadyTable.RtReadyTable.Append | rt-thread/src/scheduler.c:726-728 | insertion before the head of a priority ring appends the thread to that list, and every other ring stays |
| ReadyTable.RtReadyTable.Remove | rt-thread/src/scheduler.c:818-820 | a thread leaves its ring, or its node stays a ring of its own when it is in none |
| Scheduler.RtScheduler.SuspendThread | rt-thread/src/thread.c:715-755 | keeps the invariant and has the effect of the suspend on values |
| Scheduler.RtScheduler.ResumeThread | rt-thread/src/thread.c:764-797 | keeps the invariant and has the effect of the resume on values |
| Scheduler.RtScheduler.ChangePriority | rt-thread/src/thread.c:620-668 | a ready thread moves to the list of its new priority |
| Scheduler.RtScheduler.Schedule | rt-thread/src/scheduler.c:418-538 | the code with the bitmap has the effect of the schedule that searches plainly |
| Scheduler.RtScheduler.ExitCritical | rt-thread/src/scheduler.c:940-965 | the last exit unlocks and schedules |
| Scheduler.RtScheduler.TickIncrease | rt-thread/src/clock.c:74-99 | the code has the effect of the tick on values, of which SchedulerLaws.TickSlice and RoundRobin say what it does to the slices |
| FormatSpec.DigitsRight | rt-thread/src/kservice.c:676-683 | the printed digits stand for the number, without leading zeros |
| FormatSpec.SkipReadsDigits | rt-thread/src/kservice.c:588-595 | skip_atoi reads back the decimal digits that are printed, wherever they stand |
| FormatSpec.NumberWidth | rt-thread/src/kservice.c:685-772 | a number fills its field exactly, or is as long as its sign, zeros and digits need |
| FormatSpec.NumberShape | rt-thread/src/kservice.c:685-772 | unless the precision is zero, a number is printed as its sign, zeros, and all its digits, with blanks on the side that the flags say |
| FormatSpec.DigitsShown | rt-thread/src/kservice.c:759-765 | the digits of a number other than zero are printed if and only if the precision is not zero |
| FormatSpec.PrecisionZero | rt-thread/src/kservice.c:759-765 | with a precision of zero no digit of any number is printed |
| FormatSpec.DecimalRoundTrip | rt-thread/src/kservice.c:777-1040 | what "%d" prints for a non-negative int is read back as that int |
| FormatSpec.OctalOnlyBelow8 | rt-thread/src/kservice.c:568-585 | "%o" prints the octal digits of a number if and only if it is below 8 |
| FormatSpec.OctalExample | rt-thread/src/kservice.c:568-585 | eight is printed as 8 and not as 10 |
| FormatLaws.OutputMeans | rt-thread/src/kservice.c:810-1025 | a format prints what the pieces mean that it was written from: plain text as it stands, and each conversion with its own flags, width, precision and qualifier, numbers or `*`, and with the next of the arguments |
| FormatLaws.ParseReads | rt-thread/src/kservice.c:820-883 | a conversion is read back as it was written |
| FormatLaws.PlainPrints | rt-thread/src/kservice.c:812-818 | text without a per cent sign is printed as it stands |
| FormatLaws.NumberMeans | rt-thread/src/kservice.c:945-1024 | unless the precision is zero, %d %i %u %x %X %p %o print digits whose value in their base is the argument, narrowed by h and with its sign, in capitals for %X only, in a field of the width asked for |
| FormatLaws.StringMeans | rt-thread/src/kservice.c:913-943 | %s prints the string, cut to a precision above zero, with blanks on one side up to the width; a precision of zero cuts nothing |
| FormatLaws.CharacterMeans | rt-thread/src/kservice.c:890-911 | %c prints the character of the low byte, with blanks on one side up to the width |
| FormatLaws.OtherMeans | rt-thread/src/kservice.c:962-998 | any other character stands for itself behind the per cent sign, and two of them for one |
| Format.SkipAtoiFrom | rt-thread/src/kservice.c:588-595 | the loop reads the number that the digits stand for |
| Format.ReadSpec | rt-thread/src/kservice.c:820-883 | flags, width, precision and qualifier are read as specified, with their arguments |
| Format.MakeDigits | rt-thread/src/kservice.c:676-683 | the loop over divide gives the digits, last first |
| Format.Printer.PrintNumber | rt-thread/src/kservice.c:606-775 | the loops of print_number emit the sign, padding, zeros and digits of the specified field |
| Format.Printer.PutConversion | rt-thread/src/kservice.c:887-1024 | every conversion emits its specified text |
| Format.VsnPrintf | rt-thread/src/kservice.c:777-1040 | the buffer holds the first min(n, size - 1) characters of the unbounded output and a NUL, nothing behind that changes, and n does not depend on the size |
| Crc32.SoftCrc32 | bsp/bspHcrc32.cpp:16-41 | the loop that mixes in one bit at a time gives the CRC that adds each word first and then divides 32 times |
| Crc32.CrcAppend | bsp/bspHcrc32.cpp:16-41 | the CRC of a message goes on from the CRC of its beginning |
| Crc32.CrcXor | bsp/bspHcrc32.cpp:16-41 | the CRC is linear in start value and message |
| Crc32.CrcAffine | bsp/bspHcrc32.cpp:16-41 | with the start value fixed it is affine over exclusive or |
| Crc32.OneWordNoticed | bsp/bspHcrc32.cpp:16-41 | two messages that differ in one word have different CRCs |
| CrcRemainder.PolynomialIs | bsp/bspHcrc32.cpp:20 | the bits of the constant are the powers 26, 23, 22, 16, 12, 11, 10, 8, 7, 5, 4, 2, 1 and 0 of the generator of IEEE Std 802.3 |
| CrcRemainder.ShiftsDivide | bsp/bspHcrc32.cpp:24-36 | n steps multiply by the nth power of the variable modulo the generator |
| CrcRemainder.CrcIsRemainder | bsp/bspHcrc32.cpp:16-41 | the CRC is the one polynomial below the 32nd power that is congruent, modulo the generator, to the start value and the message followed by 32 zero bits |
| EepromSpec.InsidePage | packages/at24cxx-latest/at24cxx.c:354-403 | a write transfer that stays inside a page is a flat write, although the device wraps inside the page |
| EepromSpec.WrapMatters | packages/at24cxx-latest/at24cxx.c:354-403 | a transfer of a given start and data is a flat write on every memory if and only if it stays inside its page |
| EepromSpec.ChunksFlat | packages/at24cxx-latest/at24cxx.c:354-403 | when all its transfers get through, the page-split write leaves the memory of the flat write, for every start and length |
| EepromSpec.MovedFlat | packages/at24cxx-latest/at24cxx.c:354-403 | the memory is that of the flat write as soon as every transfer has moved its chunk, whatever the driver returned |
| EepromSpec.FlatIs | packages/at24cxx-latest/at24cxx.c:304-343 | the flat write replaces exactly the addressed bytes by the data |
| EepromSpec.ReadBack | packages/at24cxx-latest/at24cxx.c:247-293 | reading where was written gives the data |
| EepromSpec.RangeCheck | packages/at24cxx-latest/at24cxx.c:361-364 | the range check passes exactly the ranges inside the device and those whose end wraps around at 2^32 |
| EepromSpec.RangeCheckExample | packages/at24cxx-latest/at24cxx.c:361-364 | a range far outside of the device that passes the check |
| EepromSpec.ReportedErrors | packages/at24cxx-latest/at24cxx.c:369-393 | the page-split write reports an error if and only if some transfer sent no message |
| EepromSpec.OkTrusted | packages/at24cxx-latest/at24cxx.c:369-393 | a reported success means a flat write, whatever the memory and the data, if and only if every transfer moved its chunk, whether or not it broke off after that, or one sent no message, so that no success is reported |
| EepromSpec.ReadChunksFlat | packages/at24cxx-latest/at24cxx.c:247-293 | when all its transfers get through, the page-split read gives the bytes of the flat read |
| EepromSpec.ReportedReadErrors | packages/at24cxx-latest/at24cxx.c:264-284 | the page-split read reports an error if and only if some transfer sent no message |
| EepromSpec.SilentLoss | packages/at24cxx-latest/at24cxx.c:154-181 | a write that stores nothing and reports success |
| Eeprom.At24cxx.PageWriteAll | packages/at24cxx-latest/at24cxx.c:354-403 | the loop has the effect of the chunk-by-chunk write on values, for every outcome of the transfers, those that break off midway included |
| Eeprom.At24cxx.Write | packages/at24cxx-latest/at24cxx.c:304-343 | the byte-by-byte write with retries leaves the memory of the flat write; with a length of zero, nothing when the first attempt fails and 65536 bytes otherwise |
| Eeprom.At24cxx.PageReadAll | packages/at24cxx-latest/at24cxx.c:247-293 | the loop has the effect of the chunk-by-chunk read on values, for every outcome of the transfers, those that break off midway included |
| Eeprom.At24cxx.WriteThenRead | packages/at24cxx-latest/at24cxx.c:247-403 | a page-split write followed by a page-split read gives back the buffer, and leaves the memory of the flat write |

## Left out

- MemHeap.Heap.RtMemheapRealloc: after a call that overruns, two headers share memory; that a later write to one of them changes the other is not modelled, because header fields of different addresses are different array elements.
- MemHeap.Heap.RtMemheapFree: the magic number, the pool pointer in each header and the assertions on them are not part of the state; a pointer that no allocation returned is not accepted.
- SmallMem.SmallHeap.RtFree: the magic number, the debug names and the memory trace are not part of the state; a pointer that no allocation returned is not accepted.
- SlabHeap.RtSlab.RtFree: takes the live grant along as a ghost argument; an address that no allocation returned is not accepted.
- SlabSpec.MallocSmallKeeps: takes a call as one step, although the heap semaphore is given up while pages for a new zone are fetched; calls that interleave there are the subject of `SlabSteps.InterleavedSound`.
- RtList.RtListInit: nodes are numbers and links are arrays; pointers and container_of are not modelled.
- MsgQueue.RtMessageQueue.Fill: a node's message is one sequence of bytes; the position of nodes in the pool is not modelled.
- SmallMem.SmallHeap.RtMalloc: the calls that do not come to an end, which `FirstSearchEnds` tells apart, are not accepted.
- EepromSpec.Stored: a write transfer that breaks off has stored a prefix of its bytes; the byte-wise at24cxx_read is left out.
- Format.VsnPrintf: a format that asks for more arguments than there are, or for others, is undefined in C and reads zeros here; field widths are not limited to 32 bits.
- MutexSpec.RunInherits: the users of the mutex hold no other mutex and nobody else changes their priorities; inheritance along chains of mutexes is not done by the code either.
- Header words and payload bytes of the heaps live in separate arrays, so a client that writes outside its block is not modelled; that the two ranges never overlap is proved on addresses.
- Ticks that a timed wait still has left are not counted: a timed wait may end at any moment while its thread sleeps.
- Priorities of threads that wait on a semaphore, event, mailbox or queue do not change while they wait.
- rt_realloc, rt_calloc and the statistics of slab.c; rt_calloc and the listing commands of mem.c; the system-heap wrappers of memheap.c, which only add easy cases.
- Creation, deletion, detaching and naming of kernel objects, hooks, debug logging and shell listings.
- The wake-up by a signal in rt_mutex_take, because signals are not enabled in this configuration.
- Context switches, stack checks, interrupt nesting, SMP variants, timers and devices; the STM32 drivers, the network and demo code.
