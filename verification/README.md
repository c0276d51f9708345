# NowOS, modelled and proved

NowOS is a small multi-core x86-32 kernel. This project models its allocators, its scheduler and the
indexes they rest on, and proves what they keep in every run.

| file | what it models |
|---|---|
| `SortedList.dfy` | `klib/sorted_array_list.c`: the sorted pointer array, updated in place |
| `HeapChain.dfy` | the block chain of `kernel/kheap.c` as a value: split, merge, best fit |
| `HeapMemory.dfy` | how headers in word memory encode a chain, and which words each rewrite touches |
| `HeapRuns.dfy` | `kmalloc` and `kfree` as steps, and what holds in every run from `init_kheap` |
| `HeapLists.dfy` | the same steps together with `free_node_list`, whose insertions the code never checks |
| `CrowdedHeap.dfy` | runs that pack the heap with FREE blocks, up to one for each 32 bytes |
| `FullList.dfy` | exactly which array sizes let a FREE block fall out of the list |
| `HeapWords.dfy` | `kernel/kheap.c` on words: every call in every state, in 32 bits; on encoded chains, the steps |
| `HeapCalls.dfy` | runs of calls and of the callers' stores: what an allocation holds |
| `HeapFaults.dfy` | calls that leave no heap behind: double frees, wrong end pointers, sizes that wrap |
| `KernelHeap.dfy` | `kernel/kheap.c` itself: a class over memory and the free list, proved against the words |
| `Scheduler.dfy` | `kernel/scheduler.c`, `kernel/lock.c`, `kernel/thread.c`: all interleavings on any number of CPUs |
| `SchedulerTurns.dfy` | the same: what a completed yield, timer interrupt or join has done |
| `SharedPool.dfy` | `klib/shared_pool.c` at the grain of single reads and compare-and-swaps |
| `ObjectPool.dfy` | `klib/shared_pool.c` with one caller at a time |
| `LinkedList.dfy` | `klib/linked_list.c` over its node pool |
| `Bitmap.dfy` | `klib/byte_index_list.c` and the runs of marks, releases and grants it allows |
| `Paging.dfy` | `kernel/paging.c`: the two-level page table against a flat page map |
| `MemoryManager.dfy` | `kernel/mm.c`: the page bitmap together with the page table |
| `Counting.dfy` | counting numbers below a bound |
| `Machine.dfy` | unsigned 32-bit wrap-around |

`dafny verify dfyconfig.toml` checks everything.

## How the parts fit

The heap is proved in layers. `HeapChain` and `HeapRuns` say what `kmalloc` and `kfree` do to a
sequence of blocks and prove the run properties there, for a search that sees every FREE block.
`HeapLists` adds the free list with its fixed number of slots: `kmalloc` sees only what is listed and
a refused insertion goes unnoticed. The list is `Complete` when it holds every FREE block; the two
kinds of step then agree (`KmallocCompletes`, `NeverFull`). `HeapMemory` says which header words encode
a chain.

`HeapWords` is the code as functions on words, with no chain assumed: corrupt headers, wrong pointers
and wrapping sizes included. A call returns, halts, loops for ever (`Hung`) or hands NULL to the list
(`Wild`). `KfreeRefines` and `KmallocRefines` prove that on memory which encodes a chain (`Shows`) these
are the steps of `HeapLists`, for every pointer the chain knows and every request that `Answers` allows.
`HeapCalls` carries that through whole runs, `HeapFaults` shows what happens outside. `KernelHeap` is
the imperative code; each method does exactly what `HeapWords` says, in every state
(`Reply(Now(), ptr, status) == KmallocWords(old(Now()), ...)`). Absorbed headers keep their old words,
as in C.

The scheduler and the pool are transition systems. A run is any sequence of enabled steps of any
CPUs or callers, so an invariant of every step holds in every interleaving. Words of the pool and
bytes of the bitmap are sets of bit positions; atomics and the lock store are sequentially
consistent. `Held` in the scheduler is what a CPU has in its hands: its current thread and, between
the pull and the push, the other one.

`PANIC` and failed `ASSERT`s are outcomes (`Panic`, `Halted`, a `halted` result), never assumed away.

## Where the code does not do what it says

Each of these is kept as the code has it, with a failing case and the exact condition.

- The results of `insert_list` at `kernel/kheap.c:233`, `:307` and `:335` are dropped, so a FREE block
  can fall out of the list. `KfreeCompletes`: after a `kfree` the list is complete if and only if there
  are fewer FREE blocks than slots, and otherwise misses exactly the freed block. `FullListExactly`:
  some run loses a block if and only if `32 * slots` is at most the bytes the heap can reach.
  `KernelListFills`: this kernel is such a case, with 102400 bytes of heap and at most 2048 slots, as
  at most two of its eight early pages are left when `init_kheap` comes.
- `heap_list_end_ptr` does not always name the last header. `KfreeKeepsEnd` and `KmallocKeepsEnd` say
  exactly when a call leaves it exact. `StaleEndRun` reaches a wrong one from any layout by two calls,
  leaving it on an absorbed header; two more calls then return allocations that overlap
  (`AbsorbedEndOverlaps`). `ExactFitRun` leaves it on a live block with a live block behind; the next
  request that expands writes a FREE header over that one and returns its pointer a second time
  (`StaleEndHandsOut` for every such state, `ExactFitHandsOut` for the run). Runs therefore ask that an
  expansion finds it exact (`Permitted`, `Answers`).
- Sizes are added in 32 bits. `WrapsExactly`: rounding, sizing loop and limit check answer as they would
  without wrap if and only if the new top stays below 2^32. `RoundingWraps`: the last three sizes are
  served as zero. `LoopEndsExactly` says for which sizes the sizing loop ends. `GigabyteHandedOut`: a
  gigabyte asked of this kernel's heap of 102400 bytes is handed out.
- `expand_heap` does not subtract the header: after any expansion the chain ends 16 bytes past
  `top_heap_ptr`. The integrity check then fails (`IntegrityCheck`), and a later expansion can halt far
  below `heap_top` (`KmallocPanics` for the condition, `ShortExpansionRun` for a run). The last block
  may even end past `heap_top`: `LivePastLimitExactly` gives the layouts, `OverhangRun` a run on each.
- `kfree` trusts the magic word, and a merged header keeps it. `DoubleFreeExactly`: after a second
  `kfree` of a block, memory holds a chain over the heap if and only if the block before it was not
  FREE at the first one. `DoubleFreeRun` is a run on every layout that ends with none.
- `check_kheap_integrity` starts at `heap_bottom`, the chain at its rounded value. `CheckIntegrity`
  halts if and only if the two differ.
- Requests for zero bytes make bare-header blocks. `36 * F <= S + 16` fails (`CrowdedRun`), holds in
  every run without such a request (`RunAtLeast`), and `32 * F <= S` always holds
  (`FreeBlocksBound`) and is as small as can be (`CrowdRun`).
- Application processors join the scheduler with interrupts enabled (`arch/smp.c:39`). A timer
  interrupt between starting the timer and releasing the lock then spins on the CPU's own lock for
  ever. `SelfDeadlockExactly`: this is reachable if and only if some CPU joins with interrupts on.
  `TrappedExactly` and `FreeAgainExactly`: a busy lock can become free again if and only if its holder
  never took that interrupt. Exclusion, placement and order hold in those runs all the same.
- `set_next_index` can claim an index past the end of the pool, and then the range check halts.
  `RangeCheckExactly`: reachable if and only if there are two callers and at least one slot.
- `shared_pool_free_entry` tries its compare-and-swap only once. `FreeExactly`: it frees the slot if and
  only if its word is then what it was at the read. `FreeFailsExactly`: some interleaving leaves a
  slot taken this way if and only if there are two callers and at least one slot.
- `linked_list_add` in the middle of a list never stores the predecessor's forward link, so the datum
  is lost to every forward walk, though the backward links hold it in its place (`Add`,
  `LostForGood`); `linked_list_push` does this on every list of two or more.
- `linked_list_get` with the last 32-bit index returns the head, as `index + 1` wraps (`Get`).
  `linked_list_remove` with an index equal to the size goes through a null pointer (`Remove`).
- The calls of `klib/byte_index_list.c` check no index; one past the table reads and changes the memory
  behind it (`Set`, `ReleaseSlot`, `Check`). On a table of no bytes a slot behind it is granted
  (`GetFreeSlot`).
- `ALIGN_DOWN` (`include/kdef.h:32`) rounds up. `HandedOutInMemory` and `MemoryInTable` give the exact
  memory sizes for which the page table of `kernel/mm.c` neither hands out a page that is not all
  there nor misses one that is; `PartialPageHandedOut` and `WholePageMissed` are sizes where it does.
- `mem_alloc_region` checks the first page only and does not round its address; `RegionCovered` says
  exactly when the pages it takes cover the region asked for, `RegionNotCovered` is one that is not.
  It also marks pages past the end of its table: `StraysExactly` says when, `RegionBehindIs` where.
- `PAGE_ALLACCESS` opens no page to user code: `map_kern_page` makes every directory entry a supervisor
  one, and the processor takes the rights of both levels (`MapKernPageFlags`, `DirRoundTrip`).
- The comment in `init_kern_paging` speaks of mapping 1 MB and 4 MB; the loops map 2 MB and 6 MB. The
  model follows the loops.

## Model

| member | source | states |
|---|---|---|
| `SortedList.SortedByElements` | klib/sorted_array_list.c:87-151 | a strictly increasing array is determined by its set of items, so the list refines a set |
| `SortedList.SortedCardinality` | klib/sorted_array_list.c:6-13 | the length of the list is the number of its items |
| `SortedList.Midpoint` | klib/sorted_array_list.c:54-56 | `l + (r - l) / 2` in wrapping 32-bit arithmetic: the true midpoint, or an index past the array when `r` has wrapped below `l` |
| `SortedList.SortedArrayList.constructor` | klib/sorted_array_list.c:6-13 | a zeroed array is the empty list |
| `SortedList.SortedArrayList.InsertItem` | klib/sorted_array_list.c:15-33 | shifts the tail and puts the item at the index; refuses a full array and then changes nothing; slots past the items keep their value |
| `SortedList.SortedArrayList.RemoveItem` | klib/sorted_array_list.c:35-45 | takes the item at the index out, pulling the zero slot down with the tail |
| `SortedList.SortedArrayList.Search` | klib/sorted_array_list.c:52-79 | terminates with wrapping bounds for arrays below 2^31 and answers membership, -1 if and only if absent |
| `SortedList.SortedArrayList.Bisect` | klib/sorted_array_list.c:89-113 | the search shared by insert and remove finds the item, or the one slot where it belongs, although it may look one slot past the items |
| `SortedList.SortedArrayList.Insert` | klib/sorted_array_list.c:87-116 | set insertion with the three return codes; the list stays sorted and every slot past it zero |
| `SortedList.SortedArrayList.Remove` | klib/sorted_array_list.c:124-151 | set removal with the return codes; the list stays sorted and every slot past it zero |
| `HeapChain.SplitTiled` | kernel/kheap.c:236-312 | splitting a block keeps the chain tiled over the same bytes |
| `HeapChain.MergeTiled` | kernel/kheap.c:164-210 | merging two neighbours keeps the chain tiled |
| `HeapChain.MergeStepsAgree` | kernel/kheap.c:212-234 | the right merge followed by the left merge is one release of the block, for all four combinations of FREE neighbours |
| `HeapChain.ReleaseTiled` | kernel/kheap.c:398-422 | freeing a block keeps the chain tiled over the same bytes |
| `HeapChain.SplitCoalesced` | kernel/kheap.c:236-312 | a split leaves no two neighbours FREE |
| `HeapChain.ReleaseCoalesced` | kernel/kheap.c:212-234 | freeing a block leaves no two neighbours FREE, the three-way merge included |
| `HeapChain.SplitUsed` | kernel/kheap.c:236-312 | a split adds exactly the new allocation to the live ones |
| `HeapChain.ReleaseUsed` | kernel/kheap.c:398-422 | freeing a block removes exactly that one from the live allocations |
| `HeapChain.SplitFree` | kernel/kheap.c:266-307 | the addresses of the FREE headers after a split |
| `HeapChain.ReleaseFree` | kernel/kheap.c:212-234 | the addresses of the FREE headers after a free with its merges |
| `HeapChain.SplitThenRelease` | kernel/kheap.c:236-422 | releasing the block just split off gives the old chain back, in both branches of the split |
| `HeapChain.ReleaseFreeBlock` | kernel/kheap.c:398-422 | freeing a block that is already FREE changes nothing |
| `HeapChain.BestFit` | kernel/kheap.c:143-162 | the smallest FREE block that fits, the lowest on ties, or -1 if and only if none fits |
| `HeapChain.BestFitUnique` | kernel/kheap.c:143-162 | there is only one such block |
| `HeapChain.FreeCountBound` | kernel/kheap.c:212-268 | FREE blocks are at most one for every two headers and two least block sizes, less one header |
| `HeapMemory.EncodesSplice` | kernel/kheap.c:101-109 | rewriting only the changed headers and the two links next to them turns memory that encodes a chain into memory that encodes the spliced chain |
| `HeapMemory.RewriteTwoEncodes` | kernel/kheap.c:290-304 | the header stores of the splitting branch encode the split chain, and links run both ways |
| `HeapMemory.MergeRewrites` | kernel/kheap.c:164-210 | the stores of a merge encode the merged chain and touch no live payload |
| `HeapMemory.TakeWholeRewrites` | kernel/kheap.c:266-288 | the stores of the threshold branch encode the chain with the whole block USED |
| `HeapMemory.TakePartRewrites` | kernel/kheap.c:290-312 | the stores of the splitting branch encode the split chain and touch no live payload |
| `HeapMemory.ExtendEncodes` | kernel/kheap.c:327-332 | the stores of an expansion encode the chain with one more block |
| `HeapMemory.ExtendPayloads` | kernel/kheap.c:327-332 | the stores of an expansion touch no live payload |
| `HeapMemory.PayloadStore` | kernel/kheap.c:394-395 | a store into a live allocation disturbs no header |
| `HeapMemory.StrayWord` | kernel/kheap.c:278-279 | in memory that encodes a chain, the word read past an exact fit is the next header's `next_ptr`, zero if and only if that header is last; four bytes further on it is never zero |
| `HeapMemory.MergesKeepMagics` | kernel/kheap.c:164-234 | after the merges every header of the old chain, absorbed ones included, still carries a magic value |
| `HeapRuns.ExpandCount` | kernel/kheap.c:380-381 | the expansion loop stops at the least multiple of 4096 above the size |
| `HeapRuns.InitInv` | kernel/kheap.c:424-453 | the chain that `init_kheap` builds satisfies the invariant |
| `HeapRuns.StepInv` | kernel/kheap.c:364-422 | every permitted `kmalloc` and `kfree` keeps the blocks tiled from `heap_ptr`, no two neighbours FREE and the last block at least a word |
| `HeapRuns.RunInv` | kernel/kheap.c:364-453 | so it holds in every state of every run |
| `HeapRuns.KmallocPanics` | kernel/kheap.c:314-387 | for requests whose expansion does not wrap, `kmalloc` halts if and only if no FREE block fits and the heap cannot grow, or grows too little |
| `HeapRuns.WrapsExactly` | kernel/kheap.c:314-320 | rounding, sizing loop and limit check in 32 bits agree with unbounded arithmetic if and only if the new top stays below 2^32 |
| `HeapRuns.LoopEndsExactly` | kernel/kheap.c:380-381 | the 32-bit sizing loop ends if and only if the size is below 2^32 - 4096 |
| `HeapRuns.GigabyteWraps` | kernel/kheap.c:314-320 | a heap and a request of 2^30 bytes for which the limit check should halt and passes |
| `HeapRuns.KmallocExpands` | kernel/kheap.c:314-396 | an expanding `kmalloc` takes the last block, tiles to `top_heap_ptr + 16` and leaves `heap_list_end_ptr` on the last header |
| `HeapRuns.KmallocKeepsEnd` | kernel/kheap.c:266-311 | when a `kmalloc` without expansion leaves `heap_list_end_ptr` exact, as an equivalence; on an exact fit the chain alone decides: exact if and only if the block is not next to last |
| `HeapRuns.KfreeKeepsEnd` | kernel/kheap.c:212-234 | when a `kfree` leaves `heap_list_end_ptr` exact, as an equivalence |
| `HeapRuns.StaleEndRun` | kernel/kheap.c:398-422 | on every layout, two calls leave `heap_list_end_ptr` on an absorbed header |
| `HeapRuns.ExactFitRun` | kernel/kheap.c:266-288 | on every layout, four calls, the last an exact-fit `kmalloc`, leave `heap_list_end_ptr` on the first of two live blocks |
| `HeapRuns.ShortExpansionRun` | kernel/kheap.c:314-387 | on every layout with room, a run whose second expansion halts below `heap_top` |
| `HeapRuns.KmallocUsed` | kernel/kheap.c:364-396 | a `kmalloc` adds one live allocation of the bytes asked for, rounded, and at most the threshold more; all others stay |
| `HeapRuns.StepKeepsLive` | kernel/kheap.c:364-422 | a step leaves every live allocation it does not free at its address and size |
| `HeapRuns.RunKeepsLive` | kernel/kheap.c:364-422 | so a live allocation keeps address and size in any run until it is freed |
| `HeapRuns.LiveDisjoint` | kernel/kheap.c:364-396 | two live allocations never overlap, start at `heap_ptr` or above and end at most 16 bytes past `top_heap_ptr` |
| `HeapRuns.LivePastLimitExactly` | kernel/kheap.c:314-342 | some run hands out a block that ends past `heap_top` if and only if the heap is longer than 8192 bytes and its length modulo 4096 is 1 to 15 |
| `HeapRuns.OverhangRun` | kernel/kheap.c:314-342 | such a run on each of those layouts |
| `HeapRuns.KfreeUndoesKmalloc` | kernel/kheap.c:236-312 | `kfree` of what `kmalloc` returned without expansion restores the whole chain, in both branches; for headers and list see `KmallocThenKfree` |
| `HeapRuns.FreedHeaderStays` | kernel/kheap.c:398-422 | after a `kfree` the header is still in the chain if and only if the left neighbour was not FREE, and then a second one changes no block |
| `HeapRuns.DrainAnyOrder` | kernel/kheap.c:398-422 | freeing all live allocations in any order leaves one FREE block over the whole heap |
| `HeapRuns.RunDrains` | kernel/kheap.c:398-453 | after a run without expansion that is the chain `init_kheap` built |
| `HeapRuns.FreeBlocksBound` | kernel/kheap.c:251-268 | with F FREE blocks in S bytes, 32 F <= S always, and 40 F <= S + 20 when no block is below four bytes |
| `HeapRuns.RunAtLeast` | kernel/kheap.c:251-268 | 36 F <= S + 16 in every run that never asks for zero bytes |
| `CrowdedHeap.CrowdedRun` | kernel/kheap.c:364-422 | on every layout, a run with requests for zero bytes that reaches 36 F > S + 16 |
| `CrowdedHeap.CrowdRun` | kernel/kheap.c:364-422 | on every layout and for every count that fits, a run that grows the heap as far as it goes and then holds exactly that many FREE blocks |
| `CrowdedHeap.BytesBound` | kernel/kheap.c:314-342 | no run gets the chain past the bytes that such a run reaches |
| `HeapLists.InsertCompletes` | klib/sorted_array_list.c:15-33 | an insertion into the list completes it if and only if there are fewer entries than slots; otherwise it misses exactly the new one |
| `HeapLists.KfreeCompletes` | kernel/kheap.c:212-234 | from a complete list, `kfree` leaves a complete list if and only if FREE blocks are fewer than slots, and otherwise one that misses exactly the merged block |
| `HeapLists.GrowCompletes` | kernel/kheap.c:334-338 | the same for an expansion, whose first insertion may be refused without harm |
| `HeapLists.KmallocCompletes` | kernel/kheap.c:364-396 | from a complete list, `kmalloc` does the step of `HeapRuns` and keeps the list complete, except that it halts when it must expand and no slot is left |
| `HeapLists.ListedKmallocUsed` | kernel/kheap.c:364-396 | whatever the list misses, a `kmalloc` that returns adds one live allocation of the size asked for and keeps all others |
| `HeapLists.ListedExpands` | kernel/kheap.c:314-396 | whatever the list misses, a `kmalloc` that expands and returns takes the last block, ends the chain at `top_heap_ptr + 16` and leaves `heap_list_end_ptr` on the last header |
| `HeapLists.ListedRunSound` | kernel/kheap.c:364-453 | in every run, full list or not, the chain keeps its invariant, every entry is a FREE header and one slot stays zero |
| `HeapLists.ListedRunKeepsLive` | kernel/kheap.c:364-422 | in every such run a live allocation keeps address and size until it is freed |
| `HeapLists.KfreeUndoesListed` | kernel/kheap.c:236-422 | `kfree` of what `kmalloc` returned without expansion restores chain, top and list, whatever the list misses |
| `HeapLists.DrainListed` | kernel/kheap.c:398-422 | freeing all live allocations in any order leaves one FREE block and a list with just that block, even after entries were lost; an empty list if the array has no slot for any, or nothing was freed and listed |
| `FullList.FullListExactly` | kernel/kheap.c:212-342 | some run loses a FREE block from the list if and only if 32 times the slots is at most the bytes the heap can reach |
| `FullList.KernelListFills` | boot/boot.s:78-90 | with 102400 bytes of heap and at most 2048 slots there is such a run |
| `FullList.NeverFull` | kernel/kheap.c:434-437 | with more slots than that, the list is complete throughout every run and each step is one of `HeapRuns` |
| `HeapRuns.IntegrityCheck` | kernel/kheap.c:344-362 | the bytes of the chain are `top_heap_ptr - heap_ptr` if and only if the heap never expanded |
| `HeapWords.MergesRefine` | kernel/kheap.c:212-234 | on memory that encodes a chain, the merges of a FREE node encode its release, relist its neighbours and touch no live payload |
| `HeapWords.KfreeRefines` | kernel/kheap.c:398-422 | `kfree` of NULL or of a block does the step of `HeapLists` and leaves a heap in order; live payloads and every old magic word stay; a complete list stays complete if and only if FREE blocks are fewer than slots |
| `HeapWords.FindRefines` | kernel/kheap.c:143-162 | the search passes its checks and finds the best fit of what the list shows of the chain |
| `HeapWords.SplitRefines` | kernel/kheap.c:236-312 | the split of a listed block that fits encodes the split chain, in both branches, with list and `heap_list_end_ptr` |
| `HeapWords.ExpandRefines` | kernel/kheap.c:314-342 | with `heap_list_end_ptr` exact and no wrap, an expansion halts if and only if the new top reaches `heap_top`, and otherwise encodes the grown chain |
| `HeapWords.KmallocRefines` | kernel/kheap.c:364-396 | `kmalloc` does the step of `HeapLists`, or halts where it does, for every request that a listed block fits or that expands with an exact end and no wrap; live payloads stay |
| `HeapWords.KmallocEnds` | kernel/kheap.c:364-387 | from every heap in order: returns when a listed block fits the rounded size, hangs when none does and the sizing loop cannot end, halts when the 32-bit top reaches `heap_top` |
| `HeapWords.BadMagicHalts` | kernel/kheap.c:92-97 | `kfree` halts if and only if the header before a pointer has neither magic word, and changes nothing; so do a listed header in `kmalloc` and the header at `heap_list_end_ptr` in an expansion |
| `HeapCalls.CallRefines` | kernel/kheap.c:364-422 | every proper call that returns, stores of owners included, leaves memory that encodes a chain and keeps the live payloads it does not store to |
| `HeapCalls.RunShows` | kernel/kheap.c:364-453 | in every run of proper calls memory encodes a chain in order all along |
| `HeapCalls.RunKeepsWord` | kernel/kheap.c:364-422 | a live allocation keeps its place, and each of its words its value, through any calls that do not free it or store to that word |
| `HeapCalls.StoreReadsBack` | kernel/kheap.c:394-395 | what an owner stores is read back until the next store to that word or the `kfree`, whatever is allocated and freed meanwhile |
| `HeapCalls.MallocGives` | kernel/kheap.c:364-396 | in every such run the pointer returned is that of one new live block of the size asked for, rounded, and at most the threshold more |
| `HeapFaults.EncodesUnique` | kernel/kheap.c:101-109 | memory determines its chain: two chains from the same first header are equal |
| `HeapFaults.FreeLeavesBehind` | kernel/kheap.c:164-234 | a `kfree` merged into the block before it leaves a FREE header behind that links to the merged block and to its successor |
| `HeapFaults.DoubleFreeExactly` | kernel/kheap.c:398-422 | both calls return, and after the second some chain tiles the heap and is what memory holds if and only if the block before was not FREE at the first; then the chain is the same |
| `HeapFaults.DoubleFreeRun` | kernel/kheap.c:398-422 | on every layout, a run whose second `kfree` of one pointer leaves no such chain |
| `HeapFaults.AbsorbedEndOverlaps` | kernel/kheap.c:314-342 | on every layout with room, four calls after which two live allocations overlap and a FREE header lies in one of them |
| `HeapFaults.StaleAppend` | kernel/kheap.c:322-332 | with `heap_list_end_ptr` on an inner block, the stores of an expansion put a FREE header over that of the next block |
| `HeapFaults.StaleEndHandsOut` | kernel/kheap.c:364-396 | and if that block is live, the `kmalloc` returns its pointer again |
| `HeapFaults.ExactFitHandsOut` | kernel/kheap.c:266-288 | on every layout with room, a run with an exact fit after which a request of any size gets the pointer of a live allocation |
| `HeapFaults.RoundingWraps` | kernel/kheap.c:373 | the last three sizes are served as zero |
| `HeapFaults.GigabyteHandedOut` | kernel/kheap.c:314-320 | a gigabyte asked of the kernel's own heap returns a pointer |
| `KernelHeap.KernelHeap.constructor` | kernel/kheap.c:424-453 | `init_kheap` in memory: one encoded FREE block, listed if the array has a slot for it; the heap is in order |
| `KernelHeap.KernelHeap.InsertNode` | kernel/kheap.c:233 | adds the node to the list unless it is full, and drops it silently then |
| `KernelHeap.KernelHeap.MergeNodes` | kernel/kheap.c:212-234 | in any state: halts on a bad magic, otherwise the reads, stores, removals and insertion of both merges |
| `KernelHeap.KernelHeap.Kfree` | kernel/kheap.c:398-422 | for every pointer in every state, does what `KfreeWords` says to memory and list, or halts |
| `KernelHeap.KernelHeap.FindFreeNode` | kernel/kheap.c:143-162 | halts if and only if a listed header has a bad magic; otherwise finds the smallest listed node that is large enough, the lowest on ties |
| `KernelHeap.KernelHeap.SplitNode` | kernel/kheap.c:236-312 | in any state, does what `SplitWords` says: both branches, the list and `heap_list_end_ptr` |
| `KernelHeap.KernelHeap.ExpandHeap` | kernel/kheap.c:314-342 | in any state and for any size, does what `ExpandWords` says, wherever `heap_list_end_ptr` points, with 32-bit sums |
| `KernelHeap.ExpandAmount` | kernel/kheap.c:380-381 | the loop computes the expansion count |
| `KernelHeap.KernelHeap.Kmalloc` | kernel/kheap.c:364-396 | for every size in every state, does what `KmallocWords` says, with its pointer, its halt or its endless loop |
| `KernelHeap.KernelHeap.CheckIntegrity` | kernel/kheap.c:344-362 | on a heap in order: halts if and only if `heap_bottom` is not a whole word; otherwise the walk along `next_ptr` passes if and only if the heap never expanded |
| `KernelHeap.KernelHeap.KmallocThenKfree` | kernel/kheap.c:236-422 | in memory, a `kmalloc` without expansion and the `kfree` of its result restore every header word and the items of the free list, in order |
| `KernelHeap.KernelHeap.FreeAll` | kernel/kheap.c:398-422 | in memory, freeing all live allocations in any order leaves one FREE header over the whole heap and a free list of that one item, or none where the array is too short |
| `KernelHeap.KernelHeap.ClientStore` | kernel/kheap.c:394-395 | a caller's store into its allocation keeps the heap valid and every other payload |
| `Scheduler.StepInv` | kernel/scheduler.c:101-220 | every step on any CPU keeps mutual exclusion, every thread in one place and the length of the ready list; what the steps of a turn come to is in `EachTurnSwitches` |
| `Scheduler.RunKeepsInv` | kernel/scheduler.c:101-275 | so they hold in every state of every interleaving |
| `Scheduler.RunPlacesThreads` | kernel/scheduler.c:101-220 | a thread is once in the ready list or in the hands of exactly one CPU, never both |
| `Scheduler.RunExcludes` | kernel/lock.c:9-30 | at most one CPU is between taking `sched_lock` and releasing it, and then the word is busy |
| `Scheduler.RunIsSafe` | kernel/scheduler.c:107-220 | no assertion fails, `in_scheduler` is set exactly from its store to its clearing in `scheduler_yield` and implies interrupts off, the timer is on exactly from its start, the guard of the timer path never fires, and a CPU spins on its own lock only if it took a timer interrupt in its join before releasing the lock |
| `Scheduler.RunKeepsReadyLength` | kernel/scheduler.c:101-120 | whenever the lock is free the ready list is as long as at the start |
| `Scheduler.ReadyListHasNodes` | kernel/thread.c:17-34 | with thread ids from the thread pool the ready list never needs more than 128 of its 1024 nodes |
| `Scheduler.WaitingMovesUp` | kernel/scheduler.c:101-120 | after c successful pulls by any CPUs the rest of the old list has moved up c places, in order |
| `Scheduler.DispatchOrder` | kernel/scheduler.c:101-177 | the thread at position p is dispatched by exactly the (p+1)-th successful pull; that every completed yield and timer turn pulls is in `EachTurnSwitches` |
| `Scheduler.HolderUnlocks` | kernel/scheduler.c:122-149 | a lock holder that was not interrupted in its join can always go on and frees the lock within five steps of its own |
| `Scheduler.TrappedExactly` | kernel/thread.c:55-67 | a CPU is trapped in its join if and only if it took a timer interrupt between the start of the timer and the release of the lock |
| `Scheduler.FreeAgainExactly` | kernel/lock.c:9-30 | some interleaving frees a busy lock if and only if its holder is not trapped |
| `Scheduler.BystanderStep` | kernel/lock.c:9-20 | while the lock is busy a CPU that does not hold it neither gets nor frees it |
| `Scheduler.NoisyJoin` | kernel/thread.c:55-67 | a CPU that joins with interrupts on can reach a spin on the lock it holds |
| `Scheduler.StuckForever` | kernel/lock.c:9-20 | from there the lock is never free again, whatever any CPU does |
| `Scheduler.QuietRunIsCalm` | kernel/scheduler.c:262-274 | when every CPU joins with interrupts off no timer interrupt lands inside a join |
| `Scheduler.SelfDeadlockExactly` | kernel/scheduler.c:262-274 | a self-deadlock is reachable if and only if some CPU joins with interrupts on |
| `SchedulerTurns.EachTurnSwitches` | kernel/scheduler.c:101-220 | in every interleaving a yield or timer interrupt that has come back to a thread asked the ready list exactly once: with an empty list nothing changed hands; otherwise the CPU runs the old head and, at the release, the list is its rest with the outgoing thread at the back; interrupts are on |
| `SchedulerTurns.YieldAlone` | kernel/scheduler.c:129-220 | from every reachable state with the lock free, a yield left alone ends in a thread with the lock free and interrupts on, and with exactly that rotation of ready list and current thread, states and marks of both threads included |
| `SchedulerTurns.TimerAlone` | kernel/scheduler.c:151-186 | the same of a timer interrupt, in a thread or before the `sti` of a join |
| `SchedulerTurns.JoinAlone` | kernel/scheduler.c:262-275 | a CPU that joins alone runs a new thread of its own with timer and interrupts on; the ready list and every other thread are as before |
| `SchedulerTurns.ResumesWhereLeft` | kernel/scheduler.c:151-220 | a thread goes on, on whichever CPU, where it was when it was last taken off one |
| `SharedPool.StepInv` | klib/shared_pool.c:10-38 | every read and every compare-and-swap, stale copies included, keeps the set bits equal to the owned slots |
| `SharedPool.RunOwnsExactly` | klib/shared_pool.c:10-125 | in every interleaving the set bits are exactly the owned slots and no slot has two owners; what one call takes or gives back is in the rows below |
| `SharedPool.ClaimAlone` | klib/shared_pool.c:10-38 | from any state a call that is not disturbed takes exactly the least free slot, or returns NULL if and only if there is none and changes nothing |
| `SharedPool.FreeAlone` | klib/shared_pool.c:106-125 | from any state a free that is not disturbed gives back exactly its slot: its bit is cleared, no other bit and no other owner changes |
| `SharedPool.FreeExactly` | klib/shared_pool.c:106-125 | among any steps of others a free gives back its slot if and only if the word at its swap is the word at its read; otherwise nothing changes and the slot stays taken |
| `SharedPool.FreeFailsExactly` | klib/shared_pool.c:106-125 | some interleaving makes a free fail if and only if there are two callers and at least one slot |
| `SharedPool.ContentionLeaks` | klib/shared_pool.c:106-125 | a run to such a free, for every pool with a slot and every two or more callers |
| `SharedPool.RunClaimBound` | klib/shared_pool.c:10-38 | a claimed index is below the pool size plus the call's failed swaps; the halted calls are those at or past the size |
| `SharedPool.ContentionHalts` | klib/shared_pool.c:74-83 | any pool with a slot and any two or more callers have a run in which the range check halts |
| `SharedPool.RunUncontended` | klib/shared_pool.c:10-38 | a lone caller, or an empty pool, never fails a swap |
| `SharedPool.RangeCheckExactly` | klib/shared_pool.c:74-83 | the range check can fail if and only if there are two callers and at least one slot |
| `ObjectPool.SlotIndex` | klib/shared_pool.c:89-96 | `shared_pool_get_index` inverts `shared_pool_get_next` |
| `ObjectPool.SlotsDistinct` | klib/shared_pool.c:85-86 | different slots have different addresses |
| `ObjectPool.ObjectPool.constructor` | klib/shared_pool.c:40-65 | a new pool has no slot taken |
| `ObjectPool.ObjectPool.SetNextIndex` | klib/shared_pool.c:10-38 | claims the least free index, or 0xFFFFFFFF if and only if all are taken |
| `ObjectPool.ObjectPool.GetNext` | klib/shared_pool.c:74-87 | the address of a free slot, now taken, or NULL if and only if the pool is full |
| `ObjectPool.ObjectPool.FreeEntry` | klib/shared_pool.c:106-125 | frees exactly the slot of the entry |
| `LinkedList.LinkedList.constructor` | klib/linked_list.c:13-20 | an empty list over a fresh pool |
| `LinkedList.LinkedList.Get` | klib/linked_list.c:93-112 | the datum at the index, NULL past the end; for the last 32-bit index the head, or what a null `start_ptr` reads |
| `LinkedList.LinkedList.Search` | klib/linked_list.c:114-130 | the first index of the datum, -1 if and only if absent |
| `LinkedList.LinkedList.Add` | klib/linked_list.c:132-182 | halts if and only if every node is taken; appends on an empty list or an index at or past the last; otherwise the datum is lost to the links from `start_ptr`, while the links from `end_ptr` lead along the list with the datum in its place |
| `LinkedList.LinkedList.AddBefore` | klib/linked_list.c:172-181 | the stores of the middle branch leave the forward chain as it was and put the node into the backward chain |
| `LinkedList.InsertedBackward` | klib/linked_list.c:172-181 | read backwards, those stores insert the node where it was asked for, and it points forward to its successor |
| `LinkedList.LinkedList.LostForGood` | klib/linked_list.c:172-181 | after such an add no chain of links from `start_ptr` has the recorded size |
| `LinkedList.LinkedList.Enqueue` | klib/linked_list.c:67-70 | appends, unless every node is taken |
| `LinkedList.LinkedList.Push` | klib/linked_list.c:79-82 | appends on at most one node; on more the datum is lost to the forward links and second in the backward ones |
| `LinkedList.LinkedList.Remove` | klib/linked_list.c:184-237 | removes the datum at the index, relinks both ways and frees its node; -1 and no change past the size; at the size it reaches a null pointer with nothing changed |
| `LinkedList.LinkedList.Pop` | klib/linked_list.c:84-91 | the head and the rest; a null head datum is returned and stays |
| `LinkedList.LinkedList.Cycle` | klib/linked_list.c:46-65 | rotates the list by one |
| `LinkedList.RemoveLinked` | klib/linked_list.c:217-228 | the stores of a removal leave the remaining nodes linked both ways |
| `LinkedList.CycleLinked` | klib/linked_list.c:56-64 | the stores of a rotation leave the nodes linked both ways in the new order |
| `LinkedList.SpineSize` | klib/linked_list.c:137-138 | a list over its pool has as many nodes as the pool has slots taken |
| `Bitmap.ByteIndexList.constructor` | klib/byte_index_list.c:7-13 | an empty table with the hint at its start |
| `Bitmap.ByteIndexList.Set` | klib/byte_index_list.c:29-41 | marks exactly the one slot; past the table, exactly the one bit behind it |
| `Bitmap.ByteIndexList.ReleaseSlot` | klib/byte_index_list.c:43-58 | clears exactly the one slot and pulls the hint back when needed; past the table, exactly the one bit behind it |
| `Bitmap.ByteIndexList.Check` | klib/byte_index_list.c:60-75 | tells whether the slot, or the bit behind the table, is marked |
| `Bitmap.ByteIndexList.UpdateFreePtr` | klib/byte_index_list.c:15-27 | moves the hint over full bytes only, to a byte with room or the end |
| `Bitmap.ByteIndexList.GetFreeSlot` | klib/byte_index_list.c:77-115 | grants the least clear slot of the whole table; halts if and only if all are set; with an empty table does so in the byte behind it |
| `Bitmap.GrantNeedsRelease` | klib/byte_index_list.c:43-115 | in every run a taken slot is granted only after its release |
| `Bitmap.TakenOnce` | klib/byte_index_list.c:29-115 | between two takings of a slot, the second a grant, lies its release |
| `Paging.EntryRoundTrip` | kernel/paging.c:36-50 | an entry is present and keeps frame and access bits; masking gives the address back if and only if it is 1 KB aligned |
| `Paging.DirRoundTrip` | kernel/paging.c:19-34 | a directory entry of an aligned table is present, writable, closed to user code and no 4 MB page, and leads back to the table, for the mask of the code and for the processor |
| `Paging.WithTableOk` | kernel/paging.c:61-68 | a new table in a fresh frame keeps all tables and the directory in frames of their own |
| `Paging.WithEntryView` | kernel/paging.c:70-73 | storing one entry changes what the walk finds for that page and for no other |
| `Paging.TranslateIsView` | kernel/paging.c:52-76 | over tables in frames of their own, the walk of the processor through directory and table finds, for every 32-bit address, what the entry of its page says |
| `Paging.KernelPaging.WalkIsFlat` | kernel/paging.c:111-129 | after any mappings the two-level walk equals the flat page map with the last write winning, on every page |
| `Paging.KernelPaging.ProcessorSees` | kernel/paging.c:52-109 | the walk of the processor, with the present bit and the rights of both levels, gives for every 32-bit address what the flat page map says |
| `Paging.KernelPaging.EarlyKmallocPages` | kernel/kheap.c:62-87 | fresh page-aligned frames, by physical address |
| `Paging.KernelPaging.MapKernPageFlags` | kernel/paging.c:78-109 | one write to the flat map; the processor then translates every address of that page to the frame, with the rights asked for except that user code stays out, and every other address as before; tables only grow, and no frame outside them changes |
| `Paging.KernelPaging.MapRange` | kernel/paging.c:174-188 | a mapping loop maps exactly its range |
| `Paging.KernelPaging.GetTblEntry` | kernel/paging.c:111-129 | the entry of the page, or NULL if and only if its directory slot has no table |
| `Paging.KernelPaging.constructor` | kernel/paging.c:160-189 | the initial map is exactly 2 MB identity and 6 MB from 0xC0000000, and that is how the processor translates every address |
| `Paging.InitialTranslation` | kernel/paging.c:160-189 | how every 32-bit address translates under it, in numbers, and which fault; every entry is writable and closed to user code |
| `MemoryManager.HandedOutInMemory` | kernel/mm.c:17-27 | for which memory sizes every page handed out lies wholly in memory, as an equivalence |
| `MemoryManager.MemoryInTable` | kernel/mm.c:17-27 | for which memory sizes every whole page is in the table, as an equivalence |
| `MemoryManager.PartialPageHandedOut` | kernel/mm.c:17-27 | a memory size whose table hands out a page that is not all there |
| `MemoryManager.WholePageMissed` | kernel/mm.c:17-27 | a memory size with a whole page that the table misses |
| `MemoryManager.MemoryManager.constructor` | kernel/mm.c:17-32 | an empty page table for the memory size; the processor translates every address as the initial map says, and the page tables lie above the bitmap |
| `MemoryManager.MemoryManager.GetFreePagePhys` | kernel/mm.c:52-60 | the lowest free page, now taken; halts if and only if none is free; with an empty table the byte behind it decides |
| `MemoryManager.MemoryManager.ReleasePagePhys` | kernel/mm.c:62-65 | frees exactly that page, or clears its bit behind the table |
| `MemoryManager.MemoryManager.MemAllocRegion` | kernel/mm.c:77-116 | for every region: refuses if and only if the bit of the first page is set and may not be; otherwise the processor translates every address of the region to its frame with the rights of the flags, and every other address as before; returns the address itself or 3 GB up; marks each page, in the table or behind it |
| `MemoryManager.MemoryManager.MapRegion` | kernel/mm.c:102-109 | the loop maps each page once, in the order of the region, and marks each, in the table or behind it |
| `MemoryManager.RegionShape` | kernel/mm.c:77-101 | how many pages a size comes to and where a region is mapped, in numbers, wrap included |
| `MemoryManager.RegionSeen` | kernel/mm.c:102-109 | what every address translates to after the loop, and the access bits of the entries written, for every combination of flags and also around the end of the address space |
| `MemoryManager.StraysExactly` | kernel/mm.c:102-109 | with 32-bit stepping, some page of the region lies past the table if and only if its last one, counted without wrap, does |
| `MemoryManager.RegionTakenIs` | kernel/mm.c:102-109 | the pages of the table that are taken afterwards are those taken before and those of the region, also around the end of the address space |
| `MemoryManager.RegionBehindIs` | kernel/mm.c:102-109 | the bits set behind the table afterwards are those set before and those of the region's pages |
| `MemoryManager.RegionMapped` | kernel/mm.c:102-109 | each page of the region translates to its frame and every other page as before, also around the end of the address space |
| `MemoryManager.RegionKept` | kernel/mm.c:102-109 | no page of a region is granted in any later run before its release |
| `MemoryManager.RegionCovered` | kernel/mm.c:77-83 | when the pages taken cover the region, as an equivalence |
| `MemoryManager.RegionNotCovered` | kernel/mm.c:77-83 | a region of one page whose last byte is in no page taken |

## Left out

- HeapRuns.KmallocPanics: excludes, through `Permitted`, an expansion with a wrong `heap_list_end_ptr` or past 2^32; `KmallocEnds` says what is decided without them, `HeapFaults` what can follow.
- HeapWords.KmallocRefines: excludes the same two cases through `Answers`; `KmallocWords` covers them.
- HeapWords.KfreeRefines: excludes pointers outside the chain; `KfreeWords` covers them, and `DoubleFreeExactly` those that were freed just before.
- KernelHeap.KernelHeap.Kfree: says nothing of what the list does with a NULL node, the result `Wild`; so does `Kmalloc`.
- KernelHeap.KernelHeap.CheckIntegrity: asks for a heap in order, on which the walk ends.
- KernelHeap.KernelHeap.constructor: takes the free-list array as given storage apart from the heap, below 2^31 slots, and room for a header above `heap_top`, where the stack lies; sharing of the early heap after `init_kheap` is not modelled.
- SortedList.SortedArrayList.Search: items are non-null, as the searches read the zero slot past the last item.
- LinkedList.LinkedList.Remove: says nothing of what follows the null pointer at an index equal to the size.
- ObjectPool.ObjectPool.FreeEntry: only the owner of a slot frees it; the double free described in `klib/shared_pool.c:115-123` is excluded, here and in `SharedPool`.
- Paging.KernelPaging.constructor: asks for address space for every table the directory can ever need; the source only warns when the early heap runs out.
- MemoryManager.MemoryManager.constructor: asks for the same.
- Memory, pages and nodes are maps and sequences; casts between pointers and integers are not modelled further.
- Register and stack save and restore in `arch/thread_switch.s` and `arch/irq.s`: only the order of calls and of cli and sti is kept. Exclusivity is claimed of current threads, not of stacks.
- Weak memory ordering, the translation lookaside buffer, fairness of the spinlock.
- `spin_trylock`, `linked_list_dequeue`, `linked_list_destroy`, `mem_get_free_page_virt`, `mem_release_page_virt`: easy next to the rest.
- `kmalloc_page` and its page heap: its table is given a page count where bytes are expected, so a bound on its pages would be false.
- APIC, PIC, PIT, IDT, GDT, ACPI, the SMP trampoline, the terminal, `klib/circ_buf.c`, `klib/string.c`.
