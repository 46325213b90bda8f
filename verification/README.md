# Verified models of the operating-systems exercises

The repository holds programs written for an operating-systems course. This
project models the ones with an algorithm or a protocol in them and proves what
they are meant to guarantee, and where they do not, exactly when they do.

* **Page replacement** (`DemandPaging`, `Exchange`, `PagingPolicy`, `Belady`,
  `Competitive`, `OnlineBound`, `MemoryOrder`, `StackInclusion`, `FifoAnomaly`,
  `TraceDedup`, `PagingSimulator`). A demand run
  is described by one victim per reference; every policy of the simulator is an
  instance. OPT is best and UNOPT worst among all demand runs, LRU and FIFO are
  competitive with any of them by the best factor there is for a policy that does
  not know the future, LRU and OPT never lose from a larger cache while
  FIFO can for just the sizes stated, and deduplicated traces have the misses of
  the full ones. Pages are integers of any
  sign; the cache holds at least one page, as the simulator needs.
* **Heap allocators** (`HeapBlocks`, `FreeListHeap`, `FitChoice`, `FitAllocator`,
  `Coalescing`, `HeapTheorems`, `MallocRuns`, `MagicAllocator`, `SystemMemory`,
  `MemoryRuns`, `LockedAllocator`). The heap is a sequence of blocks in address order, offsets
  counted from its start; headers and list links are two maps changed store by
  store. Three strategies, coalescing, growth, the dump's two walks, the account
  of system memory, and any number of threads under the recursive mutex.
* **Page table** (`PageBits`, `PageTable`, `PageTableRuns`). Packed entries in
  lazily allocated second-level tables refine one flat map. 32- and 64-bit words
  are bounded naturals and masks are divisions by powers of two.
* **Scheduler** (`Scheduling`, `Scheduler`, `SchedulerRuns`, `WaitingWindows`,
  `BoundedWaiting`, `TightWaiting`, `Starvation`, `TaskStates`). Linked queues proved against a value-level
  scheduler, then theorems over every run of that scheduler.
* **Bounded buffer** (`BoundedBuffer`) and **prime sieve** (`Sieve`).

`Wrappers` holds the one `Option` that all of them use.

`sbrk`, `posix_memalign`, random picks and the interleaving of threads are
arbitrary choices; statements hold for all of them.

## Where the code and its description differ

* `allocHeap` in the vika5 and vika9 `malloc.c` adds the new total to its account,
  so the memory obtained covers the first growth only: `SystemMemory.AddingCovers`,
  `MemoryRuns.AddingRunIsBacked`.
* A refused `sbrk` answers `(void *)-1`, which the tests for NULL let pass: the
  heap grows without memory. `MemoryRuns` and `MagicAllocator` say exactly when the
  heap lies in memory obtained. The version of `allocHeap` for systems without
  `sbrk` does answer NULL; the contracts of `my_malloc` cover both answers.
* `my_malloc` in the vika5 and vika9 files calls itself with a size that already
  holds a header. Such a block is 16 bytes larger, and a request of all of HEAP_SIZE
  grows the heap and then fails: `MallocRuns.MallocFails`, `MallocRuns.GrownForNothing`.
* `my_free` in `savesolmalloc.c` reads the first list entry without checking that
  there is one, so a free fails when the live blocks fill the heap:
  `MagicAllocator.FreeFailsIffFull`.
* The scheduler protects the next lower non-empty level only. A task below two
  ready levels may wait for ever; `Starvation.ServedIff` says exactly who is served.
  The rule its example program expects for three levels does not hold.
* A waiting bound of 5(i+1) calls is off by one when the wait begins with a full
  counter at or below the level: `TightWaiting.BoundIsExact`.
* A larger FIFO cache can miss more often: `FifoAnomaly.AnomalyIff`.
* The header of the page table calls the accessed bit bit 6; its mask, and the
  model, use 0x20.

## Model

| member | source | states |
|---|---|---|
| `PagingSimulator.Simulate` | STY25/vika6/P6/assignment06-templates/p1/paging-policy.py:136-271 | The loop over the trace, for all seven policies: hits and misses add up to the references; the misses are those of a demand run whose victims are the pages evicted; a fixed policy ends with its own memory list and miss count; LRU and MRU keep the list in order of last use, the others in order of loading; without CLOCK `ref` holds the number of references of each page, capped; no CLOCK scan exceeds its bound, and all of them together make at most one pick for each reference and each miss |
| `PagingSimulator.Access` | STY25/vika6/P6/assignment06-templates/p1/paging-policy.py:138-262 | One reference: hit or miss, the memory list, the victim, and the reference counts afterwards, also after a CLOCK scan |
| `PagingSimulator.OptVictim` | STY25/vika6/P6/assignment06-templates/p1/paging-policy.py:192-223 | The scan returns the last of the pages referenced farthest in the future |
| `PagingSimulator.UnoptVictim` | STY25/vika6/P6/assignment06-templates/p1/paging-policy.py:225-243 | The scan returns the first of the pages referenced nearest in the future |
| `PagingSimulator.ClockVictim` | STY25/vika6/P6/assignment06-templates/p1/paging-policy.py:161-185 | For every sequence of picks the search ends, at the first pick of a page picked before as often as it has counts; every other page has lost a count for each pick of it |
| `PagingPolicy.StepIsDemand` | STY25/vika6/P6/assignment06-templates/p1/paging-policy.py:138-250 | Whatever page a policy gives up, a reference keeps, adds or swaps exactly one resident page as demand paging does |
| `PagingPolicy.PolicyIsDemand` | STY25/vika6/P6/assignment06-templates/p1/paging-policy.py:136-250 | Every fixed policy is a demand policy with exactly its own number of misses |
| `MemoryOrder.StepKeepsOrder` | STY25/vika6/P6/assignment06-templates/p1/paging-policy.py:139-256 | Whatever page is given up, LRU and MRU keep the list in the order in which its pages were last used, the others in that in which they were loaded |
| `MemoryOrder.WhoGoes` | STY25/vika6/P6/assignment06-templates/p1/paging-policy.py:155-158 | On a miss in a full memory LRU gives up the page used longest ago, MRU the one used just before, FIFO the one loaded longest ago |
| `MemoryOrder.WhoGoesAhead` | STY25/vika6/P6/assignment06-templates/p1/paging-policy.py:192-243 | OPT gives up the page used again last, UNOPT the one used again first; among pages never used again the one at the back, and at the front |
| `MemoryOrder.MruOnCycle` | STY25/vika6/P6/assignment06-templates/p1/paging-policy.py:157-158 | On a cycle of k + 1 pages MRU misses, once memory is full, exactly once in k references |
| `Exchange.OffByOne` | STY25/vika6/P6/assignment06-templates/p1/paging-policy.py:149-250 | Two memories that differ in one page cost at most one miss more on any trace |
| `Exchange.KeepSooner` | STY25/vika6/P6/assignment06-templates/p1/paging-policy.py:192-223 | Holding the page used sooner is at least as good, run by run |
| `Exchange.KeepLater` | STY25/vika6/P6/assignment06-templates/p1/paging-policy.py:225-243 | Holding the page used later can be made at least as bad |
| `Belady.OptIsOptimal` | STY25/vika6/P6/assignment06-templates/p1/paging-policy.py:192-223 | OPT has no more misses than any demand policy, on every trace, from every memory |
| `Belady.UnoptIsPessimal` | STY25/vika6/P6/assignment06-templates/p1/paging-policy.py:225-243 | UNOPT has no fewer misses than any demand policy |
| `Belady.OptMoreRoom` | STY25/vika6/P6/assignment06-templates/p1/paging-policy.py:192-223 | Misses of OPT never rise with the cache size |
| `Competitive.UnequalRoom` | STY25/vika6/P6/assignment06-templates/p1/paging-policy.py:155-156 | LRU and FIFO with k pages against any demand policy with h <= k: (k - h + 1) times their misses is at most k times the other's, and a constant that is zero for h = k |
| `Competitive.KCompetitive` | STY25/vika6/P6/assignment06-templates/p1/paging-policy.py:155-156 | From an empty cache of size k, LRU and FIFO each miss at most k times as often as any demand policy |
| `Competitive.KCompetitiveWithOpt` | STY25/vika6/P6/assignment06-templates/p1/paging-policy.py:155-223 | LRU and FIFO misses are at most k times those of OPT |
| `Competitive.TwiceTheRoom` | STY25/vika6/P6/assignment06-templates/p1/paging-policy.py:155-223 | With twice the room of OPT, at most about twice its misses |
| `OnlineBound.FactorIsBest` | STY25/vika6/P6/assignment06-templates/p1/paging-policy.py:138-250 | For every policy that decides by the references so far, every k and n, there is a trace of k * n references that all miss, on which OPT misses at most n + k times |
| `OnlineBound.FactorIsBestForLists` | STY25/vika6/P6/assignment06-templates/p1/paging-policy.py:155-160 | The same of LRU, FIFO and MRU as the simulator has them |
| `OnlineBound.OptOnFewPages` | STY25/vika6/P6/assignment06-templates/p1/paging-policy.py:192-223 | On a trace over k + 1 pages OPT, once its memory is full, misses at most once in k references |
| `OnlineBound.RatioIsK` | STY25/vika6/P6/assignment06-templates/p1/paging-policy.py:155-156 | LRU and FIFO keep within b / a times the misses of OPT on all traces, but for a constant, exactly if b / a is at least k |
| `Competitive.BothMove` | STY25/vika6/P6/assignment06-templates/p1/paging-policy.py:138-250 | One reference: the potential pays k - h + 1 for every miss of the list with k for every miss of the rival |
| `StackInclusion.LruIsStack` | STY25/vika6/P6/assignment06-templates/p1/paging-policy.py:138-156 | The LRU memory of a smaller cache is always a suffix of that of a larger one, which misses no more often |
| `StackInclusion.LruMoreRoom` | STY25/vika6/P6/assignment06-templates/p1/paging-policy.py:138-156 | From an empty cache, LRU misses never rise with the cache size |
| `FifoAnomaly.NoAnomaly` | STY25/vika6/P6/assignment06-templates/p1/paging-policy.py:149-156 | A FIFO cache of at least 2k - 1 pages never misses more often than one of k |
| `FifoAnomaly.AnomalyOnTrace` | STY25/vika6/P6/assignment06-templates/p1/paging-policy.py:149-156 | For all k < k' <= 2k - 2 a trace on which the larger FIFO cache misses once more |
| `FifoAnomaly.AnomalyIff` | STY25/vika6/P6/assignment06-templates/p1/paging-policy.py:149-156 | For k < k', some trace makes the larger FIFO cache miss more often exactly if k' < 2k - 1 |
| `FifoAnomaly.ThreeAndFour` | STY25/vika6/P6/assignment06-templates/p1/paging-policy.py:149-156 | The smallest case: nine misses with three pages, ten with four |
| `TraceDedup.ExportPageTrace` | STY25/vika6/P6/assignment06-templates/p1/sim-paging.py:56-70 | The exported trace is the input without consecutive repeats; an empty input exports nothing |
| `TraceDedup.DedupHasNoRepeat` | STY25/vika6/P6/assignment06-templates/p1/sim-paging.py:61-64 | No page follows itself in the exported trace, which starts with the same page and is not longer |
| `TraceDedup.SameVictim` | STY25/vika6/P6/assignment06-templates/p1/paging-policy.py:155-243 | A victim depends on the future only through the order of next uses |
| `TraceDedup.DedupKeepsMisses` | STY25/vika6/P6/assignment06-templates/p1/sim-paging.py:56-70 | Removing repeats changes neither the miss count nor the final memory of FIFO, LRU, MRU, OPT or UNOPT |
| `TraceDedup.SameMissCounts` | STY25/vika6/P6/assignment06-templates/p1/sim-paging.py:56-70 | For all demand runs, RAND and CLOCK among them: the same miss counts are possible on a trace and on its deduplication |
| `TraceDedup.XdupsRestoresHitRate` | STY25/vika6/P6/assignment06-templates/p1/paging-policy.py:272 | Misses stay the same, and with the removed references reported as `xdups` the hit rate is that of the full trace: the share of its references that hit |
| `HeapBlocks.AllocKeeps` | STY25/vika5/P5/malloc.c:97-115 | Allocating keeps the heap invariant: blocks tile the heap in positive multiples of 16 and free blocks touch only at multiples of HEAP_SIZE |
| `HeapBlocks.GrowKeeps` | STY25/vika5/P5/malloc.c:235-245 | Growing keeps the heap invariant |
| `HeapBlocks.FreeKeeps` | STY25/vika5/P5/malloc.c:276-307 | Freeing keeps the heap invariant |
| `HeapBlocks.NoByteLost` | STY25/vika5/P5/malloc.c:97-313 | Free and allocated bytes add up to the heap size |
| `HeapBlocks.NothingFree` | STY25/vika5/P5/malloc.c:97-313 | The free list is empty exactly if the live blocks fill the heap |
| `HeapBlocks.FreeListAscends` | STY25/vika5/P5/malloc.c:284-298 | The free list is strictly address-ordered and its blocks do not overlap |
| `FreeListHeap.Heap.AllocateBlock` | STY25/vika5/P5/malloc.c:97-115 | The stores through the link hand out the front of the block and leave headers and list in order |
| `FreeListHeap.Heap.WalkTo` | STY25/vika5/P5/malloc.c:284-289 | The walk stops between the free blocks before and after the given address |
| `FreeListHeap.Heap.MergeBlocks` | STY25/vika5/P5/malloc.c:268-274 | Two list neighbours become one block exactly when they touch |
| `FreeListHeap.Heap.Extend` | STY25/vika5/P5/malloc.c:235-245 | The new block is linked at its address and the old blocks stay |
| `FreeListHeap.FreeInSteps` | STY25/vika5/P5/malloc.c:290-307 | Insert, merge backwards, merge forwards compose to one free |
| `FreeListHeap.FreeForwardsFirst` | STY25/vika9/assignment09-templates-1/p1/savesolmalloc.c:289-312 | Insert, merge forwards, merge backwards compose to the same free |
| `FitChoice.NeededIsEnough` | STY25/vika5/P5/malloc.c:92-95 | The headered size holds the request and is the least multiple of 16 that does, exactly for requests that do not wrap in 64 bits; it is 0 exactly for the sixteen requests before those that wrap to a bare header |
| `FitChoice.PickedIsChosen` | STY25/vika5/P5/malloc.c:131-226 | The list entry picked is the first smallest, first, or first largest fitting free block of the heap |
| `FitAllocator.Search` | STY25/vika5/P5/malloc.c:131-226 | The search loop, with the link it leaves behind, finds the entry the strategy asks for, or that none fits |
| `FitAllocator.Allocator.MyMalloc` | STY25/vika5/P5/malloc.c:117-266 | What the call answers and does to heap and account in every case: too large, fits, `allocHeap` answers NULL or not; it calls itself at most once |
| `FitAllocator.Retry` | STY25/vika5/P5/malloc.c:249-252 | The retry asks for 16 bytes more, and only the new block can serve it |
| `FitAllocator.Allocator.MyFree` | STY25/vika5/P5/malloc.c:276-313 | The block is given back and joined with free neighbours on either side |
| `MallocRuns.MallocIsSafe` | STY25/vika5/P5/malloc.c:117-266 | A successful call returns an aligned payload, inside the heap of `_heapSize` bytes, apart from every live block, large enough exactly if the request did not wrap around; a failed one changes no live block |
| `MallocRuns.MallocTakes` | STY25/vika5/P5/malloc.c:131-226 | Of the free blocks large enough best fit takes the smallest, worst fit the largest, first fit the lowest; of equal ones the lowest |
| `MallocRuns.MallocFails` | STY25/vika5/P5/malloc.c:119-252 | NULL exactly when the size is too large, or nothing fits and `allocHeap` answers NULL or the size is all of HEAP_SIZE; the last case grows the heap for nothing |
| `MallocRuns.GrownForNothing` | STY25/vika5/P5/malloc.c:119-252 | The run that shows it: 16 bytes, then HEAP_SIZE - 16 bytes; the second call grows the heap and answers NULL |
| `MallocRuns.RunInvariant` | STY25/vika5/P5/malloc.c:97-313 | In every run of mallocs and frees: tiling, seams only at multiples of HEAP_SIZE, an ascending free list, live blocks apart, no byte lost |
| `MallocRuns.LiveUntilFreed` | STY25/vika5/P5/malloc.c:97-313 | A block handed out stays where it is until it is freed |
| `MallocRuns.CoalescedWithoutGrowth` | STY25/vika5/P5/malloc.c:97-313 | Until the heap grows no two free blocks touch |
| `MallocRuns.RunThenFreeAll` | STY25/vika5/P5/malloc.c:276-313 | After any run without growth, freeing all live blocks in any order leaves one block of HEAP_SIZE |
| `MallocRuns.RunIsDetermined` | STY25/vika5/P5/malloc.c:117-313 | Two runs with the same requests give the same answers and the same heaps |
| `HeapTheorems.AllocAddsLive` | STY25/vika5/P5/malloc.c:97-115 | Allocation adds one live block, apart from the others, and touches no other |
| `HeapTheorems.FreeRemovesLive` | STY25/vika5/P5/malloc.c:276-307 | A free removes exactly the freed block from the live ones |
| `HeapTheorems.FreeUndoesAlloc` | STY25/vika5/P5/malloc.c:97-115 | Malloc then free restores the heap exactly if the block taken did not already touch a free block that the free then joins |
| `HeapTheorems.OrderDoesNotMatter` | STY25/vika5/P5/malloc.c:276-313 | On a coalesced heap the free list after freeing a set of blocks does not depend on the order |
| `HeapTheorems.FreeEverything` | STY25/vika5/P5/malloc.c:276-313 | On a coalesced heap freeing every live block leaves one free block |
| `Coalescing.BytesDetermineList` | STY25/vika5/P5/malloc.c:268-313 | A sorted list without touching blocks is determined by the bytes it covers |
| `Coalescing.FreeAddsBytes` | STY25/vika5/P5/malloc.c:276-307 | A free adds exactly the bytes of the freed block to the free ones |
| `SystemMemory.System.AllocHeap` | STY25/vika5/P5/malloc.c:15-28 | The answer and the new account; a refused `sbrk` counts as granted |
| `SystemMemory.AddingCovers` | STY25/vika5/P5/malloc.c:24-27 | Adding the new total to `heapSize`: the memory obtained covers the heap exactly if it has not grown, or has grown once with an `sbrk` that worked |
| `SystemMemory.AddingSums` | STY25/vika5/P5/malloc.c:24-27 | The account after n requests in closed form, 1 + 2 + ... + (n + 1) heaps, and the end of memory, which later requests move backwards |
| `MemoryRuns.GrowsWithAnswers` | STY25/vika5/P5/malloc.c:228-236 | With `sbrk` every request grows the heap, refused or not |
| `MemoryRuns.AddingRunIsBacked` | STY25/vika5/P5/malloc.c:24-27 | In every run all blocks lie in memory obtained exactly if the heap is of its first size, or of twice that with an `sbrk` that worked |
| `MemoryRuns.FixedRunIsBacked` | STY25/vika5/P5/malloc.c:36-48 | With the version that takes ten heaps at the start every run lies in memory, and `allocHeap` answers NULL exactly from the tenth heap on |
| `MemoryRuns.ThreeCallsAreTooMany` | STY25/vika5/P5/malloc.c:117-252 | A run of three requests, every `sbrk` working, whose heap is not all in memory |
| `SystemMemory.SettingFallsShort` | STY25/vika9/assignment09-templates-1/p1/savesolmalloc.c:33-36 | Setting `heapSize` to the new total: it equals the heap, and the memory obtained falls short by one heap for each refusal |
| `SystemMemory.SettingCovers` | STY25/vika9/assignment09-templates-1/p1/savesolmalloc.c:33-36 | So the memory covers the heap exactly if no `sbrk` was refused |
| `LockedAllocator.StepKeeps` | STY25/vika9/assignment09-templates-1/p1/malloc.c:183-338 | Every step of every thread keeps the invariant: who holds the lock, how deep, and how far it has taken the heap |
| `LockedAllocator.Serializable` | STY25/vika9/assignment09-templates-1/p1/malloc.c:183-338 | In every interleaving the completed calls, in the order they gave the lock back, are a serial run with the same answers; with the lock free the heap is what that run leaves; the calls of the run are the calls begun, each once, but for those unfinished |
| `LockedAllocator.CallIsRecorded` | STY25/vika9/assignment09-templates-1/p1/malloc.c:183-338 | A thread that finishes a call adds to the serial run that very call, as it was last begun, with the answer it gives; no other step adds anything |
| `LockedAllocator.OrderDecides` | STY25/vika9/assignment09-templates-1/p1/malloc.c:183-338 | Two executions that completed the same requests in the same order gave the same answers and, with the lock free, have the same heap |
| `LockedAllocator.LockIsBalanced` | STY25/vika9/assignment09-templates-1/p1/malloc.c:197-263 | A thread holds the recursive mutex as often as it has unfinished locked activations, dumps included: at most twice, once more only during a debug dump of its own, and not at all when idle |
| `LockedAllocator.DumpIsConsistent` | STY25/vika9/assignment09-templates-1/p1/malloc.c:122-138 | A dump sees the heap between two calls, never a half-done one |
| `LockedAllocator.InnerDumpIsConsistent` | STY25/vika9/assignment09-templates-1/p1/malloc.c:199-260 | A debug dump inside `my_malloc` sees a well-formed heap: that of the completed calls, grown for the inner call, or what the call leaves |
| `LockedAllocator.NoDeadlock` | STY25/vika9/assignment09-templates-1/p1/malloc.c:183-338 | While a call is unfinished, some unfinished call can take its next step |
| `MagicAllocator.SearchBest` | STY25/vika9/assignment09-templates-1/p1/savesolmalloc.c:206-224 | The search finds the first smallest fitting block with its link, and the link at the end of the list |
| `MagicAllocator.Allocator.MyMalloc` | STY25/vika9/assignment09-templates-1/p1/savesolmalloc.c:195-257 | What the call answers and does to the heap in every case; `heapSize` and `_heapSize` stay equal, and each refused `sbrk` leaves memory one heap short |
| `MagicAllocator.Allocator.MyFree` | STY25/vika9/assignment09-templates-1/p1/savesolmalloc.c:278-315 | The block is given back and joined with free neighbours on either side; with an empty free list the call fails and changes nothing |
| `MagicAllocator.FreeFailsIffFull` | STY25/vika9/assignment09-templates-1/p1/savesolmalloc.c:288-296 | A free of a live block fails exactly if the live blocks fill the heap; the block is then still live |
| `MagicAllocator.OnlyBlockCannotBeFreed` | STY25/vika9/assignment09-templates-1/p1/savesolmalloc.c:195-296 | One request from the start takes the whole heap, and its free fails, whatever `allocHeap` would answer |
| `MagicAllocator.MallocIsSafe` | STY25/vika9/assignment09-templates-1/p1/savesolmalloc.c:195-257 | A successful call returns an aligned payload apart from every live block, of exactly the headered size, large enough exactly if the request did not wrap around; NULL exactly if nothing fits and the size is too large or `allocHeap` answers NULL |
| `MagicAllocator.MallocTakes` | STY25/vika9/assignment09-templates-1/p1/savesolmalloc.c:206-224 | Of the free blocks large enough the call takes the smallest, of equal ones the lowest |
| `MagicAllocator.Allocator.BackedIffNoneRefused` | STY25/vika9/assignment09-templates-1/p1/savesolmalloc.c:33-36 | In every reachable state all blocks lie in memory obtained exactly if no `sbrk` was refused |
| `MagicAllocator.RefusedBlockIsOutside` | STY25/vika9/assignment09-templates-1/p1/savesolmalloc.c:33-36 | The block handed out after a refused `sbrk` starts outside the memory obtained |
| `MagicAllocator.OneRefusalIsEnough` | STY25/vika9/assignment09-templates-1/p1/savesolmalloc.c:195-257 | The run that shows it: all of HEAP_SIZE, then 16 bytes with a refused `sbrk`; the second is answered, outside the memory |
| `MagicAllocator.Allocator.WalkBySize` | STY25/vika9/assignment09-templates-1/p1/savesolmalloc.c:123-133 | The walk by size visits all blocks in order and tells free ones by the magic `next` |
| `MagicAllocator.Allocator.DumpAllocator` | STY25/vika9/assignment09-templates-1/p1/savesolmalloc.c:117-146 | The two walks agree: the blocks the first reports free are the list entries of the second, in order |
| `PageBits.SplitIsExact` | STY25/vika7/P7/assignment07-templates/p1/page_table.c:23-44 | Directory index, table index and offset determine the address |
| `PageBits.SameEntry` | STY25/vika7/P7/assignment07-templates/p1/page_table.c:28-38 | Two addresses share an entry exactly when they lie on the same page |
| `PageBits.EncodeDecode` | STY25/vika7/P7/assignment07-templates/p1/page_table.c:88-94 | The packed entry decodes to frame and rights, present and not yet accessed |
| `PageBits.EncodeExact` | STY25/vika7/P7/assignment07-templates/p1/page_table.c:88-94 | The entry is the frame address plus 1, 2 if writable, 4 if for user mode, and nothing else |
| `PageBits.MarkAccessed` | STY25/vika7/P7/assignment07-templates/p1/page_table.c:148-149 | Setting the accessed bit changes nothing else |
| `PageBits.AnswerIsInvalid` | STY25/vika7/P7/assignment07-templates/p1/page_table.c:102-156 | A translated address equals the error value exactly for the last byte of frame 0xFFFFF000 |
| `PageTable.Tables.MapPage` | STY25/vika7/P7/assignment07-templates/p1/page_table.c:46-100 | Exactly one page changes, to the given frame and rights; nothing changes on failure; second-level tables stay consistent |
| `PageTable.Tables.Translate` | STY25/vika7/P7/assignment07-templates/p1/page_table.c:104-157 | Frame plus offset exactly if the page is mapped and the rights allow it, and then only its accessed bit changes |
| `PageTable.Tables.UnmapPage` | STY25/vika7/P7/assignment07-templates/p1/page_table.c:162-203 | Exactly one page is unmapped, -1 if it was not mapped; an empty table is freed |
| `PageTable.AllUnmapped` | STY25/vika7/P7/assignment07-templates/p1/page_table.c:186-193 | The scan finds whether any entry is present |
| `PageTableRuns.CallRefines` | STY25/vika7/P7/assignment07-templates/p1/page_table.c:46-203 | Each call does to a flat map from pages to frames and rights, and answers, what the map operation does |
| `PageTableRuns.RunRefines` | STY25/vika7/P7/assignment07-templates/p1/page_table.c:46-203 | From an empty directory every sequence of calls refines the flat map, answer by answer |
| `PageTableRuns.RightsDecide` | STY25/vika7/P7/assignment07-templates/p1/page_table.c:104-157 | In every run an address on a page that some call mapped, and none since has changed, translates to the frame of that call exactly if the kernel asks, or the page was mapped for user mode and the access is a read or the page was mapped for writing; otherwise to 0xFFFFFFFF |
| `PageTableRuns.UnmappedFails` | STY25/vika7/P7/assignment07-templates/p1/page_table.c:104-178 | An address on any other page translates to 0xFFFFFFFF, and to unmap that page answers -1 |
| `PageTableRuns.MapAnswers` | STY25/vika7/P7/assignment07-templates/p1/page_table.c:46-99 | Mapping answers 0 exactly if both addresses are aligned and a table is there, because of another mapped page, or can be had |
| `PageTableRuns.EntryOfRun` | STY25/vika7/P7/assignment07-templates/p1/page_table.c:88-149 | The whole entry of a mapped page in every run: frame, present, rights, and 0x20 if translated since |
| `PageTableRuns.AccessedMeansTranslated` | STY25/vika7/P7/assignment07-templates/p1/page_table.c:88-96 | In the flat map, a mapped page is accessed exactly when it was successfully translated since it was last mapped |
| `PageTableRuns.AccessedBitMeansTranslated` | STY25/vika7/P7/assignment07-templates/p1/page_table.c:88-149 | The same of the accessed bit in the table, in every run |
| `PageTableRuns.PresentIsInUse` | STY25/vika7/P7/assignment07-templates/p1/page_table.c:65-80 | A directory entry is present exactly when a page of its range is mapped |
| `PageTableRuns.TableCount` | STY25/vika7/P7/assignment07-templates/p1/page_table.c:186-200 | There are as many second-level tables as directory indices among the mapped pages |
| `Scheduler.Queue.AppendItem` | STY25/vika3/Passignment03-templates/p1/scheduler.c:10-23 | The linked queue gains the task at its tail |
| `Scheduler.Queue.RemoveFirstItem` | STY25/vika3/Passignment03-templates/p1/scheduler.c:25-37 | The linked queue loses its head; NULL if empty |
| `Scheduler.Scheduler.InitScheduler` | STY25/vika3/Passignment03-templates/p1/scheduler.c:39-46 | Empty queues, zero counters, level 0 |
| `Scheduler.Scheduler.OnTaskReady` | STY25/vika3/Passignment03-templates/p1/scheduler.c:48-56 | The linked queues, counters and task fields change as the value-level operation says |
| `Scheduler.Scheduler.OnTaskPreempted` | STY25/vika3/Passignment03-templates/p1/scheduler.c:58-62 | The same for a preempted task |
| `Scheduler.Scheduler.OnTaskWaiting` | STY25/vika3/Passignment03-templates/p1/scheduler.c:64-67 | The same for a waiting task |
| `Scheduler.Scheduler.ScheduleNextTask` | STY25/vika3/Passignment03-templates/p1/scheduler.c:69-105 | The task returned and the whole new state are those of the value-level operation |
| `Scheduler.Scheduler.Reschedule` | STY25/vika3/Passignment03-templates/p1/main.c:70-74 | Preempting the running task and calling the scheduler asks for no more than what every run keeps, and keeps it |
| `Scheduling.EnqueueKeeps` | STY25/vika3/Passignment03-templates/p1/scheduler.c:48-62 | Queueing a task that is not ready keeps the invariant |
| `Scheduling.DispatchKeeps` | STY25/vika3/Passignment03-templates/p1/scheduler.c:77-99 | Dispatching keeps the invariant |
| `TaskStates.QueuedAtNearest` | STY25/vika3/Passignment03-templates/p1/scheduler.c:48-56 | A task made ready is queued, last, at the level from 0 to 10 nearest to its priority |
| `TaskStates.CallFollows` | STY25/vika3/Passignment03-templates/p1/scheduler.c:48-105 | What a call makes of the state of each task, by the task's own state machine |
| `TaskStates.ReadyUntilDispatched` | STY25/vika3/Passignment03-templates/p1/scheduler.c:48-105 | In every run a task made ready stays ready until a call dispatches it |
| `TaskStates.RunsUntilReleased` | STY25/vika3/Passignment03-templates/p1/scheduler.c:58-105 | In every run a task dispatched runs until a call about it |
| `TaskStates.WhoIsNext` | STY25/vika3/Passignment03-templates/p1/scheduler.c:69-105 | The task dispatched heads the highest ready level or, after four dispatches in a row, the highest ready level below the current one |
| `SchedulerRuns.RunInvariant` | STY25/vika3/Passignment03-templates/p1/scheduler.c:10-105 | In every run of well-formed calls a task is queued exactly when ready, exactly once, at its own clamped priority; only the current priority has a counter, at most 4 |
| `SchedulerRuns.QueuesAreFifo` | STY25/vika3/Passignment03-templates/p1/scheduler.c:10-37 | A call appends at a tail, takes from a head, or leaves a queue alone |
| `WaitingWindows.FirstInFirstOut` | STY25/vika3/Passignment03-templates/p1/scheduler.c:10-37 | In every run, of two tasks queued at one level the earlier is dispatched before the later |
| `SchedulerRuns.AtMostFourInARow` | STY25/vika3/Passignment03-templates/p1/scheduler.c:69-105 | While a lower-priority task stays ready there are no five dispatches in a row at one priority |
| `BoundedWaiting.CallHelps` | STY25/vika3/Passignment03-templates/p1/scheduler.c:69-105 | A call dispatches the head of the queue or brings the waiting bound down |
| `BoundedWaiting.WaitIsBounded` | STY25/vika3/Passignment03-templates/p1/scheduler.c:69-105 | With one level above ever ready, the task at position i is dispatched within a bound computed from counter and position |
| `BoundedWaiting.WaitInCalls` | STY25/vika3/Passignment03-templates/p1/scheduler.c:69-105 | The bound in numbers: 5(i+1) calls, one more after a full counter at or below the level and above the lowest; 2(i+1) with no level above |
| `TightWaiting.BoundFails` | STY25/vika3/Passignment03-templates/p1/scheduler.c:70-84 | After such a full counter, with contention on both sides, 5(i+1) calls can pass without the task, from every reachable state |
| `TightWaiting.BoundIsExact` | STY25/vika3/Passignment03-templates/p1/scheduler.c:69-105 | From every reachable state with at most one level above ready, and as long as no new level becomes ready, 5(i+1) calls suffice exactly unless that level is ready, a full counter stands at or below, and a task is ready lower still |
| `TightWaiting.BoundIsExactUnder` | STY25/vika3/Passignment03-templates/p1/scheduler.c:69-105 | With lower levels free to become ready, and one that is, 5(i+1) calls suffice exactly if no full counter stands at or below the level |
| `Starvation.ServedIff` | STY25/vika3/Passignment03-templates/p1/scheduler.c:69-105 | From every reachable state, as long as no new level above becomes ready, some number of calls always suffices for a task exactly if at most one level above is ready, or the task comes next |
| `Starvation.Starves` | STY25/vika3/Passignment03-templates/p1/scheduler.c:69-105 | From every reachable state with two levels ready above, a task that does not come next waits through any number of calls if each chosen task is preempted at once |
| `Starvation.LowestStarves` | STY25/vika3/Passignment03-templates/p1/main.c:64-87 | The example program: after its own twelve calls up to the loop and any number of rounds of the loop the task of priority 5, which it expects, has not been dispatched |
| `Starvation.FiveCallsAreNotEnough` | STY25/vika3/Passignment03-templates/p1/scheduler.c:70-84 | A run from the start in which the head of a queue with one level above waits through five calls |
| `BoundedBuffer.StepKeeps` | STY25/vika9/Lab/Producer-ConsumerProblem3.c:19-44 | Every step of every thread keeps the invariant |
| `BoundedBuffer.BufferIsSafe` | STY25/vika9/Lab/Producer-ConsumerProblem3.c:13-44 | In every interleaving slots are conserved, the index stays in 0..10, the critical section is exclusive, and stored items are consumed plus buffered items |
| `BoundedBuffer.AskedIsStored` | STY25/vika9/Lab/Producer-ConsumerProblem3.c:19-30 | In every interleaving each item given to `produce` is stored once, or its thread is about to |
| `BoundedBuffer.TakenIsReturned` | STY25/vika9/Lab/Producer-ConsumerProblem3.c:32-44 | Each item taken is returned once, or its thread is about to |
| `BoundedBuffer.WhatGoesInComesOut` | STY25/vika9/Lab/Producer-ConsumerProblem3.c:19-44 | With no call unfinished the items `produce` was called with are those `consume` has returned and those in the buffer |
| `BoundedBuffer.EveryCallFits` | STY25/vika9/Lab/Producer-ConsumerProblem3.c:19-44 | Each thread stores the item of its own last call of `produce`, and returns the item it took from the top |
| `BoundedBuffer.AccessesAreInBounds` | STY25/vika9/Lab/Producer-ConsumerProblem3.c:24-36 | Every buffer access is in bounds |
| `BoundedBuffer.LatestFirst` | STY25/vika9/Lab/Producer-ConsumerProblem3.c:35-37 | A consume takes the latest item not yet consumed |
| `BoundedBuffer.NoDeadlock` | STY25/vika9/Lab/Producer-ConsumerProblem3.c:19-44 | While a produce and a consume are both unfinished some thread can step |
| `Sieve.PrimeIsUncrossed` | STY25/vika2/DynamicMemoryManagement.c:34-43 | A number below the square of the next factor is uncrossed exactly if it is prime |
| `Sieve.CrossOut` | STY25/vika2/DynamicMemoryManagement.c:37-42 | The inner loop crosses out the multiples of its prime, without overflow, in bounds |
| `Sieve.FindPrimes` | STY25/vika2/DynamicMemoryManagement.c:28-43 | Entry n is non-zero exactly if n is prime, for every 2 <= n <= max |

## Left out

- PagingSimulator.Simulate: traces given with `-a` are lists of strings, in which OPT's lookup never matches; only integer traces are modelled, and random generation, printing and plotting are not.
- TraceDedup.DedupKeepsMisses: not for RAND and CLOCK, whose victims are random; of those `SameMissCounts` compares all runs, not the odds.
- FitAllocator.Allocator.MyMalloc: not for requests from 2^64 - 31 to 2^64 - 16, whose size with the header wraps around to 0; the source then overwrites the header of the block it splits. `FitChoice.NeededIsEnough` says exactly which.
- FitAllocator.Allocator.MyFree: the address must be one that was handed out and not yet freed, which the source also takes for granted.
- MagicAllocator.Allocator.MyMalloc: the same sixteen requests; the debug dumps are not called.
- MagicAllocator.Allocator.MyFree: what happens after the read through a NULL list is not modelled; the mutex of this file is not modelled again, `LockedAllocator` covers the protocol.
- LockedAllocator.StepKeeps: a search, a merge or the walk of a dump is one step, since only the lock holder touches the heap; frees name live blocks, each by one thread.
- PageTable.Tables.MapPage: a new table is aligned and not already in use, as `posix_memalign` promises; contents of other memory are not modelled.
- Scheduler.Scheduler.OnTaskReady: node allocation succeeds; the source drops the task if it does not.
- SchedulerRuns.RunInvariant: clients change the fields of a task only while it is not ready, and never make it ready or running themselves; no task is ready or running at the start.
- MallocRuns.RunInvariant: the heap is the model's even where it leaves the memory obtained; `MemoryRuns` says exactly when it does, and what a store beyond it does to the program is not modelled. The first `sbrk` is taken to work.
- BoundedBuffer.NoDeadlock: progress of some thread, not fairness towards each.
- Sieve.FindPrimes: for max up to 2147395599, beyond which `i * i` overflows; the array is given, its allocation and the printing are not modelled.
- The next-fit strategy: its search starts at the cursor without the link before it, so it does not keep the list.
- `getAllocStatistics`, option parsing, and all printing.
- Writes of programs into the memory handed out; they are assumed to stay inside it.
- The other exercises: system-call plumbing, copies of the files above, and unimplemented stubs.
