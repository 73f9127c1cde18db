# Verified models of the kernel

Dafny models of the parts of the kernel whose correctness depends on whole runs, loops or bit
arithmetic, with proofs of what they promise. `dafny verify dfyconfig.toml` checks everything.

## What is modelled

- **The shared queue** (`QueueStamps`, `SharedQueue`, `SharedQueueProofs`, `SharedQueueRefinement`). The
  kernel/user queue is a bounded lock-free ring. Each atomic load, exchange and store of any number of
  threads is one step. One invariant ties head, tail, slot stamps and in-flight accesses to a history of
  positions, and the queue is shown to refine an atomic FIFO.
- **The memory stack** (`Bits`, `Addresses`, `PhysicalMemory`, `VirtualRanges`, `PageTableEntries`,
  `PageTableTree`, `PageTable`, `PageTableIter`, `MappedCopy`, `MappedRuns`, `TableCounts`,
  `ProcessPages`, `LiveMemory`, `PageCounts`, `ProcessMemory`). Page tables are maps from
  table addresses to 512 entries, as the VMSAv8-64 translation tables of chapter D8 of the Arm Architecture
  Reference Manual DDI 0487. Their meaning is the leaf at which the walk of a page ends. Mapping,
  unmapping, iteration and copying are proved against that meaning, and `alloc_memory` and `free_memory`
  compose them with the two allocators. The allocations of a process are tracked over whole runs, and
  every physical page in use is accounted for.
- **The kernel heap** (`HeapBlocks`, `HeapList`, `Heap`). Memory is a map of words. The free list lives in
  it as doubly linked headers and is tied to a sorted sequence of blocks. Free and used blocks tile the
  heap.
- **The read/write lock** (`RwLock`, `RwLockProofs`). Every atomic step of every task, with the mutex
  around the reader count, the write semaphore, the failing calls and cancelled futures.
- **The block cache** (`BlockAddresses`, `CacheContents`, `BlockCache`). What a client sees is the disk with
  the cached chunks laid over it.
- **NVMe completions** (`CompletionRing`, `PendingCompletions`, `CommandReuse`, `NvmeCompletions`). The
  phase-tag ring (section 4.6 of NVM Express 1.4) against a device, the table that connects completions
  with futures, what happens when command ids come around too early, and ring and table together.
- **The device tree cursor** (`DeviceTree`). An encoder for trees (section 5.4 of the Devicetree
  Specification) and the cursor that reads them back.
- **The registry** (`Paths`, `Registry`) and **the scheduler** (`Scheduler`).

## Where the code does less than it says

For each of these the exact condition under which the code is right is proved, and a concrete input is
given where it is not.

- `from_parts` rejects page offsets above 0x3ff (`FromPartsOfToParts`, `FromPartsFails`).
- `block_entry` accepts bases that are not aligned to the block (`BlockAlignmentExact`, `BlockAlignmentFails`).
- `reserve` at the start of a larger block moves the block by bytes, and rounds up what is not page aligned
  (`ReservedExact`, `ReserveFrontFails`, `ReserveUnalignedFails`).
- `mapped_copy_from` needs a further mapped region behind the source (`CopyVerdict`, `LastPageRefused`).
- `try_alloc_contig` refuses a run that ends with memory (`TryAllocContig`, `EndOfMemoryRefused`).
- The heap header loses paddings of 256 and more (`RecoverBlock`, `HeaderLosesPadding`,
  `WideAlignmentLosesBlock`).
- `try_read` leaves the reader count raised when it fails, and so does a cancelled first reader
  (`TryReadFailsIff`, `FailedTryReadBreaksExclusion`, `TryReadCounterexample`,
  `CancelledReadBreaksExclusion`).
- `decompose_address` compares a block offset with the block size (`DecomposeTotal`, `DecomposeFails`).
- `write_bytes` does not mark a clean cached chunk dirty (`WriteBytes`, `SeenAfterExact`, `LostWrite`).
- Command ids wrap around (`WindowedUnreused`, `ReusePanics`, `ReuseHappens`), and dropped futures leave
  their completions behind (`AbandonMisleads`, `AbandonHappens`).
- `next_back` is the reverse of `next` only without doubled separators, and not after the front has moved
  (`Backward`, `NextBack`, `DoubledSeparator`, `FrontMoved`).
- The scheduler does not fall through to lower priorities (`FallThroughIff`, `FallThroughFails`).

## Model

| member | source | states |
|---|---|---|
| SharedQueueRefinement.RunRefinesFifo | kapi/src/queue.rs:141-287 | for any number of threads and any interleaving of atomic steps, the run is step by step a run of an atomic FIFO of the given capacity: it starts empty, and every step of a thread starts, returns or takes effect atomically, or changes nothing visible |
| SharedQueueRefinement.NextRefines | kapi/src/queue.rs:141-287 | one step of any thread in any state satisfying the invariant is one FIFO step of that thread; the calls of other threads do not move |
| SharedQueueRefinement.ReachableExclusive | kapi/src/queue.rs:165-263 | in every reachable state two threads never access the same slot, no slot index is out of bounds, and a poller about to return holds the value posted at its position |
| SharedQueueRefinement.RejectionIsExact | kapi/src/queue.rs:192-221 | the load at which `post` decides to fail happens when exactly `capacity` values are in the queue |
| SharedQueueRefinement.EmptinessIsExact | kapi/src/queue.rs:270-277 | the load at which `poll` decides to answer `None` happens when the queue is empty |
| SharedQueueRefinement.PostEffect | kapi/src/queue.rs:141-221 | every step of `post` has the effect of a FIFO step; the value enters at the tail claim and nowhere else |
| SharedQueueRefinement.PollEffect | kapi/src/queue.rs:226-287 | every step of `poll` has the effect of a FIFO step; the oldest value leaves at the head claim and nowhere else |
| SharedQueueProofs.NextInv | kapi/src/queue.rs:141-287 | the invariant tying head, tail, all slot stamps and all in-flight accesses to one history of positions is kept by every step of every thread |
| SharedQueueProofs.ClaimIsExclusive | kapi/src/queue.rs:165-185 | two threads inside a slot are inside different slots |
| SharedQueueProofs.TailClaimFindsRoom | kapi/src/queue.rs:165-185 | when a tail claim succeeds the slot is empty and the queue is not full |
| SharedQueueProofs.HeadClaimFindsValue | kapi/src/queue.rs:239-263 | when a head claim succeeds the slot holds the value posted at that position |
| SharedQueueProofs.InitialInv | kapi/src/queue.rs:118-129 | initialised memory satisfies the invariant for any set of threads |
| SharedQueue.Initialize | kapi/src/queue.rs:118-129 | initialisation leaves head and tail zero and slot `i` with stamp `i`, for every slot |
| QueueStamps.StampIndex | kapi/src/queue.rs:75-88 | masking the stamp of a position with `one_lap - 1` gives the slot of the position, and it is below the capacity |
| QueueStamps.StampAdvance | kapi/src/queue.rs:151-163 | the stamp that the code computes for the next claim is the stamp of the next position, in the same lap or the next |
| QueueStamps.StampInjective | kapi/src/queue.rs:75-88 | different positions have different stamps, because a lap is longer than the capacity |
| QueueStamps.SameSlot | kapi/src/queue.rs:75-88 | two positions less than `capacity` apart never share a slot |
| Bits.NextPow2Least | kapi/src/queue.rs:84-86 | the length of a lap is the least power of two that is above the capacity |
| Addresses.ToPartsIsDivMod | kernel/src/memory/mod.rs:102-112 | the shift-and-mask parts of an address are the base-512 digits of its page number and its offset |
| Addresses.ToPartsRoundTrip | kernel/src/memory/mod.rs:102-112 | the six parts of a 64-bit address denote the address |
| Addresses.ComposeRoundTrip | kernel/src/memory/mod.rs:102-129 | taking an address made of valid parts apart gives the parts back |
| Addresses.FromPartsOfToParts | kernel/src/memory/mod.rs:114-129 | `from_parts` inverts `to_parts` exactly for addresses whose offset is at most 0x3ff; otherwise its assertion fails |
| Addresses.FromPartsFails | kernel/src/memory/mod.rs:114-129 | a concrete address that cannot be put together again |
| Addresses.ToPartsOfFromParts | kernel/src/memory/mod.rs:114-129 | `to_parts` inverts `from_parts` whenever `from_parts` does not fail |
| Addresses.AlignOffset | kernel/src/memory/mod.rs:159-163 | the result is below the alignment and makes the address a multiple of it |
| PhysicalMemory.PhysicalMemoryAllocator.AllocContig | kernel/src/memory/physical_memory_allocator.rs:137-179 | returns the lowest run of free pages and sets exactly those bits; fails only if no such run exists anywhere, and then changes nothing; the error value is exact |
| PhysicalMemory.PhysicalMemoryAllocator.TryAllocContig | kernel/src/memory/physical_memory_allocator.rs:184-228 | takes the free run at the first free page, up to the wanted length; it succeeds if and only if that run is long enough or a used page follows it |
| PhysicalMemory.EndOfMemoryRefused | kernel/src/memory/physical_memory_allocator.rs:206-219 | a concrete bitmap whose last two pages are free: a request for three is refused, and served when a used page follows them |
| PhysicalMemory.PhysicalMemoryAllocator.FreePages | kernel/src/memory/physical_memory_allocator.rs:124-131 | clears exactly the given bits; the warning is given exactly when one of them was clear |
| PhysicalMemory.FreeUndoesAlloc | kernel/src/memory/physical_memory_allocator.rs:124-179 | freeing what was allocated restores the bitmap |
| VirtualRanges.VirtualAddressAllocator.Alloc | kernel/src/memory/virtual_address_allocator.rs:103-123 | first fit: the returned range was free, exactly that range stops being free, blocks stay disjoint; fails only if every block is too small |
| VirtualRanges.VirtualAddressAllocator.Free | kernel/src/memory/virtual_address_allocator.rs:126-150 | for any range: exactly its addresses become free as well, whether it is merged or appended; the blocks stay disjoint if and only if none of them was free |
| VirtualRanges.VirtualAddressAllocator.Reserve | kernel/src/memory/virtual_address_allocator.rs:53-100 | for any start: the range is taken out of the free addresses exactly under the condition of `ReservedExact`; a refusal changes nothing and is exact on a sorted list |
| VirtualRanges.ReservedExact | kernel/src/memory/virtual_address_allocator.rs:64-97 | the cut that the code makes removes exactly the range if and only if the range is page aligned and does not start a larger block, or is empty and rounding up the rest of the block adds nothing |
| VirtualRanges.ReserveFrontFails | kernel/src/memory/virtual_address_allocator.rs:70-76 | a concrete reservation whose pages stay free, because the block is moved by bytes instead of pages |
| VirtualRanges.ReserveUnalignedFails | kernel/src/memory/virtual_address_allocator.rs:79-85 | a concrete reservation that is not page aligned and leaves a byte of its page free |
| PageTableEntries.TableDescDecodes | kernel/src/memory/paging.rs:44-127 | a table descriptor decodes to its table and never to a mapping |
| PageTableEntries.BlockAlignmentExact | kernel/src/memory/paging.rs:55-75 | an accepted block is translated by the hardware to base plus offset exactly when its base is aligned to the whole block |
| PageTableEntries.BlockAlignmentFails | kernel/src/memory/paging.rs:55-75 | bases that pass the alignment test and are translated wrongly |
| PageTableTree.SetEntryLeaf | kernel/src/memory/paging.rs:381-469 | writing a leaf at the entry where the walk of a page ends changes the leaf of exactly the pages under that entry |
| PageTableTree.AddTableLeaf | kernel/src/memory/paging.rs:368-377 | linking an empty table below an invalid entry changes no leaf |
| PageTable.PageTable.Empty | kernel/src/memory/paging.rs:296-310 | a new table maps nothing |
| PageTable.Create | kernel/src/memory/paging.rs:296-310 | a new table takes one free page for its root, maps nothing, and fails if and only if no page is free |
| PageTable.PageTable.MapRange | kernel/src/memory/paging.rs:381-469 | on success every page of the range maps to its frame with the options, by leaves inside the range, every other page keeps its leaf, and only new table pages were taken from memory, for tables that cover pages of the range; it runs out of memory only when every page is in use and a table is missing, and then a prefix is mapped; the call panics only at a page under a block; both argument errors are exact |
| PageTable.PageTable.MapNext | kernel/src/memory/paging.rs:403-467 | one round maps at least one further page of the range and keeps what was mapped, or fails without mapping; it panics only at a page under a block |
| PageTable.PageTable.AddTable | kernel/src/memory/paging.rs:368-377 | a table page is taken from free memory and linked without changing any leaf |
| PageTable.PageTable.UnmapRange | kernel/src/memory/paging.rs:482-524 | on a range tiled by leaves the reported regions tile it, agree with the translation, and exactly the range ends up unmapped; on any range nothing gets mapped |
| PageTable.PageTable.UnmapNext | kernel/src/memory/paging.rs:488-523 | one round clears the leaf of the next page and reports its region |
| PageTableIter.AllRegionsExact | kernel/src/memory/paging.rs:688-809 | the iteration order is strictly increasing and without overlap, and a page lies in one of its regions exactly when that region is the leaf of the page |
| PageTableIter.PageTableIter.StartingAt | kernel/src/memory/paging.rs:697-712 | the iterator starts with exactly the regions that end after the page the indices spell |
| PageTableIter.PageTableIter.Next | kernel/src/memory/paging.rs:781-809 | gives the next region in order and leaves the rest, or `None` exactly when nothing is left |
| PageTableIter.Collect | kernel/src/memory/paging.rs:654-656 | iterating to the end terminates and yields every leaf once, in order |
| MappedCopy.MappedCopyFrom | kernel/src/memory/paging.rs:571-651 | succeeds exactly when the walk over the regions does, and then the destination holds the bytes that the translation designates; an error names the last address before the gap and the number of bytes not copied |
| MappedCopy.CopyRest | kernel/src/memory/paging.rs:616-650 | the regions behind the first are copied while they adjoin, and verdict and error data are those of the walk |
| MappedCopy.CopyVerdict | kernel/src/memory/paging.rs:571-651 | success in terms of the translation: a leaf starts at the source page, all source bytes are mapped, and a further leaf starts at or beyond their end |
| MappedCopy.LastPageRefused | kernel/src/memory/paging.rs:616-650 | a page table with one mapped page from which that page cannot be copied, and can once another page is mapped behind it |
| ProcessMemory.Process.AllocMemory | kernel/src/process/mod.rs:211-258 | under any fragmentation: the virtual range was free, its pages map to distinct frames that were free, nothing else changes but table pages, every allocation still live is kept and the new one joins them; it fails if no block of addresses is large enough, which changes nothing, or if pages run out, for which fewer pages must be free than the range may need for frames and tables; then the range stays reserved and the frames taken are lost; in every case free pages are conserved |
| ProcessMemory.Process.FreeMemory | kernel/src/process/mod.rs:265-274 | the range becomes free and unmapped, exactly its frames are given back, and every live allocation that it does not touch stays live |
| PageTable.TiledExtends | kernel/src/memory/paging.rs:381-524 | mapping any frames with any options behind a tiled range tiles the longer range, so unmapping adjacent runs is exact |
| MappedRuns.MapRuns | kernel/src/memory/paging.rs:381-469 | any list of adjacent runs, with any frames and options each: the pages map as listed, exactly they change, and their leaves tile the range; if memory runs out, a prefix of the list is mapped |
| MappedRuns.MapThenUnmap | kernel/src/memory/paging.rs:381-524 | mapping adjacent runs and unmapping the whole range reports regions that tile it and carry the mapped frames, and every page has the leaf it had |
| TableCounts.NewTablesBound | kernel/src/memory/paging.rs:403-467 | mapping a range takes at most one new table at each level for every aligned block of pages that the range touches, and fewer while a table is missing |
| TableCounts.TablesNeededBound | kernel/src/memory/paging.rs:403-467 | these are at most one for 512 pages, one for 512 squared and one for 512 cubed, plus six, and never more than three for a page |
| ProcessMemory.FreeAllocated | kernel/src/process/mod.rs:265-274 | freeing a live allocation, whatever was allocated or freed since it was made, gives back exactly its frames and addresses, unmaps exactly its pages, and leaves every other allocation live |
| ProcessMemory.AllocThenFree | kernel/src/process/mod.rs:211-274 | allocating and freeing restores the free addresses and the translation, and the bitmap except for pages that became tables |
| ProcessMemory.Serve | kernel/src/process/mod.rs:211-274 | over any sequence of allocations and releases: what was live stays live, the blocks handed out are live with pages and frames of their own, and a page is in use if and only if others use it, it is a frame of a live allocation, it holds a table, or a failed allocation lost it; each page belongs to one of these only, and nothing is lost if no allocation failed |
| ProcessMemory.NewProcess | kernel/src/process/spawn.rs:106-112 | a new process owns one table page and the whole lower half behind its first page, satisfies the invariant of all the operations, and is refused if and only if no page is free |
| LiveMemory.LiveGrows | kernel/src/process/mod.rs:235-256 | a new allocation shares no page and no frame with a live one, and every live one keeps its translation, its frames and its addresses |
| LiveMemory.LiveShrinks | kernel/src/process/mod.rs:265-274 | allocations that a freed range does not touch keep their translation, their frames and their addresses |
| LiveMemory.OthersRemain | kernel/src/process/mod.rs:265-274 | freeing a live allocation touches no other one |
| LiveMemory.AccountAlloc | kernel/src/process/mod.rs:235-256 | the pages that an allocation takes are accounted for as frames or tables |
| LiveMemory.AccountFree | kernel/src/process/mod.rs:265-274 | freeing takes the frames of the allocation, and nothing else, out of the account |
| PageCounts.PagesConserved | kernel/src/process/mod.rs:235-256 | pages that were free before an allocation are still free, or are one of its frames, or hold a new table |
| PageCounts.RefusedCount | kernel/src/memory/physical_memory_allocator.rs:206-219 | an allocation refused by `try_alloc_contig` found fewer free pages than the range may need for frames and tables |
| PageCounts.FullCount | kernel/src/memory/paging.rs:368-377 | an allocation that finds no page for a table also found fewer free pages than the range may need for frames and tables |
| Heap.KernelHeap.constructor | kernel/src/memory/heap.rs:109-119 | the initial pages form one free block and the heap invariant holds |
| Heap.KernelHeap.RemoveCurrent | kernel/src/memory/heap.rs:146-185 | unlinking in place keeps head, tail and all links consistent, takes exactly that block out, and changes no word of a used block |
| Heap.KernelHeap.InsertBeforeCurrent | kernel/src/memory/heap.rs:215-276 | linking in place keeps the list consistent and sorted, adds exactly that block, and changes no word of another used block |
| Heap.KernelHeap.ExtendCurrent | kernel/src/memory/heap.rs:278-285 | the block grows by its neighbour and the list stays consistent |
| Heap.KernelHeap.AddFreeBlock | kernel/src/memory/heap.rs:364-395 | exactly the block becomes free, the tiling and the sorted list are kept, and the block is merged exactly when a free block adjoins it |
| Heap.KernelHeap.FindSuitable | kernel/src/memory/heap.rs:336-362 | takes the first block that is large enough; `None` exactly when none is |
| Heap.KernelHeap.Grow | kernel/src/memory/heap.rs:397-423 | the heap grows by the computed pages, the new pages are free, and no used word changes; the exact condition under which the address space is exhausted |
| Heap.KernelHeap.Carve | kernel/src/memory/heap.rs:457-501 | what is left over goes back to the free list, the pointer is the first aligned one behind the header, data and header lie in the block, and the header is written |
| Heap.KernelHeap.SplitOff | kernel/src/memory/heap.rs:472-482 | the rest of a block goes back to the free list exactly when it is larger than a header, and the other used blocks keep their words |
| Heap.KernelHeap.Alloc | kernel/src/memory/heap.rs:451-507 | free and used blocks keep tiling the heap, the new data is aligned and in a block of its own, no word of another allocation changes; the first suitable block is used without growth, the heap has grown exactly as often as reported, and for alignments up to the initial heap size at most two growths happen and two always suffice |
| Heap.KernelHeap.Dealloc | kernel/src/memory/heap.rs:509-536 | the exact block is recovered from the header and becomes free, and every other allocation is kept |
| Heap.KernelHeap.Store | kernel/src/memory/heap.rs:86-92 | a client write of a word inside its data keeps the whole heap invariant |
| Heap.RecoverBlock | kernel/src/memory/heap.rs:517-521 | the block read back from the header is the allocated one exactly when the padding is below 256 |
| Heap.HeaderRoundTrip | kernel/src/memory/heap.rs:25-44 | the packed size always comes back, the packed padding exactly when it is below 256 |
| Heap.HeaderLosesPadding | kernel/src/memory/heap.rs:25-44 | a concrete padding that does not come back |
| Heap.WideAlignmentLosesBlock | kernel/src/memory/heap.rs:451-507 | in a new heap an allocation with alignment 512 gets padding 504, and the block read back from its header is another one |
| Heap.TakenFits | kernel/src/memory/heap.rs:457-472 | the size taken from a suitable block never exceeds it, holds header, padding and data, and keeps blocks 8-aligned |
| Heap.PaddingFacts | kernel/src/memory/heap.rs:457-460 | the padding is a multiple of eight and at most 248 for alignments up to 256 |
| Heap.DataApart | kernel/src/memory/heap.rs:451-537 | data of different allocations never overlaps, nor does it overlap a free block |
| Heap.FreeSpaceDetermined | kernel/src/memory/heap.rs:451-537 | the used blocks determine the free addresses, so returning an allocation restores them |
| Heap.AmpleAfterGrowth | kernel/src/memory/heap.rs:397-423 | after one growth the next growth is large enough for the request |
| HeapBlocks.SplitTiling | kernel/src/memory/heap.rs:472-479 | cutting a block keeps the tiling |
| HeapBlocks.MergeTiling | kernel/src/memory/heap.rs:369-382 | joining adjacent blocks keeps the tiling |
| HeapList.UnlinkedIsLinked | kernel/src/memory/heap.rs:146-185 | the pointer writes of a removal spell the list without the block, in both directions |
| HeapList.InsertedIsLinked | kernel/src/memory/heap.rs:215-276 | the pointer writes of an insertion spell the list with the block, in both directions |
| RwLockProofs.RunExclusive | kernel/src/tasks/locks.rs:285-331 | in every run of `read`, `write`, `try_write` and drops of guards by any number of tasks, a write guard never coexists with another guard, every permit is free or held exactly once, and the reader count is the number of readers |
| RwLockProofs.UnlostExclusive | kernel/src/tasks/locks.rs:285-381 | the same for runs with `try_read` and cancelled futures, as long as no call gave up after raising the reader count |
| RwLockProofs.StepInv | kernel/src/tasks/locks.rs:63-381 | every atomic step of every task, failing calls and cancellations included, keeps the invariant |
| RwLockProofs.MutexExcludes | kernel/src/tasks/locks.rs:195-252 | the mutex around the reader count has at most one holder |
| RwLockProofs.RunNoUnderflow | kernel/src/tasks/locks.rs:351-359 | the decrement in the drop of a read guard never underflows, in any run |
| RwLockProofs.TryReadFailsIff | kernel/src/tasks/locks.rs:334-341 | a first reader fails in `try_read` exactly when some task holds the write guard |
| RwLockProofs.FailedTryReadBreaksExclusion | kernel/src/tasks/locks.rs:334-341 | after every such failure any idle task can get a read guard beside the write guard |
| RwLockProofs.TryReadCounterexample | kernel/src/tasks/locks.rs:334-341 | a concrete run of three tasks that ends with a reader beside a writer |
| RwLockProofs.CancelledReadBreaksExclusion | kernel/src/tasks/locks.rs:285-307 | after any first reader is cancelled, whether a writer holds the lock or not, a task can get a read guard beside a write guard |
| BlockAddresses.ComposeOfDecompose | kernel/src/storage/block_cache.rs:117-148 | composing tag and id of an address and adding its block offset gives the address back |
| BlockAddresses.DecomposeOfCompose | kernel/src/storage/block_cache.rs:117-148 | decomposing a composed address gives the parts back, or fails by the block offset alone |
| BlockAddresses.DecomposeTotal | kernel/src/storage/block_cache.rs:134-139 | the assertions hold for every address if and only if a block has at least 64 bytes |
| BlockAddresses.DecomposeFails | kernel/src/storage/block_cache.rs:134-139 | a concrete address that fails the assertion |
| BlockCache.BlockCache.constructor | kernel/src/storage/block_cache.rs:62-105 | a new cache has no chunk loaded and shows the disk |
| BlockCache.BlockCache.LoadChunk | kernel/src/storage/block_cache.rs:155-187 | after success the chunk is cached; what a client sees changes only where a clean chunk that differs from the disk is evicted, so not at all from a coherent cache; failures change neither buffer nor view |
| BlockCache.BlockCache.CopyBytes | kernel/src/storage/block_cache.rs:210-244 | loads the chunk, returns the bytes that a client sees, changes nothing that is seen through a coherent cache, and fails by its assertion exactly on the misjudged block offsets |
| BlockCache.BlockCache.WriteBytes | kernel/src/storage/block_cache.rs:247-280 | the chunk is loaded and the bytes are put in its slot; the write is seen and nothing else changes; the cache stays coherent if and only if the chunk was absent or dirty, or the bytes were there already |
| BlockCache.SeenAfterExact | kernel/src/storage/block_cache.rs:162-185 | eviction leaves the view unchanged if and only if the chunk was dirty or as on the disk |
| BlockCache.ServeAll | kernel/src/storage/block_cache.rs:210-280 | over any sequence of accesses and store failures with coherent writes, reads equal reads of a plain disk with the successful writes applied |
| BlockCache.LostWrite | kernel/src/storage/block_cache.rs:162-185 | a concrete sequence of calls on a new cache of one slot over a disk of two pages: a byte is set to 1 and read as 1, and after a byte of the other page is read it is read as 0 |
| CompletionRing.CompletionQueue.constructor | kernel/src/storage/nvme/queue.rs:396-420 | zeroed memory holds no completion |
| CompletionRing.CompletionQueue.Pop | kernel/src/storage/nvme/queue.rs:493-541 | returns the oldest completion that was not returned yet, each once and in posting order, and `None` exactly when none is outstanding; updates the submission head and the doorbell |
| CompletionRing.RingPopped | kernel/src/storage/nvme/queue.rs:523-528 | after a pop, also across the end of the ring, exactly the remaining entries have the expected phase |
| PendingCompletions.RunResolves | kernel/src/storage/nvme/interrupt.rs:27-119 | in every run in which no command stays unresolved across 65536 later submissions and no future is dropped unresolved, the handler does not panic, every future resolves at most once and with its own completion, and no completion is lost |
| PendingCompletions.UnreusedDelivers | kernel/src/storage/nvme/interrupt.rs:27-119 | the same for every run that reuses no id of an unresolved future |
| PendingCompletions.WindowedUnreused | kernel/src/storage/nvme/interrupt.rs:65-76 | over every run, an id of an unresolved future is given out or a future is dropped unresolved if and only if the run leaves the window of 65536 submissions |
| NvmeCompletions.Serve | kernel/src/storage/nvme/interrupt.rs:27-119 | ring and table together: over any run in the window in which the device does not overrun the ring, popping the phase-tag ring delivers every completion to its own future and the handler does not panic |
| NvmeCompletions.CompletionPath.HandleInterrupt | kernel/src/storage/nvme/interrupt.rs:88-119 | the completion popped from the ring is the one that the table receives, and the handler panics only after a reuse |
| NvmeCompletions.CompletionPath.PollFuture | kernel/src/storage/nvme/interrupt.rs:27-48 | a future resolves if and only if its own completion has arrived, and with that one |
| NvmeCompletions.CompletionPath.WaitForCompletion | kernel/src/storage/nvme/interrupt.rs:65-76 | the id that is given out is the next one, modulo 65536 |
| PendingCompletions.NextInv | kernel/src/storage/nvme/interrupt.rs:27-119 | every submission, answer, interrupt and poll keeps the invariant of the pending table |
| PendingCompletions.WindowIsUnique | kernel/src/storage/nvme/interrupt.rs:65-76 | ids are not reused while no future stays unresolved across 65536 later submissions |
| PendingCompletions.ReuseIff | kernel/src/storage/nvme/interrupt.rs:65-76 | a submission reuses an id exactly when an unresolved future has it |
| CommandReuse.ReusePanics | kernel/src/storage/nvme/interrupt.rs:101-114 | the next submission can be brought to a panic of the handler, by answers, interrupts and polls alone, if and only if an unresolved future has its id |
| CommandReuse.ReuseHappens | kernel/src/storage/nvme/interrupt.rs:65-114 | a run from the initial state in which that happens exists |
| CommandReuse.AbandonMisleads | kernel/src/storage/nvme/interrupt.rs:27-48 | for every future that is dropped unresolved, the next future that gets its id can resolve with the completion of the dropped one |
| CommandReuse.AbandonInsideWindow | kernel/src/storage/nvme/interrupt.rs:27-76 | if the dropped future is the oldest unresolved one, that run stays inside the window of 65536 submissions |
| CommandReuse.AbandonHappens | kernel/src/storage/nvme/interrupt.rs:27-76 | a run from the initial state inside the window in which the 65537th future resolves with the answer to the first |
| DeviceTree.AllItems | kernel/src/ds/dtb.rs:264-343 | for every encoded tree, with no-op tokens anywhere, iteration yields exactly the preorder items with names, data and interpretation, and then ends |
| DeviceTree.EncodingExists | kernel/src/ds/dtb.rs:264-343 | every tree whose property names fit in a strings block with 32-bit offsets has such an encoding, with any number of no-op tokens in front of each item |
| DeviceTree.Cursor.Next | kernel/src/ds/dtb.rs:285-343 | yields the next item and stands at the next piece, or `None` at the end token |
| DeviceTree.ItemsDetermineTree | kernel/src/ds/dtb.rs:130-146 | trees with the same items are the same tree, so nothing of the tree is lost |
| DeviceTree.InterpretExact | kernel/src/ds/dtb.rs:319-331 | every property has exactly one standard interpretation in terms of the bytes that encode it, and it is the one computed |
| DeviceTree.Cursor.ReadProperty | kernel/src/ds/dtb.rs:303-337 | length, name and data are read back, and the cursor skips the padding |
| DeviceTree.Cursor.ReadName | kernel/src/ds/dtb.rs:291-301 | the name is read back up to its zero, and the cursor skips the padding |
| DeviceTree.PadEnd | kernel/src/ds/dtb.rs:273-280 | the least multiple of four that is not smaller |
| Paths.Components.Next | kernel/src/registry/path.rs:49-66 | gives the first component and leaves the text behind it |
| Paths.Components.NextBack | kernel/src/registry/path.rs:70-93 | gives the last component and leaves the others, on a text without doubled separators; once the front has moved and a separator is at the end, it gives an empty name and does not move |
| Paths.Forward | kernel/src/registry/path.rs:49-66 | iteration from the front terminates with the components of the path |
| Paths.Backward | kernel/src/registry/path.rs:70-93 | iteration from the back is the reverse of iteration from the front if and only if the path has no doubled separators |
| Paths.DoubledSeparator | kernel/src/registry/path.rs:49-66 | a concrete path with a doubled separator, whose components have a root in the middle |
| Paths.FrontMoved | kernel/src/registry/path.rs:70-93 | a concrete path from which `next` and then `next_back` gives an empty name |
| Registry.Registry.Register | kernel/src/registry/mod.rs:125-143 | a failure leaves the tree unchanged, and a success adds one path that no registered path extends or is extended by; without doubled separators invalid paths are exact, and a plain path is registered if and only if no registered path is a prefix or an extension of it |
| Registry.Registry.FindHandler | kernel/src/registry/mod.rs:145-155 | a handler is found exactly when the path extends a registered path, and it is that handler with exactly the remaining components |
| Registry.RegisteredPrefixFree | kernel/src/registry/mod.rs:57-110 | registered paths are prefix-free over every run |
| Registry.FailedAddKeeps | kernel/src/registry/mod.rs:63-89 | a failing `add` leaves the tree as it was although it creates directories on the way |
| Registry.AddedExactly | kernel/src/registry/mod.rs:63-89 | after a successful `add` the new path has the handler and every other path what it had |
| Registry.AddedIff | kernel/src/registry/mod.rs:63-89 | `add` succeeds exactly for paths that are not comparable with a registered one |
| Registry.FindsExtension | kernel/src/registry/mod.rs:91-109 | looking up an extension gives the handler and the rest |
| Registry.FoundIsRegistered | kernel/src/registry/mod.rs:91-109 | what is found is registered under a prefix of the path |
| Scheduler.ThreadScheduler.ScheduleNext | kernel/src/process/thread/scheduler.rs:44-68 | succeeds exactly when the first queue with threads has a ready one; then it serves the first ready thread from its place on, moves it to the back of the turns, and looks next behind it |
| Scheduler.ThreadScheduler.ServeQueue | kernel/src/process/thread/scheduler.rs:49-64 | the skip loop ends at the next ready thread with skips left, and underflows exactly when no thread is ready |
| Scheduler.ScheduleMany | kernel/src/process/thread/scheduler.rs:44-68 | any number of calls up to the number of ready threads serves that many turns in order, and after a full round the order is the same again |
| Scheduler.ScheduleVarying | kernel/src/process/thread/scheduler.rs:44-68 | bounded waiting: a thread of that queue that stays ready is served within as many calls as the queue has threads, whatever happens to the other threads between the calls |
| Scheduler.TurnsExact | kernel/src/process/thread/scheduler.rs:44-68 | the turns are exactly the ready threads of the queue, each as often as it is queued |
| Scheduler.TurnsEmpty | kernel/src/process/thread/scheduler.rs:44-68 | a queue has no turns exactly when none of its threads is ready |
| Scheduler.FallThroughIff | kernel/src/process/thread/scheduler.rs:11-16 | a thread is scheduled exactly when only empty queues come before the queue of a ready thread |
| Scheduler.FallThroughFails | kernel/src/process/thread/scheduler.rs:11-16 | a concrete state where a waiting thread keeps the ready idle thread from being scheduled |
| Scheduler.ThreadScheduler.AddThread | kernel/src/process/thread/scheduler.rs:76-78 | the thread is appended to the queue of its priority, and nothing else changes |
| Scheduler.ThreadScheduler.RemoveThread | kernel/src/process/thread/scheduler.rs:83-91 | exactly the thread leaves its queue; when it was current, the next turn of what is left is scheduled |
| Scheduler.RemovedEverywhere | kernel/src/process/thread/scheduler.rs:83-91 | a removed thread is in no queue and all others stay |

## Left out

- Memory orderings weaker than sequential consistency, the backoff, and the wrap-around of 64-bit lap counters in the queue.
- Wake-ups of waiting tasks: a waiting task may look again at any time, so only safety is claimed for the locks.
- `alloc_memory` with `share_with_kernel`, and the shared state of the kernel page table.
- `physical_address_of`, dropping a page table, TLB maintenance and activation.
- AllocContig: requests for zero pages are not modelled, because no caller makes one.
- MapRange: ranges that run past the end of the address half or of the 36-bit frame number are not modelled; there the index arithmetic wraps into other pages.
- UnmapRange: for ranges with holes or with leaves that stick out only that nothing gets mapped is stated, because the code steps by whole block sizes there.
- FreeMemory: ranges that are not tiled by leaves are left out, because the code steps by whole block sizes there; every live allocation is tiled.
- AllocMemory: when pages run out is bounded from both sides, by the pages that were taken and by those that the range may need; the exact number depends on the tables that exist already.
- Reserve: that a refusal is exact is stated for sorted lists only, because the loop stops at the first block beyond the range.
- Dealloc: only for pointers whose padding is below 256, which every alignment up to 256 gives; `RecoverBlock` states that the block is not found again otherwise.
- Store: writes are whole aligned words, because memory is modelled as words.
- Grow: the contents of new pages are arbitrary, and physical memory is granted by the environment through a count of growths.
- The uninitialised state of the heap and the bootstrapping of the page tables from the heap's own pages.
- CopyBytes: accesses that cross a chunk, for which the code loads only the first chunk; reads and writes larger than the cache; concurrent loads.
- WriteBytes: as for CopyBytes.
- Block sizes of a page or more in the block cache, stores that are not whole pages, and stores that fail after transferring part of a chunk.
- Post: the device is the environment; it does not overrun the ring and names a submission queue of the ring.
- The submission queue, PRP lists, doorbell registers, controller bring-up and lost edge interrupts of NVMe.
- UTF-8 validity of names in the device tree, its header, reserved memory regions and string lists.
- Register: which path is added is not stated for paths with doubled separators, because backward iteration is not the reverse of forward iteration on them; a path with `.` or `..` may panic.
- ScheduleNext: which threads are ready is given for each call; saving and restoring register state is not modelled.
- Lists, sharded maps, physical buffers, loading the segments of a new process, ELF loading, command dispatch, the executor, the FAT driver, PCIe, interrupts, timers and the UART: plumbing or device access.
