# Verified model of the carpincho operating system

The repository simulates an operating system with three processes: a kernel that
schedules clients and resolves deadlocks, a memory module with paging, a TLB and
an allocator, and a swap store. This project models what those processes do to
their data and proves what they promise about it.

## Reading order

**Memory.** `Bytes`, `Arith` and `Ram` are bytes, division and the frames of main
memory. `Tlb` and `FrameTable` (with `Policies` for LRU and the enhanced clock)
are the structures the memory module updates in place; `Queues` has the order of last
uses that both caches go by. `VirtualMemory` is its
state as one value with the invariant that ties page tables, frame table, TLB and
swap together; `AddressSpace` says what a process sees of it, one flat sequence of
bytes, and `PageLifecycle` what happens when pages and processes come and go.
`Paging` is the imperative memory management unit, and `PageUse` says which page LRU
takes out; `Petitions` the handlers that
read, write, suspend and end, in terms of flat address spaces only. `HeapHeader`,
`HeapList` and `HeapBytes` are the allocator's nine-byte headers, the list of
blocks and how the list lies in an address space; `Allocator` allocates and frees
by reading and writing headers through the pages. `MemoryRuns` puts everything
together: any run of any clients against a description without frames, page tables,
TLB, slots or policies, in which it is settled when an allocation fails.

**Swap.** `SwapModel` is a store of slots and the map of pages it stands for,
`SwapChunks` the invariant of fixed assignment. `SwapTargets` has the searches as
functions of any store, in order or not; `SwapShelf` how full the files are, which
alone decides whether a save succeeds; `SwapRequests` what each request does to both.
`SwapStore` is the files and the three requests as methods.

**Deadlocks.** `Matrices` defines deadlock by orders of completion, `WaitGraph` is
graph theory, `WaitFor` connects both. `Reduction`, `CircularWait`, `Kills` and
`Rounds` are about the resolver's passes, search, kills and rounds; `SemBooks` and
`MutexUnits` about the detector's books. `DeadlockResolver` is the imperative
detector and its semaphores.

**Scheduling.** `Scheduler` has the steps of all threads as functions, and theorems
over any interleaving, `Orders` says in what order they serve processes; `Kernel.dfy`
has the same steps as methods of a class.

## What is assumed

- One handler, or one step of a thread, is atomic.
- Clients connect before anything else and once, free only pointers they hold, write
  only inside their payloads, have at least one page before they read or write, and
  ask only to suspend or end once their first page found no room
  (`MemoryRuns.Legal`). Addresses and sizes are unbounded naturals, kept below 2^32
  where a header stores them.
- Pages are larger than a header. LRU chooses among at least two frames, the clock
  among at least one.
- Under fixed assignment a request that brings pages to memory comes only while its
  process may own a block of frames or one is left (`MemoryRuns.BlockLeft`), the chunk
  size divides the number of slots of a swap file, and pids are not reused; pid 0,
  which blank slots are labelled with, is not used.
- The resolver is exact under single requests and single holders
  (`WaitFor.Disciplined`), which mutexes give; where it is not, what still holds is
  stated.

The folding predicates `Unfold`, `Inspect`, `Look`, `LookInside`, `Watch` and `AnyPid` are always
true. A definition quantified over one of them stays folded in proofs that do not mention it.

Where the code and its comments differ the model follows the code: the memory
module refuses a read or write that ends with the last byte of an address space, and
ending a process does not release its block of frames.

## Model

| member | source | states |
|---|---|---|
| `MemoryRuns.Run` | memory/src/petitionHandlers.c:72-158 | Over any number of requests by any well-behaved clients, under either replacement policy and either assignment, every request is answered, and the replies are those of a world that knows only address spaces, heaps and how full swap is; processes whose first page found no room stay in that world until they end |
| `MemoryRuns.ReadsWhatWasWritten` | memory/src/petitionHandlers.c:455-509 | What a process wrote into a payload it reads back, after any requests of any processes that neither free the block nor write over it |
| `MemoryRuns.RunKeepsPayload` | memory/src/petitionHandlers.c:72-158 | Over any stretch of a run, bytes of a payload nobody frees or overwrites stay the same, and the block stays in use |
| `MemoryRuns.StepKeepsPayload` | memory/src/petitionHandlers.c:200-509 | One request of any process keeps the bytes of every payload it does not free or write |
| `MemoryRuns.BehavesAlong` | memory/src/petitionHandlers.c:200-509 | Heaps lie well formed in their address spaces in every world of a run |
| `MemoryRuns.Serve` | memory/src/petitionHandlers.c:611-625 | Each handler gives a reply its description allows and leaves the server standing for the world after it; whether an allocation fails is settled by the heap and by how full swap is |
| `MemoryRuns.RefusedIffFull` | memory/src/petitionHandlers.c:239-337 | In a heap that is not empty an allocation fails if and only if no block fits and the pages it needs behind the last block exceed the chunk of the process, or the free slots of its file |
| `MemoryRuns.FirstRefusedIffFull` | memory/src/petitionHandlers.c:214-337 | The first allocation fails if and only if no file takes a new process, or the pages needed after the first one find no room |
| `MemoryRuns.FreeingUndoes` | memory/src/petitionHandlers.c:200-453 | Freeing what was just allocated, through the handlers, gives back heap, number of pages and room in swap |
| `MemoryRuns.PointerIsUsable` | memory/src/petitionHandlers.c:200-509 | A pointer that was returned may be freed, and the bytes asked for may be written and read there |
| `MemoryRuns.HoldersLeaveRoom` | memory/src/memory.c:174-205 | While fewer processes than there are blocks may own one, another process gets a block |
| `MemoryRuns.Boot` | memory/src/memory.c:91-127 | A server just started stands for a world without processes, for every configuration with frames enough |
| `HeapList.AllocKeepsWf` | memory/src/petitionHandlers.c:253-347 | Allocating keeps the list well formed: starts at 0, addresses a header apart, last block free, no two free neighbours; for exact fit, split and extension |
| `HeapList.AllocAddsOne` | memory/src/petitionHandlers.c:239-347 | Allocating adds one payload of at least the size asked for and takes none away; first fit, the last block only when no other fits |
| `HeapList.PointerIsNewPayload` | memory/src/petitionHandlers.c:253-351 | The pointer is behind the header of a payload that was not in use before, as long as asked for and at most a header longer |
| `HeapList.FreeKeepsWf` | memory/src/petitionHandlers.c:383-439 | Freeing keeps the list well formed whether it joins the left neighbour, the right one, both or none |
| `HeapList.FreeTakesOne` | memory/src/petitionHandlers.c:383-439 | Freeing takes away one payload in use and no other |
| `HeapList.Canonical` | memory/src/petitionHandlers.c:383-439 | Well-formed heaps with the same payloads in use are the same list, whatever was allocated and freed on the way |
| `HeapList.FreeUndoesAlloc` | memory/src/petitionHandlers.c:239-439 | Allocating any size and freeing the pointer gives the list back |
| `HeapList.LiveApart` | memory/src/petitionHandlers.c:253-347 | Payloads in use are disjoint from each other and from every header |
| `HeapHeader.HeaderRoundTrip` | memory/src/petitionHandlers.c:227-233 | A header written as nine bytes is read back, for all 32-bit addresses |
| `HeapBytes.HeapUnique` | memory/src/petitionHandlers.c:239-251 | The bytes of an address space determine the list of blocks in it |
| `HeapBytes.TightIsQuotient` | memory/src/petitionHandlers.c:47-63 | The address space ends with the page of the last header if and only if pageQuantity - 1 equals (last header + 9) / pageSize |
| `HeapBytes.AppendPages` | memory/src/petitionHandlers.c:296-322 | The pages an extension adds, rounded up, are exactly those up to the page the new last header ends on |
| `HeapBytes.ExactLies` | memory/src/petitionHandlers.c:260-270 | After the write of an exact fit the bytes show the new list, and no byte of a payload in use has changed |
| `HeapBytes.SplitLies` | memory/src/petitionHandlers.c:271-293 | After the three writes of a split, headers straddling pages or not, the bytes show the new list and no payload in use has changed |
| `HeapBytes.AppendLies` | memory/src/petitionHandlers.c:302-347 | After the two writes of an extension the bytes show the new list and no payload in use has changed |
| `HeapBytes.InnerLies` | memory/src/petitionHandlers.c:388-439 | After a free with a block behind it the bytes show the joined list, next and prev inverse to each other, and no other payload has changed |
| `HeapBytes.OuterLies` | memory/src/petitionHandlers.c:397-433 | After a free at the end and the trimming of pages the bytes show the joined list and no other payload has changed |
| `HeapBytes.FreeUndoesAllocPages` | memory/src/petitionHandlers.c:296-433 | Freeing what was just allocated gives back an address space of the same length |
| `HeapBytes.PayloadWriteKeepsHeap` | memory/src/petitionHandlers.c:483-509 | A write inside a payload leaves the list of blocks as it is |
| `Allocator.FindAlloc` | memory/src/petitionHandlers.c:236-251 | The walk ends, at the lowest free block that fits or else at the last one |
| `Allocator.UseFree` | memory/src/petitionHandlers.c:253-293 | Allocation in a free block: new list in the bytes, other payloads untouched, other processes unchanged |
| `Allocator.UseLast` | memory/src/petitionHandlers.c:295-347 | Allocation at the end: fails if and only if swap has no room for the pages needed, and then changes nothing; otherwise the new list in the bytes, and a tight page count |
| `Allocator.AllocIn` | memory/src/petitionHandlers.c:239-357 | In a heap that is not empty a reply of 0 means that no block fits, and is given if and only if swap lacks room for the pages needed; any other reply points behind the header of a payload that was not in use before, has the size asked for and at most a header more |
| `Allocator.MemAlloc` | memory/src/petitionHandlers.c:200-357 | First fit; the reply is 0 if and only if swap has no room for the first page or for the pages behind the last block, so never while a block fits, and otherwise points to a payload of its own; a failure on a heap that is not empty changes nothing, one without a first page makes the process an orphan |
| `Allocator.MemFree` | memory/src/petitionHandlers.c:359-453 | Frees the block pointed to and joins its neighbours; refuses if and only if the address is outside the address space, as every address is for a process without pages; other payloads and processes untouched |
| `Allocator.Join` | memory/src/petitionHandlers.c:383-408 | Both neighbours are absorbed if and only if they are free |
| `Allocator.FirstBlock` | memory/src/petitionHandlers.c:214-234 | The first page holds the header of an empty heap; it fails if and only if no file of swap takes a new process |
| `Petitions.Server.HeapRead` | memory/src/petitionHandlers.c:72-117 | Returns exactly the stretch of the flat address space, across pages, and changes no address space |
| `Petitions.Server.HeapWrite` | memory/src/petitionHandlers.c:119-158 | Writes exactly the stretch of one flat address space, across pages, and nothing else |
| `Petitions.StretchSpans` | memory/src/petitionHandlers.c:72-82 | First and last page and offset of a stretch, with C division, also for stretches of no bytes |
| `Petitions.Server.MemRead` | memory/src/petitionHandlers.c:455-481 | Replies with the stretch, or refuses it if and only if it reaches the last byte of the address space |
| `Petitions.Server.MemWrite` | memory/src/petitionHandlers.c:483-509 | Writes the stretch, or refuses it if and only if it reaches the last byte of the address space |
| `Petitions.Server.Suspend` | memory/src/petitionHandlers.c:511-540 | No address space changes; the blocks of the process become available |
| `Petitions.Server.CapiTerm` | memory/src/petitionHandlers.c:542-580 | The address space of the process goes and its room in swap is given back, every other one stays, and its block stays taken; also after a failed first page |
| `Petitions.Server.CapiId` | memory/src/petitionHandlers.c:588-609 | A process starts with an empty address space, other ones unchanged |
| `Petitions.Server.DropPages` | memory/src/petitionHandlers.c:417-433 | Trimming keeps the bytes before the first dropped page and every other address space |
| `Petitions.Server.Grow` | memory/src/petitionHandlers.c:321-337 | Adds blank pages at the end if swap has room for all of them, and otherwise changes no address space |
| `Petitions.Server.FirstPage` | memory/src/petitionHandlers.c:214-226 | A first page if and only if some file of swap takes a new process, and otherwise exactly one table entry without a page |
| `Petitions.Server.CleanTLB` | memory/src/tlb.c:146-152 | Clearing the TLB changes no address space |
| `AddressSpace.FlatWrite` | memory/src/petitionHandlers.c:136-157 | Writing part of one page is writing a stretch of the concatenated pages |
| `AddressSpace.WriteIsSplice` | memory/src/memory.c:409-421 | Writing a resident frame changes one stretch of one address space |
| `AddressSpace.ReadsPiece` | memory/src/petitionHandlers.c:93-114 | Part of a resident frame is the same part of the address space |
| `AddressSpace.FlatSame` | memory/src/memory.c:264-340 | Moving pages between frames and swap changes no address space |
| `AddressSpace.FlatOther` | memory/src/memory.c:264-340 | What is done to one process leaves the address space of every other one alone |
| `PageLifecycle.ExtendKeepsInv` | memory/src/petitionHandlers.c:25-45 | Adding blank pages keeps the invariant and appends zeros to one address space |
| `PageLifecycle.RemoveLeftover` | memory/src/petitionHandlers.c:47-63 | Deleting the last page undoes its creation exactly, also when swap had no room for it |
| `PageLifecycle.DropPageSpaces` | memory/src/petitionHandlers.c:425-433 | Dropping the last page shortens one address space by one page |
| `PageLifecycle.SuspendingStep` | memory/src/petitionHandlers.c:517-526 | Suspending one page keeps the invariant and every page, although its translation stays cached until the end |
| `PageLifecycle.SuspendingEnds` | memory/src/petitionHandlers.c:511-540 | A suspended process has no frame, and no address space has changed |
| `PageLifecycle.TerminateKeepsInv` | memory/src/petitionHandlers.c:542-580 | Ending a process keeps the invariant and every other address space |
| `VirtualMemory.TablesAndFramesInverse` | memory/src/memory.c:320-337 | A page is present in a frame if and only if the frame is in use and labelled with it; a cached translation names such a frame |
| `VirtualMemory.EvictKeepsInv` | memory/src/memory.c:286-310 | Evicting a page, saved only if modified, changes no page: an unmodified resident page equals its swap copy |
| `VirtualMemory.LoadKeepsInv` | memory/src/memory.c:318-337 | Loading an absent page into a free frame changes no page and makes it resident |
| `VirtualMemory.ReplaceKeepsInv` | memory/src/memory.c:274-340 | A replacement with whatever victim keeps the invariant and changes no page |
| `VirtualMemory.FixedFaultIsLocal` | memory/src/memory.c:264-340 | Under fixed assignment a fault moves no page of another process |
| `VirtualMemory.WriteIsVisible` | memory/src/memory.c:409-421 | Writing a frame in use changes exactly the page it is labelled with |
| `VirtualMemory.AddPageKeepsInv` | memory/src/petitionHandlers.c:25-45 | A new page changes no other page |
| `VirtualMemory.DropPageKeepsInv` | memory/src/petitionHandlers.c:425-433 | Dropping the last page of a process changes no other page |
| `VirtualMemory.SuspendKeepsInv` | memory/src/petitionHandlers.c:517-526 | Suspending a page, saved whether modified or not, changes no page |
| `Paging.Mmu.GetFrame` | memory/src/memory.c:221-262 | The page is in the returned frame afterwards, its translation cached, and no page of any process changes; the frame has its use bit set and the newest timestamp; if the page was in memory nothing else changes in the frame table, and if not the frame is the one assignment and policy choose |
| `Paging.Mmu.SwapPage` | memory/src/memory.c:264-272 | A fault changes no page, caches the translation and takes the frame that assignment and policy choose: the lowest free one of the range, or else under LRU the one whose last use is oldest, or else the victim of the clock, which leaves use bits and hand as the sweeps do |
| `Paging.Mmu.Replace` | memory/src/memory.c:274-340 | The exact state after a replacement, invariants kept |
| `PageUse.VisitKeepsTraced` | memory/src/memory.c:221-262 | Over any accesses the last use of a frame is the last access to the page in it |
| `PageUse.LruTakesOldestPage` | memory/src/memory.c:264-272 | Under LRU a fault without a free frame takes out the page accessed least recently of all pages in the frames its process may use |
| `Paging.Mmu.ChooseVictim` | memory/src/memory.c:356-407 | The lowest free frame of the range; if none is free, under LRU the one whose last use is oldest, over one frame too unless it was accessed last, and otherwise the clock victim with its effect on use bits and hand |
| `Paging.Mmu.Assign` | memory/src/memory.c:174-211 | Fixed assignment gives the process its own block or one without owner, global assignment every frame |
| `Paging.Mmu.WriteResident` | memory/src/memory.c:409-421 | A write to a resident page is a write to one address space |
| `Paging.Mmu.ReadPart` | memory/src/petitionHandlers.c:93-114 | Accesses a page once and reads part of it |
| `Paging.Mmu.WritePart` | memory/src/petitionHandlers.c:136-157 | Accesses a page once and writes part of it, which marks its frame as modified |
| `Paging.Mmu.CreatePage` | memory/src/petitionHandlers.c:25-45 | Adds a blank page; -1 if and only if swap has no room for it, and then the page table grows all the same |
| `Paging.Mmu.DeleteLastPages` | memory/src/petitionHandlers.c:47-63 | Restores page table, frames, TLB and swap exactly as they were before the pages were added |
| `Paging.Mmu.AddPages` | memory/src/petitionHandlers.c:322-337 | All the pages if and only if the chunk or the file of the process has room for all of them, and otherwise exactly the state before |
| `Paging.Mmu.FirstPage` | memory/src/petitionHandlers.c:214-226 | Fails if and only if no file of swap takes a new process; the entry left behind makes the process an orphan and changes nothing else |
| `Paging.Mmu.DropLastSeen` | memory/src/petitionHandlers.c:425-433 | Gives up frame, translation, table entry and swap copy of the last page; the address space loses that page only |
| `Paging.Mmu.Suspend` | memory/src/petitionHandlers.c:511-540 | Every page goes to swap; exactly the frames in use and the translations of the process are given up, its block is released, and no address space changes |
| `Paging.Mmu.Terminate` | memory/src/petitionHandlers.c:542-580 | The exact state after a process ends; the owner of its block stays |
| `FrameTable.Frames.ClockM` | memory/src/memory.c:374-407 | Ends within three sweeps and one frame; with no free frame returns the one least by (u, modified) on entry, nearest to the hand; says which use bits it clears and where the hand is left; modified bits stay |
| `FrameTable.Frames.Sweep` | memory/src/memory.c:386-406 | Two rounds of two sweeps are enough, three sweeps and one frame at most |
| `FrameTable.Frames.Lru` | memory/src/memory.c:356-372 | The lowest free frame, or the first with the smallest timestamp below the counter |
| `FrameTable.Frames.Fijo` | memory/src/memory.c:174-205 | The block of the process, or the lowest one without owner, which becomes its own; fails if and only if there is neither |
| `FrameTable.Frames.GetFreeFrame` | memory/src/memory.c:134-139 | The lowest free frame of the range, if any |
| `FrameTable.Frames.UpdateTimestamp` | memory/src/memory.c:154-159 | Timestamps are the positions of last accesses in the history |
| `FrameTable.Frames.ReleaseBlocks` | memory/src/petitionHandlers.c:529-535 | The blocks of a process lose their owner |
| `FrameTable.LabelKeepsOwned` | memory/src/memory.c:330-337 | A frame in use belongs to the owner of its block |
| `Policies.ClockVictimUnique` | memory/src/memory.c:386-406 | There is only one frame the clock may choose |
| `Policies.AlignedRangeWraps` | memory/src/memory.c:391-404 | Because blocks start at multiples of their size the hand stays inside its range |
| `Policies.FourthSweepStops` | memory/src/memory.c:386-406 | No second round ends without a victim |
| `Policies.LruIsOldest` | memory/src/memory.c:356-372 | Over two used frames or more LRU finds the frame whose last access is oldest |
| `Policies.LruOfOneFrame` | memory/src/memory.c:356-372 | Over one frame LRU finds none if and only if that frame was the last one accessed |
| `Ram.Memory.Edit` | memory/src/memory.c:409-421 | Writes part of one frame; no other byte of memory changes |
| `Arith.RoundUpCovers` | shared/src/utils.c:9-12 | Division rounded up is the least number of pieces that covers the size |
| `Tlb.TlbBuffer.GetFrame` | memory/src/tlb.c:32-60 | A hit if and only if the pair is cached, with its frame; under LRU the slot that was hit moves behind all others, which keep their order, and FIFO leaves the queue alone |
| `Tlb.TlbBuffer.AddEntry` | memory/src/tlb.c:62-103 | The translation is cached in the lowest free slot, or else replaces the entry at the head of the queue, which is the one used least recently, hits counting under LRU only, if and only if its slot is not queued again behind another one; so always while nothing is dropped |
| `Tlb.HeadIsLru` | memory/src/tlb.c:83-99 | With all slots in use the head of the queue is used least recently if and only if it is not queued again behind the last place of another slot |
| `Tlb.NewestIsReplaced` | memory/src/tlb.c:83-133 | Counter-example: after a slot was dropped and filled again, the newest entry is replaced |
| `Queues.RemoveFirst` | memory/src/tlb.c:106-116 | Takes out the first entry equal to x, and leaves the others in their order |
| `Queues.MoveKeepsOrder` | memory/src/tlb.c:106-116 | Moving what is used to the end keeps the last places of a queue in the order of last uses, even when entries are queued twice |
| `Queues.HeadIsLeastRecent` | memory/src/tlb.c:83-99 | The head of a queue in the order of last uses is the least recent one if and only if it is not queued again later |
| `Tlb.TlbBuffer.DropEntry` | memory/src/tlb.c:123-133 | Stopping at the first match, live or not, still drops the live entry |
| `Tlb.TlbBuffer.FreeProcessEntries` | memory/src/tlb.c:155-168 | Exactly the translations of the process are lost |
| `Tlb.TlbBuffer.CleanTLB` | memory/src/tlb.c:146-152 | Every translation is lost |
| `Tlb.CachesIsMap` | memory/src/tlb.c:32-133 | The live entries are a map: one per page |
| `Tlb.FillCache` | memory/src/tlb.c:66-99 | A slot filled while no lower one is free keeps every live entry the lowest with its key |
| `Tlb.FreeCache` | memory/src/tlb.c:123-133 | Freeing slots removes their keys from the map and keeps live entries lowest |
| `SwapStore.SwapSpace.SavePage` | swamp/src/petitionHandlers.c:3-17 | Updates exactly one key or changes nothing; succeeds if and only if the key is stored or the shelf has room for it |
| `SwapStore.SwapSpace.ReadPage` | swamp/src/petitionHandlers.c:19-46 | A stored page is returned as saved last; the reply is an error exactly when no slot of the file carries the key |
| `SwapStore.SwapSpace.DestroyPage` | swamp/src/petitionHandlers.c:48-78 | Takes exactly one key away, and its slot back on the shelf |
| `SwapStore.SwapSpace.Fija` | swamp/src/swap.c:48-75 | The searches write the slot that `FixedTarget` computes, whatever the slots hold, and fail if and only if it computes none |
| `SwapStore.SwapSpace.Global` | swamp/src/swap.c:82-107 | The searches write the slot that `GlobalTarget` computes, whatever the slots hold, and fail if and only if it computes none |
| `SwapStore.SwapSpace.GetChunk` | swamp/src/swap.c:33-41 | The chunk of a process by its first slot |
| `SwapStore.SwapSpace.FindFreeChunk` | swamp/src/swap.c:23-30 | The first chunk whose first slot is free |
| `SwapStore.SwapSpace.PidExists` | swamp/src/swap.c:3-9 | The file with live pages of the process, if any |
| `SwapStore.SwapSpace.HasMoreFreeIndexes` | swamp/src/swap.c:85-91 | The first file with most free slots |
| `SwapStore.SwapFile.GetIndex` | swamp/src/swapFile.c:103-113 | The lowest slot carrying the key, used or not |
| `SwapStore.SwapFile.FindFreeIndex` | swamp/src/swapFile.c:115-122 | The lowest free slot |
| `SwapStore.SwapFile.CountPidPages` | swamp/src/swapFile.c:84-90 | How many live slots a process has |
| `SwapStore.SwapFile.CountFreeIndexes` | swamp/src/swapFile.c:96-101 | How many slots are free |
| `SwapModel.LookupFindsLive` | swamp/src/swapFile.c:103-113 | A lookup that ignores used still finds the live slot of every stored key |
| `SwapModel.SaveIsUpdateIffSlotIsFree` | swamp/src/swap.c:67-68 | Writing a slot updates exactly one key if and only if the slot was free or had the same key |
| `SwapModel.DestroyIsRemoval` | swamp/src/petitionHandlers.c:59-67 | Destroying what a lookup finds removes exactly the key, even when the slot was stale |
| `SwapModel.RepresentsIsMap` | swamp/src/swapFile.c:103-128 | The map kept beside the slots is the map the slots stand for |
| `SwapChunks.FillIsUpdate` | swamp/src/swap.c:58-68 | Saving the next page of a process, or the first of a new one, updates one key and keeps chunks in order |
| `SwapChunks.FixedSlotIsUpdate` | swamp/src/swap.c:58-68 | A rewrite or the next page in order updates one key |
| `SwapChunks.GlobalSlotIsUpdate` | swamp/src/swap.c:94-100 | Under first-free placement every save updates one key, in any order |
| `SwapTargets.SaveIsUpdateIff` | swamp/src/swap.c:48-107 | In order or not, wherever lookups find live slots: a save updates exactly one key if and only if the slot the searches lead to is free or already holds the page |
| `SwapTargets.FixedTargetInOrder` | swamp/src/swap.c:48-75 | For pages saved in order the searches lead to the next slot of the process, or fail if and only if its chunk is full or there is no free chunk |
| `SwapTargets.GlobalTargetIs` | swamp/src/swap.c:82-107 | Under first-free placement the searches lead to a slot of the file of the process, or of the emptiest one, and fail if and only if there is no room |
| `SwapTargets.DestroyedIsFoundIff` | swamp/src/petitionHandlers.c:19-67 | A destroyed page is found all the same, and reads as zeros, if and only if its process has another page in swap |
| `SwapTargets.OutOfOrderLosesAPage` | swamp/src/swap.c:59-68 | Counter-example from blank slots: after two saves and the destruction of page 0, the searches lead the save of page 2 to the live slot of page 1 |
| `SwapShelf.RoomIsShelf` | swamp/src/swap.c:48-107 | How many slots or chunks are free in each file, and which file each process is in, decide whether a save succeeds |
| `SwapShelf.DestroyShelved` | swamp/src/petitionHandlers.c:48-78 | Destroying a page gives its slot back, and under fixed assignment its chunk with the last page of the process |
| `SwapRequests.SaveIsRight` | swamp/src/swap.c:48-107 | A save is one update of the map of pages and takes one place of the shelf, or is refused and changes nothing |
| `SwapRequests.PageAtIs` | swamp/src/petitionHandlers.c:19-46 | The file of the process and the lowest slot with the key: in use if and only if the page is stored, and then with its content |
| `SwapRequests.DestroyIsRight` | swamp/src/petitionHandlers.c:48-78 | Destroying is the removal of one key, also where the slot found is stale |
| `DeadlockResolver.DeadlockDetector.ResolveDeadlocks` | kernel/src/kernel.c:320-322 | The loop ends without deadlock, having killed only processes on cycles, always the biggest pid, and keeps books and semaphores in step |
| `Kills.ResolverKillsOnePerCycle` | kernel/src/deadlockResolver.c:30-156 | A finished resolver has killed exactly one process of every cycle of the wait-for graph |
| `Kills.ResolverIsMinimal` | kernel/src/deadlockResolver.c:30-156 | No smaller set of kills removes the deadlock |
| `Kills.ResolvableIffNoneStuck` | kernel/src/deadlockResolver.c:69-91 | Kills on cycles can end the deadlock if and only if no process holds a unit while it waits for one that nobody has |
| `Kills.StuckExample` | kernel/src/deadlockResolver.c:80-91 | Counter-example: a state with a deadlock that no kills on cycles end |
| `Kills.MutexesAreDisciplined` | kernel/src/deadlockResolver.c:30-156 | One unit per semaphore and one request per process give the discipline the resolver needs |
| `Kills.KillIsRemove` | kernel/src/deadlockResolver.c:101-152 | On the wait-for graph a kill removes the victim and nothing else |
| `WaitGraph.OneKillPerCycle` | kernel/src/deadlockResolver.c:30-156 | Kills on cycles until none is left hit every cycle exactly once |
| `WaitGraph.KillsAreMinimal` | kernel/src/deadlockResolver.c:30-156 | Any set of nodes whose removal leaves no cycle is at least as large |
| `WaitGraph.VictimIsBiggestOfCycle` | kernel/src/deadlockResolver.c:63-91 | Each victim has the biggest pid of its own cycle |
| `WaitFor.DeadlockIffCycleOrStuck` | kernel/src/deadlockResolver.c:33-61 | Under the discipline there is a deadlock if and only if there is a cycle of waits or a stuck process |
| `WaitFor.CycleIsDeadlocked` | kernel/src/deadlockResolver.c:33-61 | Whoever is on a cycle of waits never completes in any order |
| `WaitFor.LooseCycleIsStrict` | kernel/src/deadlockResolver.c:4-22 | For a deadlocked process a cycle of requests is a cycle of waits |
| `DeadlockResolver.DeadlockDetector.Reduce` | kernel/src/deadlockResolver.c:33-61 | A flag ends unset if and only if the process holds something and no order of completions satisfies it |
| `Reduction.FixpointIsExact` | kernel/src/deadlockResolver.c:45-61 | At a fixpoint flags are exact, whatever the order of the scan |
| `Reduction.ManyIsFixpoint` | kernel/src/deadlockResolver.c:45-61 | n passes reach the fixpoint |
| `Matrices.FixpointIsComplete` | kernel/src/deadlockResolver.c:45-61 | A fixpoint holds every holder that completes in any schedule |
| `DeadlockResolver.DeadlockDetector.Pass` | kernel/src/deadlockResolver.c:46-60 | A pass makes progress unless the fixpoint is reached |
| `DeadlockResolver.DeadlockDetector.IsInCircularWait` | kernel/src/deadlockResolver.c:3-22 | Ends; true implies a chain of requests and holders to base; exact under the discipline |
| `CircularWait.LeadsToItself` | kernel/src/deadlockResolver.c:72-78 | For a deadlocked process the search from itself to itself decides whether it is on a cycle |
| `CircularWait.SeenIsDeadEnd` | kernel/src/deadlockResolver.c:11-15 | Coming back to a seen process means base is not reached, with single holders and requests |
| `DeadlockResolver.DeadlockDetector.FindDeadlocks` | kernel/src/deadlockResolver.c:30-156 | One round: reports a deadlock if and only if there is one, kills the biggest pid of the circular waits found |
| `DeadlockResolver.DeadlockDetector.KillProcess` | kernel/src/deadlockResolver.c:101-152 | Rows go, held units go back to books and semaphores, the victim leaves every queue |
| `DeadlockResolver.DeadlockDetector.SemWait` | kernel/src/petitionHandlers.c:36-90 | A process without a unit to take is queued; otherwise exactly one unit goes from the semaphore to it, and the books credit it with one more; books, semaphores and units taken stay in step |
| `DeadlockResolver.DeadlockDetector.SemPost` | kernel/src/petitionHandlers.c:93-126 | One unit more; the books take one from the poster if it held one, and nothing else; books, semaphores and units taken stay in step |
| `DeadlockResolver.DeadlockDetector.SemAdmit` | kernel/src/kernel.c:276-307 | The first waiter gets the unit, and the books credit exactly it with one more; books, semaphores and units taken stay in step |
| `DeadlockResolver.DeadlockDetector.SemInit` | kernel/src/petitionHandlers.c:3-34 | Books and semaphores stay in step through a new semaphore |
| `DeadlockResolver.DeadlockDetector.SemDestroy` | kernel/src/petitionHandlers.c:129-161 | The column of the semaphore goes, every other one stays aligned with its semaphore; for a semaphore without waiters |
| `DeadlockResolver.DeadlockDetector.ProcInit` | kernel/src/deadlockDetector.c:166-186 | Rows stay aligned with processes when one arrives |
| `DeadlockResolver.DeadlockDetector.ProcTerm` | kernel/src/deadlockDetector.c:191-210 | Rows stay aligned with processes when one ends |
| `DeadlockResolver.DeadlockDetector.DDSemInit` | kernel/src/deadlockDetector.c:44-62 | One more column, with the initial units |
| `DeadlockResolver.DeadlockDetector.DDSemAllocatedInstant` | kernel/src/deadlockDetector.c:67-80 | One unit from available to the process |
| `DeadlockResolver.DeadlockDetector.DDSemAllocated` | kernel/src/deadlockDetector.c:85-99 | One unit from available to the process, its request answered |
| `DeadlockResolver.DeadlockDetector.DDSemRequested` | kernel/src/deadlockDetector.c:104-116 | One more request |
| `DeadlockResolver.DeadlockDetector.DDSemRelease` | kernel/src/deadlockDetector.c:121-134 | One unit back to available, from the process if it held one |
| `DeadlockResolver.DeadlockDetector.DDSemDestroy` | kernel/src/deadlockDetector.c:139-161 | One column less in every matrix |
| `DeadlockResolver.MateSem.Wait` | kernel/src/mateSem.c:30-43 | Blocks if and only if there is no unit |
| `DeadlockResolver.MateSem.Post` | kernel/src/mateSem.c:45-52 | One unit more; wakes the thread if and only if somebody waits and there was none |
| `SemBooks.InStepSingleRequest` | kernel/src/deadlockDetector.c:104-116 | Books in step show at most one request per process |
| `SemBooks.KillInStep` | kernel/src/deadlockResolver.c:101-152 | Books and semaphores stay in step through a kill |
| `SemBooks.AdmitInStep` | kernel/src/deadlockDetector.c:85-99 | A waiter let through had exactly one request on the books, and the books stay in step |
| `SemBooks.TakeCredits` | kernel/src/deadlockDetector.c:67-99 | A unit booked to one process and semaphore is what the process has taken and not given back |
| `SemBooks.GiveCredits` | kernel/src/deadlockDetector.c:121-134 | A post takes a unit from the books of the poster if and only if it holds one |
| `SemBooks.GoneCredits` | kernel/src/deadlockResolver.c:101-152 | After a kill or an end the books still show for every process exactly what it holds |
| `SemBooks.DropSemInStep` | kernel/src/deadlockDetector.c:139-161 | Removing a column keeps the books in step |
| `SemBooks.DropProcInStep` | kernel/src/deadlockDetector.c:191-210 | Removing a row keeps the books in step |
| `MutexUnits.TakingConserves` | kernel/src/deadlockDetector.c:67-99 | Taking a unit conserves the units of every semaphore |
| `MutexUnits.PostConservesIffHeld` | kernel/src/deadlockDetector.c:121-134 | A post makes a unit up if and only if its process holds none |
| `MutexUnits.KillConserves` | kernel/src/deadlockResolver.c:112-116 | A kill conserves the units of every semaphore |
| `MutexUnits.EndConservesIffEmpty` | kernel/src/deadlockDetector.c:191-210 | A process that ends loses the units it holds; they are conserved if and only if it holds none |
| `MutexUnits.KillKeepsMutexes` | kernel/src/deadlockResolver.c:101-152 | One unit per semaphore survives every kill |
| `Scheduler.DegreeHolds` | kernel/src/kernel.c:67-158 | Over any interleaving cuposLibres and pending credits equal the degree minus active processes, which equals the slots held by semaphores and threads, plus one per process killed while suspended |
| `Scheduler.DegreeIffNoSuspendedKill` | kernel/src/deadlockResolver.c:133-136 | The slots add up to the degree if and only if no process was killed while suspended |
| `Scheduler.SuspendedKillOverfills` | kernel/src/deadlockResolver.c:106-136 | Counter-example: with a degree of one, two processes are active after a kill of a suspended one |
| `Scheduler.StepKeepsInv` | kernel/src/kernel.c:67-158 | Every step of every thread keeps slots and announcements accounted for, and the long-term thread finds newQueue not empty |
| `Scheduler.NeverStuck` | kernel/src/kernel.c:67-116 | While a slot is free and a process waits, some thread can take a step that passes slots on |
| `Scheduler.AdmissionComes` | kernel/src/kernel.c:67-116 | However these threads are interleaved, a bounded number of their steps in a row contains an admission |
| `Scheduler.PassingEndsOrAdmits` | kernel/src/kernel.c:67-116 | In whatever order the threads run, every such step admits a process or uses up the bound |
| `Scheduler.OnePlace` | kernel/src/kernel.c:67-308 | A process that arrived once is in exactly one queue until it ends |
| `Scheduler.RunConserves` | kernel/src/kernel.c:67-308 | Processes are neither lost nor duplicated by any interleaving |
| `Orders.AdmittedInOrder` | kernel/src/kernel.c:71-85 | Over any interleaving new processes become ready in the order in which they arrived, none left out |
| `Orders.ResumedInOrder` | kernel/src/kernel.c:95-114 | Over any interleaving suspended processes become ready in the order in which they stopped waiting |
| `Orders.SuspendedGoFirst` | kernel/src/kernel.c:95-101 | A slot goes to a new process only when no suspended one is ready |
| `Orders.SuspendsLastBlocked` | kernel/src/kernel.c:137-140 | Over any interleaving the process that is suspended blocked later than all that stay blocked |
| `Orders.SuspendIff` | kernel/src/kernel.c:131 | A process is suspended if and only if a new one waits, somebody is blocked, nobody ready, and all slots are taken or not yet given back |
| `KernelThreads.Kernel.LongTermAdmit` | kernel/src/kernel.c:71-85 | The thread never takes the head of an empty newQueue: the head is there, becomes ready and takes a slot |

## Left out

- Paging.Mmu.SwapPage: requires that a block of frames can be found under fixed assignment, because the code goes on with an undefined range when `fijo` fails (memory/src/memory.c:267).
- Paging.Mmu.ChooseVictim: requires that LRU over a single used frame does not meet the one accessed last, because the scan then finds none; `Policies.LruOfOneFrame` says exactly when. Whole runs under LRU have two frames to choose from (`Paging.Compatible`).
- MemoryRuns.Run: a process whose first page found no room is followed until it is suspended or ends; its table names a page that is nowhere, and reading, writing or allocating again is left undefined by the code.
- Allocator.MemFree: pointers inside the address space that were never given out, and addresses below 9, are not modelled; the code rewrites whatever lies before them.
- Petitions.Server.MemRead: needs at least one page, because the unsigned bound wraps around for an empty address space and lets the access through (memory/src/petitionHandlers.c:462).
- SwapStore.SwapSpace.SavePage: under fixed assignment pages are saved in order and destroyed last first, as memory does; `SwapTargets.OutOfOrderLosesAPage` shows what happens otherwise.
- SwapStore.SwapSpace.GetChunk: tests the bound before reading the entry; the code reads first. The same holds for SwapStore.SwapFile.FindFreeIndex.
- DeadlockResolver.DeadlockDetector.ResolveDeadlocks: requires that no process is stuck on a unit nobody has; otherwise the code looks for the maximum of an empty list (kernel/src/deadlockResolver.c:91). `Kills.ResolvableIffNoneStuck` says that the condition is exact.
- DeadlockResolver.DeadlockDetector.SemDestroy: a semaphore with waiters is not destroyed; the code would free the queue they wait in.
- KernelThreads.Kernel.TakeReady: any ready process may be dispatched, because the order by estimate or response ratio, floating point over measured times, is not modelled.
- KernelThreads.Kernel.WakeProcess: tests the state and leaves the queue in one step; the code tests without the lock.
- Main memory and swap are modelled with page tables, victim queues and per-process tables as sequences and maps that are fields reassigned in place; raw allocation and freeing of C buffers is not modelled.
- Counters, timestamps and page numbers are unbounded; their wrap-around is not modelled.
- Swap files are arrays of page contents; mapping and synchronising the real files is left out.
- TLB hit and miss metrics, dumps, delays, logging and signal handling other than clearing the TLB.
- Sockets, packets, serialisation and configuration files; memory calls swap directly.
- The waiting of devices, and which process a device serves next.
- The commented-out free and the unused helpers `getFreeAlloc`, `getLastAllocAddr` and `swapFile_isFreeIndex`.
