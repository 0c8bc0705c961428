# Verified models of the kernel's memory, scheduling and synchronisation code

This project models the hard parts of a freestanding x86_64 kernel in Dafny and proves what they are
meant to do: for every memory map, every run of requests, every interleaving of threads.

Run `dafny verify dfyconfig.toml` to check everything.

## What is modelled

| files | part of the kernel |
|---|---|
| `Basics`, `Dyadic`, `BuddyBlocks`, `PageFrames`, `Pmm`, `PmmBoot` | the buddy page allocator: power-of-two free lists threaded through the page array, split, merge, and the tiling of the memory map |
| `PageTables`, `Vmm`, `WxAudit`, `VmmBoot` | 4-level page tables as a flat map from 36-bit page numbers (section 4.5 of the Intel SDM, volume 3A), range and 2 MB mapping, per-section permissions, and the write-xor-execute audit |
| `Slabs`, `Kmalloc`, `Heap`, `HeapRun` | the slab heap with its quarantine ring, over the page allocator |
| `WaitList`, `Sched`, `SchedRun`, `Scheduler` | ready queues and bitmap, deadline queue, sleep queue, schedule, and where every task is |
| `MsgQueue`, `Semaphore`, `Mutex` | blocking protocols, one locked section a step |
| `TicketLock`, `RwLock`, `RingBuf`, `RingSpsc`, `Klog` | concurrent protocols over every interleaving of their atomic steps, with unbounded counters behind the wrapping fields |
| `Ktimer`, `TimerWheel` | the 256-slot timer wheel against a scan of all timers |
| `Ext2`, `Memmove` | chunked copies against their specifications |

Code that updates memory in place is modelled by classes and arrays, and proved against functions on
values (`View()`, `Contents()`, the sets of free and live pages, the flat page map). A protocol is a
total step function on a state, `Apply`, folded over any list of events by `Exec`; an event its thread
cannot make leaves the state alone.

## What the proofs found

- **Page 0** (`PmmBoot.PageZeroReportsFailure`). The allocator's failure value is also the address of
  page 0. A request that can be met returns 0 exactly when page 0 is in front of the first list that has
  a block (`AllocPages`). The heap and the page tables require that page 0 is not usable.
- **kmalloc above 4 MiB - 8 bytes** (`Heap.OrderOutcome`, `Heap.KernelHeap.Kmalloc`). The order loop stops at
  the top order, so a larger request gets a block of 4 MiB - 8 usable bytes. For the last eight 64-bit
  sizes the sum with the header word wraps and a single page is handed out. At most 4 MiB - 8 bytes is
  exactly when the result is large enough.
- **krealloc to one of those eight sizes** (`Heap.KernelHeap.Relocate`). If the old block holds more than
  4088 bytes, the copy is longer than the new block, and it is so in no other case.
- **The poison check of kfree** (`Heap.KernelHeap.Kfree`) stops on any slot whose checked bytes hold the
  poison, also when the client was given a recycled slot and has not written it
  (`HeapRun.RecycledSlotStops`).
- **vmm_map_range_huge** writes the flags as asked, also with enforcement on
  (`VmmBoot.HugeMappingEscapes`). `ServedKeepsCleanIff` gives the exact condition for every mapping request.
- **schedule's early return** (`SchedRun`). A task that was made ready while still current and is picked
  again goes on executing in state READY. The next schedule then drops it: its control block is in use,
  but it is on no list and not current, and stays so for ever. `RunConservesIff` gives the exact condition,
  `RunLosesExactly` says which tasks are lost, and `WakeBeforeSwitchLoses` and `BootTaskCanBeLost` show
  runs that lose one.
- **Priority inheritance** (`Mutex`). A thread that went to sleep during an earlier tenure lends nothing to
  the next owner, whether that one locks or try-locks. `RunInvertsIff` says exactly on which runs an owner
  is outranked, and `InheritanceForgetsOldSleepers` and `TryLockForgetsOldSleepers` show such runs.
- **spin_trylock** (`TicketLock`). Its compare looks at the next word alone. It is safe exactly when, at the
  swap, that word equals the one being served (`TrylockTakesFreeLock`, `RunSoundIff`). Fewer than 65536
  tickets since the one it read as served are enough (`TimelyIsNotStale`), fewer since the moment of its
  load are not (`FewerTicketsSinceLoadBreakExclusion`).
- **ext2 offset + count** (`Ext2.ClampStaysInsideIff`). The sum is a 64-bit one; when it wraps to at most the
  file size, the read is not cut at the end of the file.

## Model

| member | source | states |
|---|---|---|
| `Dyadic.BuddyFacts` | kernel/pmm.c:121-123 | Flipping bit k of an aligned page number gives the one other block of its pair: a different aligned block, whose buddy is the first again, with the same parent block |
| `Dyadic.BaseIsRemainder` | kernel/pmm.c:516-521 | The low-bits test for alignment agrees with rounding down, for every page number and order |
| `BuddyBlocks.RunInOneBlock` | kernel/pmm.c:135-193 | When no two free buddies stand side by side below the top order, any aligned run of free pages lies inside a single free block |
| `BuddyBlocks.CanonicalUnique` | kernel/pmm.c:217-269 | Two such families with the same free pages have the same free blocks: the decomposition of a page set is unique |
| `BuddyBlocks.LiveFixesAll` | kernel/pmm.c:135-269 | The blocks held determine the free ones as well, once it is known which pages are free or held |
| `BuddyBlocks.BlockIffRun` | kernel/pmm.c:143-158 | A free block of at least the requested order exists if and only if some aligned run of that many free pages exists |
| `BuddyBlocks.MergePages` | kernel/pmm.c:246-261 | A merge moves exactly the buddy's pages out of the free set |
| `BuddyBlocks.SplitPages` | kernel/pmm.c:166-179 | A split moves exactly the upper half's pages into the free set |
| `PageFrames.AddKeepsLists` | kernel/pmm.c:63-71 | Pushing a page in front keeps every doubly linked free list well formed, with its count |
| `PageFrames.RemoveKeepsLists` | kernel/pmm.c:73-85 | Unlinking a page from any place in its list keeps every list well formed, with its count |
| `PageFrames.MergeTestExact` | kernel/pmm.c:126-131 | The test on one flag and one order is true if and only if the buddy is a free block of that order, although merges leave stale head flags behind |
| `PageFrames.MergeKeepsHead` | kernel/pmm.c:252-261 | Every head flag is either that of a listed block or stale: inside a block of higher order, at a page whose bit of that order is set. A merge keeps that |
| `PageFrames.TakeStep` | kernel/pmm.c:160-164 | Taking a list's first block in hand keeps page array, lists and blocks in agreement |
| `PageFrames.SplitStep` | kernel/pmm.c:166-179 | Tagging and listing the upper half keeps the agreement |
| `PageFrames.MergeStep` | kernel/pmm.c:246-261 | Unlinking the buddy and climbing an order keeps the agreement, stale flag included |
| `PageFrames.PutStep` | kernel/pmm.c:263-264 | Listing the merged block keeps the agreement and makes no free pair |
| `Pmm.PageAllocator.ListAdd` | kernel/pmm.c:63-71 | The in-place list push is the list with the page in front |
| `Pmm.PageAllocator.ListRemove` | kernel/pmm.c:73-85 | The in-place unlink is the list without the page, wherever it stood |
| `Pmm.PageAllocator.FirstStocked` | kernel/pmm.c:143-150 | The search returns the first order from the requested one up with a block, or one past the top |
| `Pmm.StockIffRun` | kernel/pmm.c:143-158 | That search succeeds if and only if a free aligned run exists |
| `Pmm.PageAllocator.SplitDown` | kernel/pmm.c:166-179 | Splitting leaves the lower block of the requested order in hand, the rest free, and the family canonical |
| `Pmm.PageAllocator.AllocPages` | kernel/pmm.c:135-193 | Returns an aligned block of pages that were free, cut from the smallest free block that is large enough, and moves exactly those from free to live; fails exactly when no aligned run is free; 0 is returned then, and otherwise if and only if the first list with a block has page 0 in front; peak and counters follow |
| `PmmBoot.PageZeroReportsFailure` | kernel/pmm.c:152-192 | Why page 0 must be unusable: on a one-page machine the only page is handed out and 0, the failure value, is returned |
| `Pmm.PageAllocator.MergeUp` | kernel/pmm.c:238-261 | Merging while the test holds ends with a block whose buddy is not free, covering exactly the pages given back and the free ones absorbed |
| `Pmm.PageAllocator.FreePages` | kernel/pmm.c:217-269 | Freeing a live block moves exactly its pages from live to free and keeps the family canonical and all counters exact |
| `Pmm.LargestBlock` | kernel/pmm.c:514-521 | The order chosen at a page is the largest whose block is aligned there and ends in the region |
| `Pmm.PageAllocator.FeedRegion` | kernel/pmm.c:513-533 | Tiling a region terminates and hands over each of its pages exactly once |
| `Pmm.PageAllocator.AllReserved` | kernel/pmm.c:486-490 | The starting state: every page reserved, nothing free |
| `PmmBoot.FindTop` | kernel/pmm.c:445-454 | The first pass finds the highest end of a usable region |
| `PmmBoot.FindLongest` | kernel/pmm.c:462-474 | The second pass finds the first longest usable region |
| `PmmBoot.RegionPages` | kernel/pmm.c:506-508 | The rounding keeps exactly the pages wholly inside a region |
| `PmmBoot.Init` | kernel/pmm.c:436-538 | From any non-overlapping region list the free pages are exactly those wholly inside usable regions and outside the page array; the rest stay reserved |
| `PmmBoot.MetadataNotFree` | kernel/pmm.c:500-504 | No free page overlaps the page array itself |
| `PmmBoot.FreePagesDetermineBlocks` | kernel/pmm.c:217-269 | Two allocators with the same free pages have the same free lists' contents at every order |
| `PmmBoot.AllocThenFree` | kernel/pmm.c:135-269 | Allocating and giving back restores the free blocks at every order |
| `PmmBoot.Run` | kernel/pmm.c:135-269 | Over any sequence of requests each get is served exactly when an aligned run is free at that point, with free pages that leave the free set, and each release returns exactly its own; the client's blocks are the live ones, pages are conserved, and once all is back the free blocks are those of the start |
| `PageTables.IndexMacros` | kernel/vmm.h:39-42 | The four index macros are the four nine-bit digits of the 36-bit page number |
| `PageTables.StoreElsewhere` | kernel/vmm.c:167 | A store at one entry is seen only by walks of pages under that entry, because each table is reached from one place |
| `PageTables.PageStore` | kernel/vmm.c:145-167 | Writing a last-level entry changes the mapping of its own page and of no other |
| `PageTables.HugeStore` | kernel/vmm.c:285-289 | Writing a 2 MB entry changes its own 512 pages and no other, whatever hung there before |
| `PageTables.HugeGrew` | kernel/vmm.c:285-289 | It cuts off the last-level tables of its own pages and no other table |
| `PageTables.LinkStore` | kernel/vmm.c:100-108 | Hanging a fresh zeroed table under an absent entry changes no mapping |
| `PageTables.LinkGrew` | kernel/vmm.c:100-108 | Hanging a table adds the one at its own place and no other |
| `Vmm.AddressSpace.constructor` | kernel/vmm.c:303-305 | A fresh top-level table maps nothing |
| `Vmm.TakePage` | kernel/vmm.c:100-103 | A page for a table is had if and only if a page is free, and is not one in use |
| `Vmm.AddressSpace.NextTable` | kernel/vmm.c:90-109 | Following or creating an entry changes no mapping and finds the next table, hanging one exactly when it is missing and a page is free; it stops only at a 2 MB leaf, or at a missing table when no page is free; pages used are tables hung |
| `Vmm.AddressSpace.TableFor` | kernel/vmm.c:128-142 | The walk down changes no mapping, hangs exactly the missing tables on its way, and gets there if and only if there are as many free pages as these and no 2 MB leaf in the way |
| `Vmm.AddressSpace.MapPage` | kernel/vmm.c:120-172 | Maps exactly its own page, with the not-executable bit forced on a writable page once enforcement is on; it succeeds if and only if the page is not inside a 2 MB leaf and there is a free page for every table missing on its way, uses exactly those, and otherwise changes no mapping |
| `Vmm.AddressSpace.MapRange` | kernel/vmm.c:257-261 | Maps exactly the pages of the range to consecutive frames and nothing else, and hangs exactly the tables that were missing; it succeeds if and only if no page of it lies in a 2 MB leaf and there is a free page for each of these; it stops at the first page where that fails, with the part before it mapped |
| `Vmm.AddressSpace.MapLeaf` | kernel/vmm.c:274-289 | Writes one 2 MB leaf if and only if there is a free page for every table missing above it |
| `Vmm.AddressSpace.MapRangeHuge` | kernel/vmm.c:265-293 | The same for a range of 2 MB leaves, replacing what was there and with the flags as asked; it succeeds if and only if there is a free page for every table missing down to the third level |
| `Vmm.AddressSpace.UnmapPage` | kernel/vmm.c:176-212 | Unmaps exactly its page, does nothing inside a 2 MB leaf, and adds and removes no table |
| `Vmm.AddressSpace.VirtToPhys` | kernel/vmm.c:216-253 | The walk returns what the flat map says, offset included, for 4 KB and 2 MB leaves, and 0 for unmapped |
| `Vmm.Effective` | kernel/vmm.c:161-165 | Under enforcement the flags written are never both writable and executable, and otherwise are the ones asked for |
| `Vmm.VpnAdd` | kernel/vmm.c:257-261 | A range that does not wrap the 48-bit space has consecutive page numbers |
| `WxAudit.CleanIffNoBadLeaf` | kernel/vmm.c:598-642 | No leaf is counted if and only if no page of the flat map is both writable and executable |
| `WxAudit.AuditTable` | kernel/vmm.c:604-632 | The nested walk counts every such leaf below a table once |
| `WxAudit.Audit` | kernel/vmm.c:598-642 | The result is the number of 4 KB and 2 MB leaves that are writable and executable |
| `VmmBoot.FinalFlags` | kernel/vmm.c:434-469 | After remap and sweep the last section that holds a page decides its permissions, gaps become data, and none is writable and executable |
| `VmmBoot.RemapSection` | kernel/vmm.c:434-448 | Remapping a section changes the permissions of its pages and no translation, cannot fail, and uses no page |
| `VmmBoot.SweepGaps` | kernel/vmm.c:450-473 | The sweep reaches every kernel page outside all sections and only those, cannot fail, and uses no page |
| `VmmBoot.BroadMap` | kernel/vmm.c:355-404 | The image is mapped whole and the direct map beside it, if and only if there is a free page for every table missing for the two; exactly those are used |
| `VmmBoot.SweptIsClean` | kernel/vmm.c:417-485 | The swept map holds no page writable and executable, anywhere in the space |
| `VmmBoot.BuildKernelSpace` | kernel/vmm.c:355-485 | For every layout with page-aligned section starts each kernel address keeps its translation, has the permissions of its section, nothing is writable and executable, and enforcement is on; it succeeds if and only if there is a free page for every table missing, and uses exactly those |
| `VmmBoot.MapKeepsCleanIff` | kernel/vmm.c:120-172 | Mapping pages into a clean space leaves it clean if and only if no page was mapped or the mapping itself is not both writable and executable |
| `VmmBoot.ServedKeepsCleanIff` | kernel/vmm.c:120-293 | A request keeps the space clean if and only if it changed nothing or it is not a 2 MB mapping asked to be present, writable and executable |
| `VmmBoot.Serve` | kernel/vmm.c:120-293 | Each request changes exactly the pages it got to, hangs exactly the tables these lacked, and stops short only at a page inside a 2 MB leaf or where free pages do not suffice for the next tables |
| `VmmBoot.ServedWholeIff` | kernel/vmm.c:120-293 | A request is served whole if and only if there is a free page for every table it lacks and, but for 2 MB mappings, no page of it lies in a 2 MB leaf |
| `VmmBoot.Run` | kernel/vmm.c:120-293 | After that any run of map, range, 2 MB range and unmap requests, with any flags but those, serves each request so in the state the one before it left, keeps every state of the run clean, and the audit returns 0 |
| `VmmBoot.HugeMappingEscapes` | kernel/vmm.c:265-293 | Why those are excepted: a 2 MB mapping asked writable and executable is made so although enforcement is on, and the audit counts it |
| `Slabs.SizeToClass` | kernel/kmalloc.c:96-106 | The class returned is the smallest whose slots hold the size |
| `Slabs.SlotBounds` | kernel/kmalloc.c:132-143 | A slot starts at a multiple of 16 past the header and ends inside its page |
| `Slabs.SlotsApart` | kernel/kmalloc.c:132-143 | Different slots of a page share no byte |
| `Slabs.EmptySlabAllFree` | kernel/kmalloc.c:329-336 | A page with used = 0 has every one of its slots on its free list |
| `Slabs.UsedIsLivePlusQuarantined` | kernel/kmalloc.c:231-234 | On every page used is the number of slots with clients, in quarantine or on the way from there to the free list |
| `Slabs.QuarantineDelay` | kernel/kmalloc.c:298-312 | A freed slot stays in the ring through the next 31 slab frees, in order, and is the one pushed out by the 32nd |
| `Slabs.PopPlaced` | kernel/kmalloc.c:231-234 | Popping a slot keeps every slot in exactly one place |
| `Slabs.AdmitPlaced` | kernel/kmalloc.c:303-309 | Entering the ring keeps every slot in exactly one place |
| `Slabs.PushPlaced` | kernel/kmalloc.c:344-346 | Returning the evicted slot keeps every slot in exactly one place |
| `Kmalloc.SlotIsNotLarge` | kernel/kmalloc.c:248 | Slot addresses never pass the address test for large ones |
| `Kmalloc.CellsApart` | kernel/kmalloc.c:174-238 | Different slots and large blocks share no byte |
| `Kmalloc.LiveApart` | kernel/kmalloc.c:174-238 | Live allocations never overlap |
| `Kmalloc.ReclaimedPageIsUnused` | kernel/kmalloc.c:329-336 | A page about to be returned holds no live and no quarantined pointer |
| `Kmalloc.ReclaimSound` | kernel/kmalloc.c:329-336 | Returning an empty page, with its block, keeps the whole heap invariant: in particular every block held is a slab page, a large block or somebody else's |
| `Kmalloc.FreeSound` | kernel/kmalloc.c:295-312 | A free that evicts nothing keeps the whole heap invariant |
| `Kmalloc.NothingLive` | kernel/kmalloc.c:242-361 | Once clients hold nothing there is no large block, the slab pages are exactly those of quarantined slots, 32 at most, and every other block held from the page allocator is somebody else's |
| `Heap.BuildSlab` | kernel/kmalloc.c:120-146 | A fresh page has all its slots chained on its free list, each once |
| `Heap.OrderOutcome` | kernel/kmalloc.c:186-190 | The order holds the request and its header word up to 4 MiB - 8 bytes; above that it is the top order, which is too small; and for the last eight 64-bit sizes, whose sum wraps, it is order 0 |
| `Heap.OrderFor` | kernel/kmalloc.c:186-190 | The loop finds the smallest order that holds the 64-bit sum, or the top order |
| `Heap.KernelHeap.Enter` | kernel/kmalloc.c:298-312 | The ring buffer is a queue of at most 32 that gives up its oldest entry when full |
| `Heap.KernelHeap.NewSlab` | kernel/kmalloc.c:120-146 | A new page joins the heap with its slots free and overlaps nothing in use |
| `Heap.KernelHeap.AllocSlot` | kernel/kmalloc.c:211-237 | A slot of the class, from the first page that has one, or from a new page |
| `Heap.KernelHeap.AllocLarge` | kernel/kmalloc.c:181-209 | A whole block behind a header word that records its order |
| `Heap.KernelHeap.Kmalloc` | kernel/kmalloc.c:174-238 | Returns memory that no client holds and the quarantine does not hold, as large as asked if and only if at most 4 MiB - 8 bytes were asked, with what is had otherwise; 0 exactly for size 0, for a full class with no page left, or without a run of the order, and then nothing at all has changed; the heap and memory after it follow from the address; blocks are taken only for what joins the heap; no other allocation's bytes change |
| `Heap.KernelHeap.FreeBlock` | kernel/kmalloc.c:253-265 | The whole block is poisoned, leaves the heap and goes back to the page allocator; no other allocation is touched |
| `Heap.KernelHeap.FreeLarge` | kernel/kmalloc.c:248-266 | A large block is poisoned and goes back whole, with the order read from its header word in memory |
| `Heap.KernelHeap.Reclaim` | kernel/kmalloc.c:329-336 | An empty page leaves its class list, is poisoned and goes back to the page allocator |
| `Heap.KernelHeap.ReturnOldest` | kernel/kmalloc.c:314-357 | The evicted slot gets its link and returns to the front of its page's free list; a page with nothing else taken is poisoned and goes back to the page allocator, any other stays |
| `Heap.KernelHeap.FreeSlot` | kernel/kmalloc.c:268-361 | A slot is poisoned past its first eight bytes and queued, and the slot that drops out goes where it should; bytes of the other allocations stay |
| `Heap.KernelHeap.Kfree` | kernel/kmalloc.c:242-361 | Takes the right branch for every live pointer; the heap and memory after it are exactly those of the free, a large block or an emptied page back with the page allocator and a slot newest in quarantine; it halts, changing nothing, if and only if the slot bytes checked hold the poison; other allocations keep their bytes and extents |
| `Heap.KernelHeap.UsableSize` | kernel/kmalloc.c:375-395 | The size of the allocation, by the right branch |
| `Heap.KernelHeap.Write` | kernel/kmalloc.c:174-238 | A client's write inside its allocation keeps the heap as it is and all other allocations' bytes |
| `Heap.KernelHeap.Relocate` | kernel/kmalloc.c:409-420 | The new allocation is refused as kmalloc refuses, the bytes are moved and the old one is freed, a slot into quarantine; how it ends is exact: done, stopped by the poison check, or a copy past the end of the new block when the size wrapped and the old block was larger than a page |
| `Heap.KernelHeap.Krealloc` | kernel/kmalloc.c:399-420 | The first min(old usable, new) bytes survive and so does every other allocation; it returns 0 exactly when the size is 0 or kmalloc refuses, stops exactly when kfree would, stays in place exactly within the size class, a slot it frees is the newest in quarantine, and the result is large enough if and only if at most 4 MiB - 8 bytes were asked |
| `HeapRun.Serve` | kernel/kmalloc.c:174-361 | A request to allocate, free, resize or write stops exactly when it frees a slot whose checked bytes hold the poison or its copy would leave the new block; otherwise the moment after it follows from the one before and the address returned |
| `HeapRun.Run` | kernel/kmalloc.c:174-361 | Any run goes through its requests one by one from the given state to the one it leaves, or to the first that stops; at every moment the heap is sound, its blocks are those the page allocator holds for it, and free and held pages add up to the same ones |
| `HeapRun.QuarantineOverRun` | kernel/kmalloc.c:295-312 | Over any part of a run the quarantine is what the slots freed in it leave there |
| `HeapRun.FreedSlotIsHeldBack` | kernel/kmalloc.c:242-361 | From any free of a slot on, by kfree or krealloc, while fewer than 32 slab slots have been freed since, the slot is in quarantine and nobody has it, and after 31 it is the next to leave |
| `HeapRun.BytesPersist` | kernel/kmalloc.c:174-420 | On every run an allocation that no request names keeps its place, its size and all its bytes, whatever is allocated, freed, moved and written meanwhile |
| `HeapRun.PageAllocatorRestored` | kernel/kmalloc.c:174-420 | Whenever the heap has the same pages and large blocks as at an earlier moment of a run, the page allocator is as it was then, free blocks included |
| `HeapRun.AllGivenBack` | kernel/kmalloc.c:174-420 | At any moment of a run when clients hold nothing the heap holds only the pages of quarantined slots, and if none is quarantined, the blocks held are those that others held at the start |
| `HeapRun.RecycledSlotStops` | kernel/kmalloc.c:268-361 | Taking and freeing 33 slots and taking one more returns the first of them, still poisoned, so that the one free of it by its new client is stopped |
| `Sched.EnqueueKeepsLists` | kernel/sched.c:72-79 | Making a task ready keeps bit p set exactly when queue p is not empty, queues in arrival order, and the deadline queue sorted with equal deadlines in arrival order |
| `Sched.TakeOffKeepsLists` | kernel/sched.c:81-128 | Taking the picked task off keeps the same, clearing the bit of an emptied queue |
| `Sched.PickIsExhaustive` | kernel/sched.c:389-401 | The pick is what a search of all tasks finds: earliest deadline first come first, else lowest level first come first, else idle; priority changes of queued tasks do not disturb it |
| `SchedRun.WakeDueExact` | kernel/sched.c:360-373 | The walk over the sleep queue makes ready exactly the sleepers whose time has come, in order, and leaves the others as they were |
| `SchedRun.ScheduleOnSleeper` | kernel/sched.c:377-427 | schedule wakes a sleeper if and only if its time has come |
| `SchedRun.SleepIsNotCutShort` | kernel/sched.c:305-319 | On no run is a sleeping task woken before its tick, runs that lose other tasks included |
| `SchedRun.ScheduleConservesIff` | kernel/sched.c:377-427 | schedule keeps every task in use current, idle or on exactly one list, if and only if the current task is not executing in state READY while another is picked; otherwise that task alone is lost |
| `SchedRun.ScheduleSteadyIff` | kernel/sched.c:403-406 | The early return leaves a task executing in state READY if and only if it picked the still current task off a ready list |
| `SchedRun.CreateKeepsInv` | kernel/sched.c:132-151 | A new task takes the lowest free control block and joins its queue; a failed stack allocation gives the block back |
| `SchedRun.ReapKeepsInv` | kernel/sched.c:494-524 | Reaping frees the block of a task that is on no list and not current |
| `SchedRun.StepKeepsInv` | kernel/sched.c:305-524 | Every other step keeps conservation, the task states and the lists |
| `SchedRun.RunKeepsInv` | kernel/sched.c:305-524 | Any run in which no schedule picks the still current task off a list conserves all tasks |
| `SchedRun.RunConservesIff` | kernel/sched.c:377-427 | The exact condition over runs: tasks are conserved throughout if and only if schedule is never called while the current task executes unmarked |
| `SchedRun.RunAccounts` | kernel/sched.c:305-524 | Every run from any such state keeps the lists and states right and every task accounted for, but for those that were current and unmarked when schedule was called |
| `SchedRun.RunLosesExactly` | kernel/sched.c:377-427 | The tasks a run loses are exactly those, and a lost task stays lost on every later run |
| `SchedRun.ExposedIsLost` | kernel/sched.c:403-412 | Such a task is lost by the very next schedule: in use, on no list, not current |
| `SchedRun.WakeBeforeSwitchLoses` | kernel/sched.c:403-427 | A task that blocks with nothing else ready and is woken before it has switched away is lost two schedules later |
| `SchedRun.BootTaskCanBeLost` | kernel/sched.c:528-578 | That happens from the state that sched_init leaves |
| `SchedRun.InitInv` | kernel/sched.c:528-578 | The state that sched_init leaves satisfies the invariant |
| `Scheduler.ReadyQueues.DeadlineEnqueue` | kernel/sched.c:107-121 | The insertion loop is the insertion before the first later deadline |
| `Scheduler.ReadyQueues.BitmapEnqueue` | kernel/sched.c:72-79 | The in-place enqueue is the enqueue of the model |
| `Scheduler.ReadyQueues.BitmapDequeue` | kernel/sched.c:81-92 | The in-place dequeue takes the pick off its queue |
| `Scheduler.ReadyQueues.WakeSleepers` | kernel/sched.c:360-373 | The removal-safe loop is the walk of the model, each node once |
| `Scheduler.ReadyQueues.Reschedule` | kernel/sched.c:377-427 | The method body is the schedule step of the model |
| `Scheduler.ReadyQueues.TaskSleep` | kernel/sched.c:305-319 | Sleeping is the sleep step of the model, one tick at least |
| `Scheduler.ReadyQueues.ReapDead` | kernel/sched.c:494-524 | The loop frees the control blocks of exactly the dead tasks |
| `MsgQueue.MessageBuffer.Enqueue` | kernel/msgqueue.c:22-31 | The circular buffer appends one message with its sender, cut at 64 bytes |
| `MsgQueue.MessageBuffer.Dequeue` | kernel/msgqueue.c:33-41 | and removes the oldest |
| `MsgQueue.RunKeepsInv` | kernel/msgqueue.c:45-135 | Every interleaving of any number of threads keeps the invariant |
| `MsgQueue.FifoOnEveryRun` | kernel/msgqueue.c:45-135 | Received followed by queued is what was sent, in order, each message carries the id of the thread that put it, and at most 16 are queued |
| `MsgQueue.NoLostWakeup` | kernel/waitqueue.c:30-50 | No receiver sleeps beside a message, and no sender beside a free slot, without a wake-up still owed or a thread about to try |
| `Semaphore.StepKeepsInv` | kernel/semaphore.c:13-69 | Each step keeps the count balanced and, while threads sleep, every unit of it matched by a thread about to try |
| `Semaphore.CountBalances` | kernel/semaphore.c:13-69 | On every run the count is initial + posts - completed waits, and never negative |
| `Semaphore.NoLostWakeup` | kernel/semaphore.c:36-54 | On every run a thread asleep while the count is positive implies one about to try |
| `Mutex.RunKeepsInv` | kernel/mutex.c:26-114 | Every run keeps one owner at most, the priorities and the wait list right |
| `Mutex.AtMostOneOwner` | kernel/mutex.c:26-45 | Two holders are the same thread |
| `Mutex.OwnerInherits` | kernel/mutex.c:49-54 | The owner's priority is the best of its own and of those that blocked during its tenure, and is one of these |
| `Mutex.UnlockRestores` | kernel/mutex.c:68-94 | Unlock leaves every thread, the owner included, at the priority it had at the start |
| `Mutex.NoLostWakeup` | kernel/mutex.c:82-91 | Unlocked with sleepers implies a woken contender |
| `Mutex.AcquireInvertsIff` | kernel/mutex.c:26-114 | Whoever takes the mutex, by lock or by trylock, is outranked by a sleeper if and only if a thread already asleep has a higher priority |
| `Mutex.BlockNeverInverts` | kernel/mutex.c:49-58 | Blocking on an owner that nobody outranks leaves it outranked by nobody |
| `Mutex.StepInvertsIff` | kernel/mutex.c:26-114 | No other step makes a sleeper outrank the owner |
| `Mutex.RunInvertsIff` | kernel/mutex.c:26-114 | Over runs: no sleeper ever outranks the owner if and only if the mutex is never taken while a thread of higher priority is asleep |
| `Mutex.InheritanceForgetsOldSleepers` | kernel/mutex.c:26-94 | A run after which the owner is outranked by a thread asleep since the earlier tenure |
| `Mutex.TryLockForgetsOldSleepers` | kernel/mutex.c:98-114 | The same through trylock, by the thread that has just released the mutex |
| `TicketLock.RunKeepsInv` | kernel/spinlock.h:35-58 | Every interleaving of fewer than 65536 threads in which no trylock swaps while the two words differ keeps tickets, holder and entries in step through 16-bit wrap-around |
| `TicketLock.RunSoundIff` | kernel/spinlock.h:35-58 | That is the exact condition: every state of a run is right if and only if no trylock of it swaps a word that differs from the one being served |
| `TicketLock.MutualExclusion` | kernel/spinlock.h:35-47 | At most one thread is inside |
| `TicketLock.FirstComeFirstServed` | kernel/spinlock.h:35-40 | Tickets enter in the order issued |
| `TicketLock.SomebodyCanGo` | kernel/spinlock.h:35-47 | While anybody contends, the ticket being served belongs to a thread |
| `TicketLock.FreeIffWordsEqual` | kernel/spinlock.h:35-58 | The lock is free if and only if the two 16-bit words are equal |
| `TicketLock.TrylockTakesFreeLock` | kernel/spinlock.h:53-58 | A trylock whose compare succeeds found the lock free, and leaves the state right, if and only if the two words are equal at the swap |
| `TicketLock.TimelyIsNotStale` | kernel/spinlock.h:53-58 | They are equal whenever fewer than 65536 tickets were issued since the one it read as served |
| `TicketLock.StaleSwapLetsTwoIn` | kernel/spinlock.h:53-58 | From every state where they differ the swap puts two threads inside, as soon as the thread being served looks |
| `TicketLock.WrappedTrylockBreaksExclusion` | kernel/spinlock.h:53-58 | A run in which, 65536 tickets after the one it read as served, a trylock enters a held lock |
| `TicketLock.WrappedTrylockMayBeHarmless` | kernel/spinlock.h:53-58 | After exactly 65536 tickets the lock may also be free, and the swap harmless |
| `TicketLock.FewerTicketsSinceLoadBreakExclusion` | kernel/spinlock.h:53-58 | 65535 tickets issued after a trylock's load of the served word are enough to break exclusion |
| `RwLock.RunKeepsInv` | kernel/rwlock.h:41-91 | On every run the three fields equal the true thread counts |
| `RwLock.WriterIsAlone` | kernel/rwlock.h:47-80 | A writer coexists with no reader and no other writer |
| `RwLock.NoReaderEnters` | kernel/rwlock.h:46-51 | While a writer waits nobody starts to read |
| `RwLock.LoadDrains` | kernel/rwlock.h:58-91 | A waiting writer is admitted if and only if nobody holds the lock; until then no step adds a holder and each release removes one |
| `RingBuf.IndexIsSpot` | kernel/ringbuf.h:69-71 | A wrapped and masked 32-bit position addresses the cell that the unbounded one would, for every power-of-two size |
| `RingBuf.UsedExact` | kernel/ringbuf.h:46-48 | The 32-bit difference of the positions is the true number of bytes held |
| `RingBuf.StoreExtends` | kernel/ringbuf.h:69-71 | A store at the next position extends the contents and overwrites no unread byte |
| `RingBuf.Ring.Write` | kernel/ringbuf.h:63-75 | Appends as many bytes as fit to the queue's contents |
| `RingBuf.Ring.Read` | kernel/ringbuf.h:78-90 | Removes the oldest bytes, as many as asked and held, and copies exactly these out |
| `RingSpsc.StepKeepsInv` | kernel/ringbuf.h:63-90 | Each single load, store or publication of either side keeps the unread bytes and the logs right |
| `RingSpsc.RunKeepsInv` | kernel/ringbuf.h:63-90 | So does every interleaving of one producer and one consumer |
| `RingSpsc.ReceivedIsPrefixOfSent` | kernel/ringbuf.h:63-90 | Received is a prefix of published, never more than a ring behind, and a read in progress holds exactly the next published bytes |
| `Klog.KernelLog.PutChar` | kernel/klog.c:22-34 | The log holds exactly the last 4096 characters ever put |
| `Klog.KernelLog.Write` | kernel/klog.c:36-38 | The same for a string up to its terminating zero |
| `Ktimer.UnlinkKeepsWheel` | kernel/ktimer.c:95-99 | Unlinking a timer keeps each active timer in its slot alone, and the count |
| `Ktimer.LinkKeepsWheel` | kernel/ktimer.c:39-44 | So does inserting one |
| `Ktimer.TickIsScan` | kernel/ktimer.c:106-141 | A tick of the wheel does to every timer what a scan of all timers would, timers re-armed into the same slot included |
| `Ktimer.StartedExact` | kernel/ktimer.c:48-87 | Starting arms the timer at now plus its delay, whether or not it was pending, and touches no other |
| `Ktimer.CancelledExact` | kernel/ktimer.c:91-102 | Cancelling disarms exactly that timer |
| `Ktimer.RunKeepsInv` | kernel/ktimer.c:39-141 | On every run each active timer is only in slot expires mod 256, none is overdue, and active_timers is the total of the slot lengths |
| `Ktimer.OneShotFiresOnce` | kernel/ktimer.c:48-66 | A one-shot fires exactly once, at start + max(1, ms/10), and never early |
| `Ktimer.RepeatingFiresAtMultiples` | kernel/ktimer.c:70-87 | A repeating timer fires at every multiple of its interval without drift, for every interval, those divisible by 256 included |
| `TimerWheel.Wheels.Arm` | kernel/ktimer.c:48-87 | The in-place start is the start of the model |
| `TimerWheel.Wheels.CancelTimer` | kernel/ktimer.c:91-102 | The in-place cancel is the cancel of the model |
| `TimerWheel.Wheels.OnTick` | kernel/ktimer.c:106-141 | The walk with its saved next node is the tick of the model, although it can come a second time to a timer armed again into the same slot |
| `Memmove.Memcpy` | kernel/string.c:62-99 | The chunked forward copy equals a snapshot copy when the regions are disjoint or the destination is lower |
| `Memmove.CopyBackwards` | kernel/string.c:114-144 | The chunked backward copy equals a snapshot copy when the destination is higher |
| `Memmove.Move` | kernel/string.c:101-147 | For every overlap the destination ends with the source's old bytes and nothing else changes |
| `Ext2.InodesApart` | kernel/ext2.c:115-124 | Different inodes of a group lie at offsets that do not overlap |
| `Ext2.ReadBlocks` | kernel/ext2.c:212-245 | The loop succeeds if and only if every block it needs lies in the image, and then has read exactly the bytes of the direct blocks, holes as zeros |
| `Ext2.ReadFile` | kernel/ext2.c:188-246 | Returns exactly the slice of the file's content asked for, cut at its size and twelve blocks, or the error the code gives; where the 64-bit sum wraps unseen, the same of a file that goes on past its size; the buffer behind what was read is untouched, behind the count when a block cannot be read, and all of it on any other error |
| `Ext2.ClampStaysInsideIff` | kernel/ext2.c:204-207 | The cut keeps the read inside the file if and only if the 64-bit sum does not wrap or wraps past the file's end |
| `Ext2.WrappedSumPassesEnd` | kernel/ext2.c:204-207 | A read from 1 of 2^64 - 1 bytes is not cut at the end of a file of two bytes |
| `Ext2.ReadsCompose` | kernel/ext2.c:188-246 | Two adjacent reads return, one after the other, what a single read returns, short reads included, and that one fails exactly when one of the two does |
| `Ext2.ReadInPieces` | kernel/ext2.c:188-246 | Reading on with a buffer of any size from 1 to 2^64 - 2^32 bytes until nothing comes gives the whole content, or an error exactly when a block of it cannot be read |

## Left out

- Hardware and boot: UART, console, keyboard, PCI, interrupt controllers, descriptor tables, context switch at register level, assembly stubs, panic.
- Locking inside the sequential models: each operation of the page allocator, the address space and the heap is one atomic step; interrupt flags are not modelled.
- Several cores in the scheduler and the blocking protocols: a section under a spinlock with interrupts off is one step, as it is on the one core the kernel runs on.
- Weak memory: the ring and the ticket lock are modelled with sequentially consistent steps; the barriers in the code are what makes that right.
- Page reference counts, per-class and large allocation statistics, free-page queries and dump functions.
- `pmm_init_test`: the same tiling loop over one region as `pmm_init`.
- Discovery of the kernel's physical base from the boot loader's tables, kernel stacks and guard pages, TLB flushes and shootdown: parameters or effects outside the flat map.
- 1 GB leaves: no operation creates one, so the walks never meet one.
- Entry words: an entry is a record of frame and flags rather than a 64-bit word.
- WxAudit.AuditTable: one method recursive in the level stands for the four nested loops.
- Slabs: the chain of free slots is a list; a link written over the first bytes of a slot stands there as a fixed byte value and not as an address, and the links written while a new page is built are not modelled.
- Heap.KernelHeap.FreeLarge: the header word is read from memory; a client that writes over it, or anywhere outside its own allocations, is not modelled, so the refusal of an order above the top one is never met.
- HeapRun.Run: one client makes requests, beside allocations that others hold; what others take from the page allocator does not change during the run.
- Heap.KernelHeap.Krealloc: when the copy would leave the new block the run ends there; what it would overwrite is not modelled.
- `kzmalloc`: kmalloc followed by a fill.
- Scheduler.ReadyQueues.DeadlineEnqueue: queues are sequences; the next and prev pointers of the intrusive lists are modelled in full only for the page allocator's lists.
- `task_join`, joiners woken at exit, the watchdog, quantum accounting and stacks of tasks.
- Semaphore, mutex, reader/writer lock and ticket lock as objects: what matters there is the interleaving of locked or atomic sections, so each is a step function on values; retry loops are repeated steps.
- Mutex: a holder that locks again, an unlock by a thread that does not hold the mutex, and priorities changed by anything but this mutex.
- TicketLock.RunKeepsInv: fewer than 65536 threads, the limit of a 16-bit ticket; runs with a swap while the two words differ are excluded, and `TicketLock.RunSoundIff` says that these are exactly the wrong ones.
- VmmBoot.Run: 2 MB mappings asked to be present, writable and executable are excluded, since `VmmBoot.ServedKeepsCleanIff` says that these are exactly the ones that do harm; ranges that wrap the address space are not modelled.
- `wq_wake_all`, kevent, the adaptive mutex, work queues, virtual file system, device files, memory pressure, rate limiter, formatted output.
- Timer callbacks that restart or cancel timers: a callback appends to the timer's log and does nothing else; ticks are consecutive and come after initialisation.
- RingBuf.Ring.Write: sizes are powers of two of at most 31 bits.
- Ext2.ReadFile: mounting and directory listing are not modelled; the group table is given as the list of inode table blocks, and a superblock with a zero block size or zero inodes per group, which mounting does not check, is excluded.
- Memmove: one array stands for memory, and a string move instruction is a sequence of whole eight-byte moves.
