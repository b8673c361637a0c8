# Rotary: a verified model of the kernel's memory management and scheduler

Rotary is a small 32-bit x86 kernel. This project models, in Dafny, the parts of it whose correctness
rests on invariants that no single function shows: the buddy page allocator over intrusive rings, the boot
memory allocator and its hand-over, the slab allocator under `kmalloc`, two-level page tables with shared
frames and address spaces built on them, the kernel's direct map, the round-robin scheduler, and the number
conversions.

Each subsystem comes in two layers. A module on values gives the meaning of every operation and proves the
properties over all states and all runs. A class then holds the fields and links that the C code updates in
place, and every method is proved to do to those fields what the value-level operation says. A lock/unlock
section is one atomic step.

| subsystem | on values | in place |
|---|---|---|
| page allocator | `Blocks`, `Buddy`, `BuddyOps`, `BuddyCanonical`, `Frames` | `Rings`, `FreeLists`, `BuddyImpl` |
| boot memory | `Boot` | `BootHandoff` |
| slabs and kmalloc | `Slabs`, `Kmalloc`, `KmallocRuns` | `KernelHeap` |
| page tables, address spaces | `PageTables`, `RefCounts`, `Sharing` | `PtableOps`, `VmSpaces`, `SpaceLife` |
| kernel direct map, start of memory | `KernelMap` | `KernelMap`, `BootSequence` |
| scheduler | `Tasks`, `RoundRobin` | `Scheduler` |
| number conversions | `Numerals` | `Conversions` |

`Kernel` holds what all of them share: optional results, return codes and the layout of addresses. The slab
caches and the page tables hold one page allocator and take their blocks and frames from it, each knowing the
other's as taken, so that what is proved of them reaches its free lists. `BootSequence` brings them up in the
order in which the kernel does.

The state of the page allocator carries one component that the kernel does not have: the ledger `used` of
the blocks that callers hold, with their orders. The kernel never records the order of an allocated block
and leaves stale `order` values in interior pages; the ledger is what makes it possible to say why the merge
test is right all the same.

## Where the code falls short

Each of these is stated as an exact condition, for all inputs.

- `buddy_get` does no bounds check. The buddy of every block in the page area lies in the area as well if and
  only if the page count is a multiple of 64 (`BuddyCanonical.BuddyLookupsInArea`); `buddy_init` uses the
  highest page number as it comes.
- `bootmem_add_mem_region` adds exactly the whole pages of a range outside the kernel image, if and only if the
  range is in neither of two families: one that starts inside the image and ends exactly at its page-aligned
  end, which is taken as it is, and one that surrounds the image when a single slot is left, of which the upper
  part is dropped although success is reported (`Boot.RegisterCarvesKernel`).
- `kfree` does not look whether an address inside a slab is an object in use. The caches are well formed
  afterwards if and only if it is, or no cache covers the address (`Kmalloc.ReleaseExact`).
- `vm_space_page_fault` does not look whether the page is mapped already, and a slab that `kmalloc` adds is never
  given back. From `vm_space_new` to `vm_space_destroy` every free list of the page allocator gets back the members
  it had if and only if no two faults were on the same page and the cache of the 16-byte `struct vm_space` had a
  free slot at the start (`SpaceLife.LifetimeExact`, `SpaceLife.LifeCycle`).
- `ptable_copy_range` ignores its end address when that lies in the same directory entry as the start, and
  runs to the end of the entry. For a destination that maps none of those pages, what it shares is exactly the
  source's pages up to the end address if and only if the end lies in another directory entry or the source
  maps nothing between it and the end of the entry (`Sharing.CopyEndExact`; `Sharing.CopyPastEnd` has the
  condition for any destination).
- `ptable_copy_range` with PTC_SHARE writes over entries that the destination has. Use counts stay equal to the
  number of entries, with no frame left over, if and only if the destination maps none of the pages that it
  is given (`Sharing.SharingAccounts`).
- `ptable_unmap` with freeing does not look whether the entry is present. It frees what the page maps if and
  only if the entry is present or there is no page table; otherwise it frees page zero
  (`PtableOps.UnmapFreesMapped`).
- If the idle task exits, the search of `task_schedule` ends if and only if some other task is waiting
  (`Tasks.IdleExit`).
- `int_to_str` writes the decimal numeral of every 32-bit value except -2^31, whose negation overflows
  (`Numerals.IntTextIsNumeral`). With wrapping arithmetic `atoi` still returns -2^31 from the characters that
  it does write (`Numerals.AtoiUndoesIntText`), but the computation is free of overflow only for the other
  values (`Numerals.NoOverflowIff`).
- `page_is_critical` looks at the first byte of a page only. It refuses exactly the pages that hold a byte of the
  kernel image if and only if the image starts on a page boundary (`BuddyImpl.CriticalExact`).
- Two remarks in the comments are not what the code does: `page_is_critical` says that it covers the page
  structures, but it tests the kernel image only; `kfree` says that it returns an error on failure, but it
  ignores the result of `slab_free`. The model follows the code.

## Model

| member | source | states |
|---|---|---|
| Blocks.BuddyPair | kernel/mm/palloc.c:428-451 | flipping bit k of an aligned page number gives the other half of the same parent block, twice gives it back, and clearing the bit gives the parent's start |
| Blocks.HalvesCover | kernel/mm/palloc.c:380-385 | an aligned block is exactly the union of its two halves |
| Blocks.InArea | kernel/mm/palloc.c:450-453 | an aligned block that starts inside an aligned area ends inside it |
| Buddy.BuddyIsHead | kernel/mm/palloc.c:407-419 | whatever block covers the buddy of a block in use is headed by that buddy and is no larger |
| Buddy.MergeTestExact | kernel/mm/palloc.c:411-419 | despite stale orders, the test on the buddy's order and flag holds if and only if the buddy heads a free block of the same order |
| Buddy.GrowKeepsInvariant | kernel/mm/palloc.c:421-434 | one merge round keeps the partition into aligned disjoint blocks, the order fields at block heads and full coalescing, with the parent as the block in flight |
| Buddy.GrowLeavesStale | kernel/mm/palloc.c:430-432 | one merge round writes one order field, that of the head of the upper half, which is then inside a larger block and heads none |
| Buddy.AddKeepsCore | kernel/mm/palloc.c:480-485 | listing the block in flight keeps the whole block structure provided its buddy is not free |
| Buddy.MergeEffect | kernel/mm/palloc.c:404-441 | merging makes exactly the pages of the block free, leaves every other holder alone, and ends fully coalesced |
| BuddyOps.HalveKeepsCore | kernel/mm/palloc.c:377-385 | splitting a block and keeping the lower half in use leaves a valid, coalesced structure |
| BuddyOps.CarveEffect | kernel/mm/palloc.c:49-71 | page_alloc's block was entirely free, exactly its pages stop being free, and the ledger gains that block |
| BuddyOps.LeastOrder | kernel/mm/palloc.c:358-367 | the order that the recursive split reaches is the least one at or above the request with a free block |
| BuddyOps.CarveExact | kernel/mm/palloc.c:350-388 | one block of the least possible order is consumed, one new free block appears at each order below it down to the request, all other lists keep their contents |
| BuddyOps.AllocEffect | kernel/mm/palloc.c:37-78 | page_alloc fails if and only if the order is invalid or no free block is large enough, changing nothing; otherwise it returns an aligned block of free pages, sets its use count to one, and keeps the invariant |
| BuddyOps.FreeEffect | kernel/mm/palloc.c:94-127 | a shared block only loses one user; the last user gives exactly its pages back; the invariant is kept |
| BuddyOps.InitialFreeEffect | kernel/mm/palloc.c:142-146 | freeing an invalid page at boot adds exactly that page to the free pages and keeps the invariant |
| BuddyCanonical.FullBlockCovered | kernel/mm/palloc.c:404-441 | if every page of an aligned block is free, one single free block covers it |
| BuddyCanonical.CanonicalForm | kernel/mm/palloc.c:350-441 | the free blocks are exactly the maximal aligned blocks of free pages |
| BuddyCanonical.FreePagesDetermineLists | kernel/mm/palloc.c:350-441 | two states with the same free pages have the same members, and as many, in each of the seven lists |
| BuddyCanonical.ListsIffFreePages | kernel/mm/palloc.c:350-441 | two states have the same free pages if and only if each of the seven lists has the same members in both |
| BuddyCanonical.AddUserEffect | include/rotary/mm/palloc.h:60-61 | adding a user keeps the invariant and the free pages and changes one count |
| BuddyCanonical.StepKeepsInv | kernel/mm/palloc.c:37-146 | every operation keeps the buddy invariant and the page area |
| BuddyCanonical.RunKeepsInv | kernel/mm/palloc.c:37-146 | every run of operations keeps the buddy invariant |
| BuddyCanonical.InitialInv | kernel/mm/palloc.c:288-333 | what buddy_init leaves satisfies the invariant with no page free |
| BuddyCanonical.FreeIsValidUnused | kernel/mm/palloc.c:309-310 | the free pages are exactly the valid pages that nobody holds |
| BuddyCanonical.RunsConfluent | kernel/mm/palloc.c:37-146 | any two runs that leave the same pages valid and in use leave the same free blocks, order by order |
| BuddyCanonical.FreeingAllRestores | kernel/mm/palloc.c:37-127 | once everything is given back, in whatever order and after whatever history, the free blocks are those from after boot |
| BuddyCanonical.BuddyLookupsInArea | kernel/mm/palloc.c:450-453 | the buddy of every block in the page area lies in it as well if and only if the page count is a multiple of 2^ORDER_MAX |
| BuddyCanonical.EscapingBuddy | kernel/mm/palloc.c:450-453 | any other page count has a block wholly in the area whose buddy starts just past it |
| BuddyCanonical.PageAccounting | kernel/mm/palloc.c:425-484 | the sum of free_count[k] times 2^k is the number of free pages |
| Rings.AddRing | include/rotary/list.h:55-65 | the four pointer writes of clist_add insert the node after the head of the ring |
| Rings.DeleteRing | include/rotary/list.h:97-102 | the two pointer writes of clist_delete_node leave the ring without that node, in order |
| Rings.OtherRing | include/rotary/list.h:55-102 | writes to the nodes of one ring leave a disjoint ring as it was |
| Rings.NodeMemory.ClistInit | include/rotary/list.h:46-51 | a node becomes a ring by itself |
| Rings.NodeMemory.ClistAdd | include/rotary/list.h:55-65 | exactly the pointers that clist_add writes change |
| Rings.NodeMemory.ClistDeleteNode | include/rotary/list.h:97-102 | exactly two pointers change, and the deleted node keeps its own |
| FreeLists.LastNode | kernel/mm/palloc.c:214-224 | the head's prev pointer leads to the last element of the list |
| FreeLists.LinkFront | kernel/mm/palloc.c:480-485 | linking behind the head and counting puts the page at the front of its list and leaves the other six rings alone |
| FreeLists.Unlink | kernel/mm/palloc.c:464-467 | unlinking a page and counting down removes it from its list and leaves the other six rings alone |
| BuddyImpl.TakingLastCarves | kernel/mm/palloc.c:62-65 | after a split the block at the back of the list is the lower half, and taking it restores full coalescing |
| BuddyImpl.MergeRound | kernel/mm/palloc.c:407-435 | the code's tests decide between one more round and stopping exactly as the specification does |
| BuddyImpl.InitRings | kernel/mm/palloc.c:289-332 | the two set-up loops leave every list head a ring by itself |
| BuddyImpl.BuddyAllocator.constructor | kernel/mm/palloc.c:288-333 | buddy_init leaves seven empty rings, every page invalid, and the invariant |
| BuddyImpl.CriticalExact | kernel/mm/palloc.c:173-190 | page_is_critical refuses exactly the pages that hold a byte of the kernel image if and only if the image starts on a page boundary or is empty |
| BuddyImpl.BuddyAllocator.PageGetLast | kernel/mm/palloc.c:214-224 | returns the last block of a non-empty list |
| BuddyImpl.BuddyAllocator.RemoveBlock | kernel/mm/palloc.c:464-468 | the block leaves the list named by its order field and is marked as used |
| BuddyImpl.BuddyAllocator.AddBlock | kernel/mm/palloc.c:480-485 | the block is at the front of its list with its order set and counted |
| BuddyImpl.BuddyAllocator.SplitBlock | kernel/mm/palloc.c:350-388 | succeeds if and only if a block of that order or above is free, leaving two buddies one order below ready to be taken; otherwise changes nothing; recursion ends at ORDER_MAX |
| BuddyImpl.BuddyAllocator.PageAlloc | kernel/mm/palloc.c:37-78 | result and new state are exactly those of the specification, rings and counts included |
| BuddyImpl.BuddyAllocator.MergeBuddy | kernel/mm/palloc.c:421-432 | one merge round in place |
| BuddyImpl.BuddyAllocator.MergeBlock | kernel/mm/palloc.c:404-441 | the loop computes the specified merge |
| BuddyImpl.BuddyAllocator.PageFree | kernel/mm/palloc.c:94-127 | refuses no page and kernel pages without change; otherwise does exactly the specified free |
| BuddyImpl.BuddyAllocator.IncUses | include/rotary/mm/palloc.h:60-60 | one use count of a block in use rises by one, and the invariant stays |
| BuddyImpl.BuddyAllocator.MarkFree | kernel/mm/bootmem.c:97-100 | clearing the flag and merging does exactly the specified boot free |
| Boot.AlignUpExact | arch/x86/include/arch/ptable.h:43-44 | in 32-bit arithmetic below the top, ALIGN gives an aligned address less than one alignment above |
| Boot.AlignUpLeast | arch/x86/include/arch/ptable.h:43-44 | no smaller aligned address will do |
| Boot.PageDownExact | arch/x86/include/arch/ptable.h:45-50 | PAGE_ALIGN_DOWN gives the page boundary at or just below |
| Boot.RegisterKeepsInv | kernel/mm/bootmem.c:138-228 | registration keeps regions disjoint, page aligned and off the kernel, and the highest page the largest end of a region, for every range but the one that slips through |
| Boot.RegisterSucceedsIff | kernel/mm/bootmem.c:151-183 | registration succeeds if and only if a slot is free, the type is known, the range has a whole page and does not lie inside the kernel short of its end; otherwise nothing changes |
| Boot.RegisterCarvesKernel | kernel/mm/bootmem.c:151-198 | a successful registration adds exactly the whole pages of the range outside the kernel, if and only if the range neither slips through nor loses its upper part for want of a slot |
| Boot.FirstFit | kernel/mm/bootmem.c:256-274 | the slot chosen is the first available region with room |
| Boot.AllocKeepsInv | kernel/mm/bootmem.c:253-278 | a new allocation is aligned, cut from the front of one available region, and disjoint from all others |
| Boot.AllocExact | kernel/mm/bootmem.c:253-278 | a request is served if and only if some available region has room at an aligned address; it gets the least such address of the first such region, which then starts right after it, and all other regions stay |
| Boot.StartInv | kernel/mm/bootmem.c:294-298 | the allocator as it is reset satisfies the invariant |
| Boot.BootRunsSafe | kernel/mm/bootmem.c:138-278 | after any registrations and allocations in any order, from the reset state or any other that satisfies the invariant, allocations are aligned, pairwise disjoint, off the kernel and gone from the regions |
| Boot.RegionsRegistered | kernel/mm/bootmem.c:203-223 | over every run each region is part of the whole pages of a range that was registered, with the type it was registered with |
| Boot.IssuedIsolated | kernel/mm/bootmem.c:253-278 | byte by byte: a boot allocation lies in available memory and meets neither the kernel, nor what is left of any region, nor another allocation |
| BootHandoff.LeftOverSafe | kernel/mm/bootmem.c:77-104 | a page handed over holds no byte of the kernel or of a boot allocation, and page_free will not refuse it |
| BootHandoff.WholePageBytes | kernel/mm/bootmem.c:86-91 | a page is handed over exactly if all of its bytes are left in a region |
| BootHandoff.NestedCallsStore | kernel/mm/bootmem.c:187-191 | the two self-calls of the split record exactly the two parts |
| BootHandoff.SplitCalls | kernel/mm/bootmem.c:187-191 | the two self-calls one after the other have the effect of the split, with two slots or with one |
| BootHandoff.BootMemory.AddMemRegion | kernel/mm/bootmem.c:138-228 | the array, counters and result are those of the specification, self-calls included |
| BootHandoff.BootMemory.StoreRegion | kernel/mm/bootmem.c:203-223 | the first empty slot takes the region and the highest page is kept |
| BootHandoff.BootMemory.Alloc | kernel/mm/bootmem.c:253-278 | result and regions are those of the specification |
| BootHandoff.BootMemory.MarkRegion | kernel/mm/bootmem.c:86-103 | exactly the whole pages of the region are freed, each once |
| BootHandoff.BootMemory.MarkFree | kernel/mm/bootmem.c:52-118 | the buddy lists receive exactly the whole pages left in the regions, and the pages freed equal the sum of free_count[k] times 2^k; fails only without regions |
| Slabs.SlotsDisjoint | kernel/mm/slab.c:203-224 | different slots of a slab do not overlap |
| Slabs.CountFills | kernel/mm/slab.c:207-211 | the slots fill the block after its header, with no room for another |
| Slabs.NewSlabOk | kernel/mm/slab.c:234-252 | a new slab's list is ascending and holds every slot |
| Slabs.InsertIs | kernel/mm/slab.c:80-106 | insertion keeps the list strictly ascending and adds exactly the object |
| Slabs.TakeLowest | kernel/mm/slab.c:164-174 | taking the head takes the lowest free slot and leaves an ascending list of the rest |
| Slabs.AscendingUnique | kernel/mm/slab.c:80-106 | the free list is determined by the set of free slots |
| Slabs.AllFreeIsInitial | kernel/mm/slab.c:234-252 | once every slot is free again the list is the one the slab started with |
| Slabs.ChainPush | kernel/mm/slab.c:85-86 | the two writes at the front thread the object in as the first |
| Slabs.ChainInsert | kernel/mm/slab.c:85-106 | the two writes behind a free object thread the object in at that place |
| Slabs.InsertAt | kernel/mm/slab.c:81-97 | the place where the search stops is the place in ascending order |
| Kmalloc.ClassFrom | kernel/mm/kmalloc.c:55-61 | the class found fits and no smaller one does |
| KmallocRuns.PowerOfTwo | kernel/mm/kmalloc.c:15-61 | a request of up to 32768 bytes gets the least power of two from 8 on that holds it, and a larger one fails |
| Kmalloc.FirstFree | kernel/mm/slab.c:127-140 | the slab found has a free slot and none before it has |
| Kmalloc.RangeIsUnique | kernel/mm/slab.c:76-79 | although its end bound overshoots the slab by one header, slab_free's range test holds for no other slab than the object's |
| Kmalloc.FreeFindsIssuer | kernel/mm/kmalloc.c:80-85 | kfree finds the one cache and slab_free the one slab that issued an object |
| Kmalloc.ObjectsDisjoint | kernel/mm/slab.c:203-252 | objects at different addresses are disjoint within a slab, across slabs and across caches |
| Kmalloc.MallocEffect | kernel/mm/kmalloc.c:52-67 | a successful kmalloc hands out the lowest free slot of the first slab with one in the smallest fitting class, which was not handed out, and nothing else changes hands; failure changes nothing |
| Kmalloc.TakeEffect | kernel/mm/slab.c:153-177 | exactly the lowest free slot of the slab becomes live |
| Kmalloc.AddSlabKeepsHeap | kernel/mm/slab.c:190-254 | a slab in a block of its own keeps all caches well formed |
| Kmalloc.ReleaseEffect | kernel/mm/kmalloc.c:79-89 | kfree of a live object ends the life of exactly that object |
| Kmalloc.ReleaseExact | kernel/mm/kmalloc.c:79-89 | the caches are well formed after kfree if and only if the address is a live object or no cache covers it |
| KmallocRuns.KmallocEffect | kernel/mm/kmalloc.c:52-67 | kmalloc fails if and only if the request is above the largest class, or a new slab is needed and no block of sixteen pages can be had; otherwise the address was held by nobody |
| KmallocRuns.BlockForSlab | kernel/mm/slab.c:195-205 | a block from page_alloc is aligned to its length and holds no other slab |
| KmallocRuns.KfreeEffect | kernel/mm/kmalloc.c:79-89 | kfree succeeds exactly on held addresses, gives up exactly that one, and an unknown address changes nothing |
| KmallocRuns.GetGive | kernel/mm/kmalloc.c:52-89 | kfree of what kmalloc just gave puts the caches back as they were, but for a slab that had to be added |
| KmallocRuns.PagesFollow | kernel/mm/slab.c:195-205 | whatever others do to the page allocator, the caches stay sound as long as the blocks of their slabs stay in use |
| KmallocRuns.ObtainSlabs | kernel/mm/slab.c:190-218 | the blocks of all slabs after kmalloc are those from before and the one it took |
| KmallocRuns.StepKeepsInv | kernel/mm/kmalloc.c:52-89 | kmalloc, kfree and other users of the page allocator keep every slab in a block in use and the ledger of live objects exact |
| KmallocRuns.RunKeepsInv | kernel/mm/kmalloc.c:52-89 | so does every run |
| KmallocRuns.BootInv | kernel/mm/kmalloc.c:15-29 | empty caches satisfy the invariant |
| KmallocRuns.AllocationsSafe | kernel/mm/kmalloc.c:52-67 | after any run a live object is at least as long as asked for, from the smallest size that fits, and disjoint from every other |
| KmallocRuns.ObjectsOffOtherPages | kernel/mm/slab.c:195-218 | after any run an object touches no free page and no page of a block handed to anyone but a slab |
| KmallocRuns.AllGivenBack | kernel/mm/slab.c:68-113 | after any run that gives every object back, every slab's free list is its initial one |
| KernelHeap.StoreShows | kernel/mm/slab.c:232-252 | bytes that a caller writes inside an object it holds meet no link word of a free list |
| KernelHeap.KernelHeap.Store | kernel/mm/slab.c:232-252 | whatever bytes are written there, all caches stay as they were |
| KernelHeap.KernelHeap.SlabAllocFromSlab | kernel/mm/slab.c:153-177 | the head of the list is returned and unlinked with the count lowered; an empty slab gives nothing |
| KernelHeap.KernelHeap.SlabAllocFromCache | kernel/mm/slab.c:127-140 | takes from the first slab with a free slot |
| KernelHeap.ThreadSlots | kernel/mm/slab.c:234-252 | the loop threads all slots in ascending order and touches no other word |
| KernelHeap.KernelHeap.NewSlab | kernel/mm/slab.c:201-252 | given a block, the cache gains one slab at the end with every slot free, and its totals say what its slabs take up |
| KernelHeap.Tallies | kernel/mm/slab.c:216-218 | total_size and alloc_count of a cache count the same memory, sixteen pages for each slab |
| KernelHeap.KernelHeap.SlabAddCacheFrame | kernel/mm/slab.c:190-254 | takes sixteen pages from the page allocator for the new slab; without them nothing changes |
| KernelHeap.KernelHeap.SlabMalloc | kernel/mm/slab.c:34-52 | allocates from an existing slab if possible without touching the page allocator, otherwise from a new one, or not at all |
| KernelHeap.KernelHeap.Kmalloc | kernel/mm/kmalloc.c:52-67 | pointer, caches and page allocator are exactly those of the step on values, over which all runs are safe |
| KernelHeap.KernelHeap.SlabCacheHasAddr | kernel/mm/slab.c:268-276 | true exactly when the address lies after the header and before the end of some slab |
| KernelHeap.KernelHeap.Thread | kernel/mm/slab.c:80-106 | the pointer-to-pointer walk inserts the object into the ascending list |
| KernelHeap.KernelHeap.SlabFree | kernel/mm/slab.c:68-113 | succeeds exactly for an address after the header of some slab and before its end plus one header; the first such slab gets the object back |
| KernelHeap.ThreadedShows | kernel/mm/slab.c:80-106 | where the search stops, the two writes leave the free list of this slab with the object in its place and all others as they were |
| KernelHeap.KernelHeap.FreeObject | kernel/mm/kmalloc.c:80-85 | the loop finds the cache and gives the object back as specified |
| KernelHeap.KernelHeap.Kfree | kernel/mm/kmalloc.c:79-89 | succeeds exactly for a held object, and does exactly the step on values |
| Frames.CanTakeIff | kernel/mm/palloc.c:49-60 | a single page can be had if and only if some page is free |
| Frames.AllocTakes | kernel/mm/palloc.c:37-78 | page_alloc of order 0 takes one free frame from the pool the page tables see, or fails if there is none |
| Frames.FreeDrops | kernel/mm/palloc.c:94-127 | page_free of order 0 drops one user, or returns the frame |
| Frames.ShareAddsUser | include/rotary/mm/palloc.h:60-61 | adding a user adds one to the frame's count in the pool |
| Frames.OthersTake | kernel/mm/palloc.c:37-78 | page_alloc of any order by others takes its pages from the free frames and touches no frame of the page tables |
| Frames.OthersGive | kernel/mm/palloc.c:94-127 | page_free by others of a block they hold gives its pages back once its last user is gone, and touches no frame of the page tables |
| Frames.ShownUses | kernel/mm/palloc.c:109-124 | a page in the free lists has use count zero, and a frame handed out has the count that the pool says |
| PageTables.WalkIsLookup | arch/x86/include/arch/ptable.h:53-84 | the two-level walk reads the plain map from virtual page to entry |
| PageTables.SetLeafAgrees | kernel/mm/ptable.c:128-133 | writing one table entry changes the map at exactly that page of that directory |
| PageTables.SetLeafKernel | kernel/mm/ptable.c:131-133 | writing one table entry changes nothing else in memory and leaves the kernel half of every directory the kernel's own |
| PageTables.AddTableAgrees | kernel/mm/ptable.c:117-126 | hanging in a cleared table changes no translation |
| PageTables.AddDirAgrees | kernel/mm/ptable.c:35-44 | a new directory maps nothing in the user half and disturbs no other |
| PageTables.WithoutDirAgrees | kernel/mm/ptable.c:83-84 | dropping a directory disturbs no other |
| PageTables.EntryFields | arch/x86/include/arch/ptable.h:61-71 | the frame, flags and present bit read back from a made entry are those it was made of |
| PageTables.FlagBits | arch/x86/include/arch/ptable.h:61-101 | frame and each flag read off an entry are those it was made of |
| PageTables.TableEntryFields | kernel/mm/ptable.c:122-125 | the directory entry of a page table is present, writable, for user code and small, and points at the table |
| PageTables.WritableFields | arch/x86/include/arch/ptable.h:100-101 | setting the writable bit sets it and keeps every other bit |
| PageTables.ClearedFields | kernel/mm/ptable.c:189-191 | a cleared entry is absent with frame zero and keeps its other flags |
| RefCounts.TakeTable | kernel/mm/ptable.c:119-125 | a frame taken for a table keeps every count exact |
| RefCounts.TakeLeaf | kernel/mm/vm.c:145-150 | a fresh frame mapped once has use count one, the number of its entries |
| RefCounts.OverwriteLeaf | kernel/mm/ptable.c:131-133 | writing over the only entry for a frame leaves that frame in use with no entry for it, and nothing else unaccounted for |
| RefCounts.ShareLeaf | kernel/mm/ptable.c:280-286 | sharing keeps every use count equal to the number of entries for the frame |
| RefCounts.DropLeaf | kernel/mm/ptable.c:71-76 | the frame returns to the free frames exactly when its last entry goes |
| RefCounts.MappedIsUsed | kernel/mm/ptable.c:280-286 | a mapped frame is in use, never free, and counted exactly |
| RefCounts.SharedUntilLast | kernel/mm/ptable.c:55-85 | if every directory is freed with exact counts, a shared frame is in use as long as one not yet freed maps it and is free from then on, in any order; TearDown shows that the code frees them so |
| PtableOps.LeafEntryFields | kernel/mm/ptable.c:106-111 | the entry of a page is present and for user code, points at its frame, and is writable exactly if asked for |
| PtableOps.MapRangeIs | kernel/mm/ptable.c:149-155 | the whole contiguous range maps to contiguous frames and nothing else changes |
| PtableOps.UnmapRangeIs | kernel/mm/ptable.c:209-213 | exactly the range stops being mapped |
| PtableOps.MapUnmapRoundTrip | kernel/mm/ptable.c:149-213 | unmapping the range undoes mapping it if and only if it was unmapped before |
| Sharing.CopyPastEnd | kernel/mm/ptable.c:264-270 | exactly the source's pages up to the end address are shared if and only if the end lies in another directory entry, or each page it maps from there to the end of the entry had the same entry in the destination already |
| Sharing.CopyEndExact | kernel/mm/ptable.c:264-270 | for a destination that maps none of them: if and only if the end lies in another directory entry than the start, or the source maps nothing from it to the end of the entry |
| Sharing.ShareSurplus | kernel/mm/ptable.c:280-286 | sharing never lowers a use count below its entries, and writing over an entry leaves its frame with one user too many |
| Sharing.SharedBoth | kernel/mm/ptable.c:239-305 | sharing one range and then the next is sharing both together, entries and counts |
| Sharing.SharingAccounts | kernel/mm/ptable.c:280-286 | counts stay exact with nothing left over if and only if the destination maps none of the pages it is given |
| PtableOps.UnmapFreesMapped | kernel/mm/ptable.c:168-187 | what is freed is what the page maps if and only if the entry is present or there is no table; otherwise page zero |
| PtableOps.BootPool | kernel/mm/bootmem.c:71-104 | after the hand-over no frame is handed out, and no free one belongs to the kernel image |
| PtableOps.PageTableMemory.Follow | kernel/mm/palloc.c:37-127 | after others have used the page allocator the page tables stand as they were, over the pool it shows now |
| PtableOps.PageTableMemory.AllocFrame | include/rotary/mm/palloc.h:123-125 | page_alloc of the page allocator takes a free frame from the pool, or there is none |
| PtableOps.PageTableMemory.FreeFrame | include/rotary/mm/palloc.h:133-137 | page_free of the page allocator drops one user of the frame |
| PtableOps.PageTableMemory.ShareFrame | kernel/mm/ptable.c:283-285 | one more user for the frame in the page allocator |
| PtableOps.PageTableMemory.PgdNew | kernel/mm/ptable.c:35-44 | one frame becomes a directory with the kernel's entries, which it keeps, and an empty user half |
| PtableOps.PageTableMemory.Map | kernel/mm/ptable.c:103-134 | translation changes at exactly one virtual page, also when a table has to be allocated; at most one frame is taken; the kernel half of every directory and all other tables stay as they are |
| PtableOps.PageTableMemory.MapMany | kernel/mm/ptable.c:149-155 | the loop maps exactly the specified range; afterwards every slot of the range has a page table, no other was added, and the frames taken are exactly those of the new tables |
| PtableOps.PageTableMemory.Unmap | kernel/mm/ptable.c:168-191 | without freeing, exactly one virtual page stops being mapped, and exactly one entry in memory is cleared |
| PtableOps.PageTableMemory.UnmapFree | kernel/mm/ptable.c:168-191 | with freeing, the frame loses one user and the counts stay exact |
| PtableOps.PageTableMemory.UnmapMany | kernel/mm/ptable.c:209-213 | the loop unmaps exactly the specified range |
| PtableOps.PageTableMemory.GetPte | kernel/mm/ptable.c:342-354 | gives the place of the entry of the page, or nothing without a table |
| PtableOps.PageTableMemory.ShareEntry | kernel/mm/ptable.c:273-286 | one present source entry appears in the destination, over whatever was there, with one more user for its frame |
| PtableOps.PageTableMemory.ShareTable | kernel/mm/ptable.c:272-304 | the inner loop shares exactly the present entries of its bounds |
| PtableOps.PageTableMemory.ShareRange | kernel/mm/ptable.c:227-306 | the nested loops share exactly the pages mapped by the source within the bounds the code uses; counts account for every frame afterwards if and only if the destination mapped none of them |
| PtableOps.PageTableMemory.FreeTable | kernel/mm/ptable.c:71-76 | every present entry of one table loses its frame once |
| PtableOps.PageTableMemory.FreeSlot | kernel/mm/ptable.c:60-81 | one directory slot gives up its pages and its table |
| PtableOps.PageTableMemory.PgdFree | kernel/mm/ptable.c:55-85 | exactly the directory's own frames, tables and entries go; other directories, other holders and the total of frames are untouched |
| PtableOps.PageTableMemory.TearDown | kernel/mm/ptable.c:55-85 | freeing several directories in any order, after each of them: counts are exact, the use count that the page allocator has for a frame mapped at the start is the number of entries left for it, and the frame is among its free pages exactly when there are none |
| VmSpaces.FaultAccounts | kernel/mm/vm.c:144-153 | one fault takes frames that are all accounted for, except that a fault on a mapped page strands the old frame |
| VmSpaces.FaultsAccount | kernel/mm/vm.c:108-153 | after any faults nothing is stranded if and only if every fault was the first on its page |
| VmSpaces.LifetimeConserves | kernel/mm/vm.c:42-60 | from the new directory through any faults to its end other spaces are untouched, and the free frames are back to what they were if and only if no page faulted twice |
| VmSpaces.LifetimeRestoresLists | kernel/mm/vm.c:42-60 | the same of the page allocator: its free pages are back, and each of its seven lists has the members it had, if and only if no page faulted twice |
| VmSpaces.AddressSpace.Touch | kernel/mm/vm.c:108-129 | faults one after the other are exactly the fault steps of the covered addresses, in order |
| VmSpaces.AddressSpace.constructor | kernel/mm/vm.c:41-44 | with the object allocated, one frame is taken for an empty directory, and the space has no mappings |
| VmSpaces.AddressSpace.AddMap | kernel/mm/vm.c:74-76 | the mapping becomes the first of the list |
| VmSpaces.AddressSpace.PageFault | kernel/mm/vm.c:108-129 | resolved if and only if some mapping covers the address and a frame is free, by exactly one fault step; otherwise nothing changes; counts stay exact as long as the space shares no frame |
| VmSpaces.AddressSpace.MapPage | kernel/mm/vm.c:144-153 | a frame is mapped at the page, or nothing changes when there is none |
| VmSpaces.AddressSpace.FreeTables | kernel/mm/vm.c:58-60 | the directory is torn down with every frame settled |
| SpaceLife.ObjectTaken | kernel/mm/vm.c:35-39 | kmalloc for the object leaves the page tables' frames alone; free frames become the block of a slab exactly when its cache has no free slot |
| SpaceLife.LifetimeExact | kernel/mm/vm.c:34-63 | object and page tables together: free pages and all seven lists are back if and only if no page faulted twice and the object's cache had a free slot |
| SpaceLife.VmSpaceNew | kernel/mm/vm.c:34-45 | without memory for the object there is no space and no change; otherwise the object is live and the space has an empty directory |
| SpaceLife.VmSpaceDestroy | kernel/mm/vm.c:58-63 | every frame of the page tables is settled and exactly the object is given back |
| SpaceLife.LiveAndDie | kernel/mm/vm.c:58-153 | mappings, faults at any addresses and the end are one lifetime, with a fault for each covered address |
| SpaceLife.LifeCycle | kernel/mm/vm.c:34-153 | new, add mappings, fault at any addresses, destroy: other spaces and live objects are as before, and free pages and free lists of the page allocator are restored if and only if no two of the covered addresses lie in one page and the object's cache had a free slot |
| KernelMap.SlotTranslates | arch/x86/kernel/paging.c:51-79 | a directory slot made of a 4 MB page and one made of a page table translate every address alike: the address less KERNEL_START_VIRT |
| KernelMap.LargeFields | arch/x86/kernel/paging.c:52-56 | a 4 MB entry is present, writable, not for user code, global exactly if asked for, and has its address |
| KernelMap.SmallFields | arch/x86/kernel/paging.c:69-73 | so is a 4 KB entry |
| KernelMap.DirFields | arch/x86/kernel/paging.c:76-78 | and the entry of a page table, which is small |
| KernelMap.NewFrame | kernel/mm/bootmem.c:253-278 | a further page of boot memory is aligned and is a frame not handed out before |
| KernelMap.OneMoreTable | arch/x86/kernel/paging.c:61-79 | a table in a frame of its own leaves the slots set up before as they are |
| KernelMap.KernelDirectory.FillTable | arch/x86/kernel/paging.c:68-74 | the inner loop fills a table that maps its 4 MB directly |
| KernelMap.KernelDirectory.LargePages | arch/x86/kernel/paging.c:51-57 | the 4 MB branch sets up every slot of the direct map and leaves the user half alone |
| KernelMap.KernelDirectory.Tables | arch/x86/kernel/paging.c:61-96 | hangs a table of its own into every slot of a range, or reports that boot memory ran out |
| KernelMap.KernelDirectory.SetupKernelPgd | arch/x86/kernel/paging.c:39-101 | in both branches every address from KERNEL_START_VIRT up to KMAP_START_VIRT translates to itself less KERNEL_START_VIRT, the kmap area to nothing yet, and the user half is untouched; all page tables are boot allocations, and those made before stay on the ledger |
| BootSequence.LeftOverClear | kernel/mm/bootmem.c:71-104 | no page handed over has a byte of the kernel image or of any boot allocation |
| BootSequence.TablesKept | arch/x86/kernel/paging.c:61-96 | no page table of the kernel is among the free pages |
| BootSequence.StartMemory | arch/x86/kernel/init.c:67-88 | paging set-up, page structures and hand-over, in this order: the direct map holds, and what the page allocator has to give has no byte of the kernel, its page tables, the page structures or any other boot allocation |
| BootSequence.StartHeapAndTables | arch/x86/kernel/init.c:67-88 | slab caches and page tables start together on that page allocator with their joint invariant |
| BootSequence.PageAddressTranslates | include/rotary/mm/palloc.h:45-45 | under the direct map the kernel address of a page is that page, byte by byte |
| Tasks.SearchEndsIff | kernel/sched/task.c:483-502 | the search finds a task if and only if some task in the ring is waiting or running |
| Tasks.IdleExit | kernel/sched/task.c:405-412 | after the idle task exits, the next search ends if and only if another task is waiting |
| Tasks.CanSchedule | kernel/sched/task.c:474-502 | with a live idle task the search always ends |
| Tasks.PickedSurvives | kernel/sched/task.c:495-499 | the chosen task is in the ring, waiting or running, and so outlives the purge |
| Tasks.PurgeIsFilter | kernel/sched/task.c:524-533 | purging keeps exactly the tasks that are not killed |
| Tasks.PurgeConcat | kernel/sched/task.c:524-533 | and keeps them in order: purging goes through concatenation |
| Tasks.ScheduleKeepsInv | kernel/sched/task.c:463-513 | afterwards exactly the current task is running, no killed task is left, and the chosen one was waiting or running before |
| Tasks.CreateKeepsInv | kernel/sched/task.c:96-168 | a created task keeps ids and addresses unique and the invariant |
| Tasks.KillKeepsInv | kernel/sched/task.c:300-340 | killing succeeds exactly on a live task other than the idle one, and keeps the invariant |
| Tasks.ExitKeepsInv | kernel/sched/task.c:405-412 | exit of a task other than the idle one keeps the invariant |
| RoundRobin.RunsSafe | kernel/sched/task.c:96-533 | in every run of creating, killing, exiting and timer ticks ids stay unique, the idle task can run, and a running task is the current one |
| RoundRobin.BootInv | kernel/sched/task.c:30-74 | the state after task_init satisfies the invariant |
| RoundRobin.CreatedIs | kernel/sched/task.c:151-204 | a new task is first in the ring with the next id and the state asked for; WAITING it joins those that run, PAUSED it does not |
| RoundRobin.CreatedRuns | kernel/sched/task.c:96-168 | a task created WAITING runs within one round |
| RoundRobin.IdsNeverReused | kernel/sched/task.c:186-214 | over every run, whatever has an id given out before the run is the task that had it then |
| RoundRobin.ScheduleLeavesLive | kernel/sched/task.c:463-513 | in every state task_schedule leaves exactly the tasks that are not marked, in order |
| RoundRobin.KilledIsGone | kernel/sched/task.c:300-340 | task_kill and the next task_schedule take exactly the killed task, and those marked before, out of the ring and keep the others in order |
| RoundRobin.ExitedIsGone | kernel/sched/task.c:405-412 | task_exit_current and the next task_schedule take exactly the current task, and those marked before, out of the ring, and the CPU goes to another |
| RoundRobin.ScheduleAdvances | kernel/sched/task.c:474-510 | one call moves to the next runnable task round the ring and changes neither ring nor who is runnable |
| RoundRobin.TicksAdvance | kernel/sched/task.c:474-510 | n calls move n places round |
| RoundRobin.RoundRobinFair | kernel/sched/task.c:474-510 | with m runnable tasks and nothing created or killed, m consecutive calls run each of them exactly once and end on the starting task |
| Scheduler.DeleteDead | include/rotary/list.h:97-102 | deleting a killed node leaves the ring of the others, and the node keeps its pointer to its old successor |
| Scheduler.StepFrom | kernel/sched/task.c:479-501 | following the next pointer of any task, purged or not, leads to a later place in the old ring, passing only purged tasks |
| Scheduler.PurgeFinds | kernel/sched/task.c:353-370 | in the middle of the purge the task found under the killed task's id is that task |
| Scheduler.FoundIsFirst | kernel/sched/task.c:483-502 | the task the walk stops at is the first runnable one after the current task in the ring before the purge |
| Scheduler.TickIs | kernel/sched/task.c:504-510 | the states after the switch are those of the specification |
| Scheduler.TaskScheduler.constructor | kernel/sched/task.c:30-74 | the ring holds the idle task alone, running and current |
| Scheduler.TaskScheduler.GetFromId | kernel/sched/task.c:433-449 | the task with that id in the ring, or none |
| Scheduler.TaskScheduler.AllocStruct | kernel/sched/task.c:186-214 | the new structure gets the next id and is not in the ring yet |
| Scheduler.TaskScheduler.Create | kernel/sched/task.c:96-168 | created if and only if state, priority and all allocations are good; then first in the ring with the state asked for and the next id; an id is used up even when a later stage fails |
| Scheduler.TaskScheduler.Kill | kernel/sched/task.c:300-340 | result and states are those of the specification |
| Scheduler.TaskScheduler.ExitCurrent | kernel/sched/task.c:405-412 | the current task is marked as killed and nothing else changes |
| Scheduler.TaskScheduler.Purge | kernel/sched/task.c:353-393 | only a killed task leaves the ring; everything else is refused without change |
| Scheduler.TaskScheduler.PurgeRound | kernel/sched/task.c:527-532 | one round of the walk, its successor read before the task goes |
| Scheduler.TaskScheduler.PurgeKilledTasks | kernel/sched/task.c:524-533 | the walk ends with exactly the live tasks in the ring, in order, and every purged task still pointing to its old successor |
| Scheduler.TaskScheduler.FindNext | kernel/sched/task.c:474-502 | the walk ends, with the distance left round the old ring as its measure, at the first runnable task after the current one, even if that one was just purged |
| Scheduler.TaskScheduler.Schedule | kernel/sched/task.c:463-513 | disabled it does nothing; enabled it counts one tick and does exactly the specified step |
| Numerals.NumeralIsCanonical | arch/x86/kernel/multiboot.c:29-49 | every number has a digit string without leading zeros that has its value |
| Numerals.NumeralIsUnique | arch/x86/kernel/multiboot.c:29-49 | and only one |
| Numerals.BackwardsReversed | kernel/core/string.c:79-93 | digits by repeated division, reversed, are the numeral |
| Numerals.IntTextIsNumeral | kernel/core/string.c:33-68 | int_to_str writes the decimal numeral if and only if the value is not -2^31 |
| Numerals.AccumulatedDigits | kernel/core/string.c:333-335 | the sum over the written digits is the number, also for the negative digits of -2^31 |
| Numerals.SignedDigits | kernel/core/string.c:323-337 | digits with no sign or with a plus mean their value, with a minus its negative |
| Numerals.AtoiUndoesIntText | kernel/core/string.c:323-337 | atoi of what int_to_str writes is the number, for every 32-bit value |
| Numerals.NoOverflowIff | kernel/core/string.c:33-68 | negation, every running sum and the final product stay in 32 bits if and only if the value is not -2^31 |
| Conversions.DivideRound | arch/x86/kernel/multiboot.c:11-17 | one round divides one bit more, and the shift loses no bit of a 64-bit word |
| Conversions.Udivmod64 | arch/x86/kernel/multiboot.c:5-27 | the true quotient and remainder for every dividend and non-zero divisor; all ones and the dividend for divisor zero |
| Conversions.Reverse | kernel/core/string.c:290-300 | the first characters are reversed in place and the rest is untouched |
| Conversions.Uint64ToStr | arch/x86/kernel/multiboot.c:29-49 | the buffer holds the canonical numeral in any base from 2 to 16 |
| Conversions.HexDigits | kernel/core/string.c:110-116 | at most eight digits are written, and they are the numeral |
| Conversions.IntToHexStr | kernel/core/string.c:98-120 | the buffer holds the canonical base-16 numeral, the same text as uint64_to_str leaves |
| Conversions.UintToStr | kernel/core/string.c:72-94 | the buffer holds the decimal numeral |
| Conversions.WriteBackwards | kernel/core/string.c:43-55 | before it is terminated, what int_to_str has written is its text reversed, and nothing past it changed |
| Conversions.IntToStr | kernel/core/string.c:33-68 | the buffer holds the decimal numeral with sign for every value but -2^31, and for that one the text its wrapped arithmetic gives |
| Conversions.ItoaStep | kernel/core/string.c:311-317 | one digit from the top extends the numeral of the leading part |
| Conversions.Itoa | kernel/core/string.c:304-319 | the buffer holds the decimal numeral, the same text as uint_to_str leaves |
| Conversions.Atoi | kernel/core/string.c:323-337 | for any bytes, those above 127 counting as negative: the exact signed value wrapped once to 32 bits, although the code wraps after every digit |
| Conversions.DecimalRoundTrip | kernel/core/string.c:33-68 | writing a 32-bit value and reading it back gives the value |

## Left out

- Interleavings of several CPUs: a lock/unlock section is one atomic step, and the use-count accesses outside the lock count as part of it.
- Output (`klog`, the debug printers), `sprintf`, the shell, VFS, ELF loading, terminals, system calls, drivers and all assembly.
- The zone and kernel flags of pages and the counters for low and high memory: nothing else reads them.
- BuddyImpl.BuddyAllocator.constructor: the page structures are arrays, not memory out of bootmem_alloc, and the page count is required to be a multiple of 64, as BuddyLookupsInArea shows it must be.
- BuddyImpl.BuddyAllocator.PageFree: the caller frees only a block that is in use, with the order it was allocated with; the source cannot detect anything else.
- BootHandoff.BootMemory.AddMemRegion: requires a non-zero start and addresses short of the top page of the 32-bit space, where a start of zero would read as an empty slot and rounding up would wrap.
- BootHandoff.BootMemory.MarkFree: hands over every region whatever its type, as the code does; only available regions are ever registered by the multiboot code, which is not part of this model.
- KernelHeap.KernelHeap.NewSlab: the list of slabs of a cache is a sequence instead of next_slab pointers.
- KernelHeap.KernelHeap.Kfree: an address inside a slab that is not a live object is excluded; the source would thread it into the free list.
- KernelHeap.KernelHeap.SlabFree: the same addresses.
- KernelHeap.KernelHeap.FreeObject: the same addresses.
- KmallocRuns.KfreeEffect: the same addresses; ReleaseExact says what follows from them.
- Boot.RegisterKeepsInv: a zero start, a range that overlaps an earlier one and the range that slips through are excluded.
- BootSequence.StartMemory: the registrations themselves, which BootRunsSafe covers, and the page count has to be a multiple of 64.
- Page addresses are unbounded: slabs above the direct map's 768 MB, whose kernel address would wrap, are not modelled.
- PtableOps.PageTableMemory.Map: page allocation succeeds, as the source does not look; directory slots of the kernel half are excluded.
- PtableOps.PageTableMemory.UnmapFree: excludes a present table with an absent entry, where the source frees page zero, as UnmapFreesMapped shows.
- PtableOps.PageTableMemory.MapMany: page allocation succeeds, as in Map: there are as many free frames as the range lacks tables.
- PtableOps.PageTableMemory.PgdNew: page allocation succeeds; page_alloc_va makes an address of a missing page, which the source takes for a page.
- PtableOps.PageTableMemory.Unmap: directory slots of the kernel half are excluded.
- PtableOps.PageTableMemory.UnmapMany: the same.
- PtableOps.PageTableMemory.GetPte: the same.
- PtableOps.PageTableMemory.ShareRange: the destination's tables exist already, since the source hangs in fresh ones without clearing them; PTC_COPY and PTC_COW are not modelled.
- PtableOps.PageTableMemory.FreeFrame: page_free's refusal of kernel pages does not arise, since no frame of the pool is one; BootPool shows that of the pool after boot.
- TLB invalidation, loading CR3, and the contents of data pages.
- VmSpaces.AddressSpace.PageFault: if a page table is needed as well, its allocation succeeds, as ptable_map does not look; faults in the kernel half are excluded.
- VmSpaces.AddressSpace.MapPage: the same.
- SpaceLife.LifeCycle: asks for frames enough for all faults; LifetimeExact has no such bound.
- VmSpaces.AddressSpace.Touch: the same.
- SpaceLife.VmSpaceNew: there is a page for the directory, as the source does not look.
- VmSpaces.AddressSpace.AddMap: the pointer writes of llist_add; the mappings are a sequence.
- Scheduler.TaskScheduler.ExitCurrent: the idle task as caller; IdleExit says what follows then.
- VmSpaces.AddressSpace.constructor: the list of mappings is a sequence.
- Scheduler.TaskScheduler.Create: stack, address space and architecture set-up are flags saying whether they succeed; their resources, and the path that returns early when the architecture set-up fails, are not followed.
- Scheduler.TaskScheduler.Purge: freeing the task's resources is reduced to what it does to the task structure: the first word, which holds the id, may change to any value, for each task its own.
- Task ids do not wrap, and the idle task does not call task_exit_current except in IdleExit.
- KernelMap.KernelDirectory.SetupKernelPgd: loading the directory into CR3 and the processor feature tests; the features are parameters.
- Conversions.Uint64ToStr: bases below 2 and above 16, where the source does not end or reads past its digit table.
- Buffers are large enough for the text and its terminator, as the source demands of its callers.
- `format_size`, `log2`, `memset`, `memcpy` and `strcpy` beyond its one use: they would only add easy members.
