# Chanux kernel, verified models

Chanux is a small x86-64 kernel in C. This project models its five stateful subsystems in Dafny and proves
what they promise: paging over a page-frame allocator, the kernel heap, the scheduler and process table, the
RAM file system with its path code, vnodes and descriptors, and the word-wise memory routines.

The C code works by changing shared tables in place, so the model does too: a class per subsystem, whose
methods follow the C functions branch by branch and are proved against pure specifications in the module of
the same name with the suffix `Spec`.

| module | subsystem |
|---|---|
| `VmmSpec`, `VmmPaths`, `VmmRuns`, `Vmm`, `PteBits` | four-level page tables, huge-page splitting, user address spaces and the frames that fill them, entry bits |
| `VmmCases` | concrete runs of it from the boot loader's tables |
| `Pmm` | bitmap page allocator with hint, memory-map initialisation |
| `HeapSpec`, `Heap` | first-fit heap with headers in one word-addressed memory |
| `SchedulerSpec`, `Scheduler` | run queue, ticks, sleeping, process table |
| `PathSpec`, `Path` | lexical path normalisation, base name, directory name, join |
| `RamfsSpec`, `FileSpec`, `TreeSpec`, `Ramfs`, `DirentBytes` | blocks and inodes, file contents, the directory tree, entry bytes |
| `NameSpec` | what every path means before and after a create or unlink |
| `HandleSpec`, `Vfs`, `VfsCases` | vnode cache, open files, descriptor tables; a concrete run |
| `VfsLaws` | laws that join open, read, write, seek, create and unlink |
| `Mem` | memset, memcpy, memmove |
| `Basics`, `Counting` | shared notions; bitmap and pigeonhole facts |

How the models are set up:

- **Paging.** Memory is a map from frames to 512 typed entries; `WalkFrom` is the processor's walk. A ghost map
  gives every table a level and an owning address space. Tables may be shared, as the boot tables are, so frame
  conditions speak of leaf slots, and the invariant says that every kernel table a user space meets is met by the
  kernel at the same address. The recursive root entry 510 is outside all statements about translation.
  The frames the allocator will hand out are a parameter.
- **Heap.** Headers and data live in one memory, so a header store could hit data; that it does not is proved.
  `heap_block_t` is 32 bytes; the comment in `kernel/include/mm/heap.h:47` that says 40 is not followed.
- **Scheduler.** A tick is one atomic call; a context switch sets the current process.
- **File system.** Live vnodes keep their inodes and open files their flags and offsets through every operation.
  A ghost owner map says which inode slot owns each block. Directories refine finite maps,
  files refine zero-extended byte sequences.

Where the code does not meet what it is for, the failing family is stated exactly:

- `block_split` subtracts unsigned and splits blocks that have no room (`CodedSplitIff`); the heap class uses
  the guard the comment at `kernel/mm/heap.c:54-58` describes.
- `vmm_map_user_page` changes more than the page asked for exactly when the page-directory entry leads to a table
  of the kernel that does not hold that page already (`MapUserPage`); after boot and one heap page, the user page at
  16 MB replaces the heap's first page (`UserPageInHeap`).
- `vmm_map_user_page` into a 2 MB page of the kernel makes all 512 pages of it user-accessible in that space
  (`MapUserPage`, `OnlyPageAccessible`).
- a failed `vmm_map_range` changes translations exactly when one of the pages it got to was mapped before
  (`MapRange`); an instance loses a page of the split 2 MB around the heap (`RollbackLosesMapping`).
- `vmm_get_physical` and `vmm_is_mapped` cannot tell physical zero from unmapped (`GetPhysical`, `IsMapped`).
- a truncated file that grows again shows old bytes up to the end of the last block it kept, so it is zero-extended
  for every new size exactly after a clean cut (`CutAndGrow`, `OldByteReturns`); a read whose end wraps is not clamped
  (`Read`, `WrappedRead`).
- `kfree` takes back a `kmalloc_aligned` result exactly when the alignment is at most 16 (`KmallocAligned`).
- `vfs_mkdir("/")` succeeds and enters a name that no path leads to (`EnterRoot`, `CreateNames`).
- a live vnode can have another kind than its inode, exactly after a path to an open regular file was unlinked
  (`UnlinkPath`); a directory that got the freed inode number can then be opened for writing (`RefusalIff`,
  `DirectoryOpenForWriting`).
- after `process_yield` the request flag stays set, so the next process keeps the CPU past the next tick exactly if
  the flag is clear (`MidSliceIff`, `YieldCutsShort`).
- a usable region whose 64-bit bounds wrap is read wrongly exactly in the cases of `WholePagesIff`.
- `sched_remove` of a process that is not queued makes the run queue forget all others (`SchedRemove`).
- names of 56 to 59 bytes run into the next directory entry (`ContainedIff`).
- overlapping usable regions make the free-page counter too large (`VisitCounts`, `PageCountedTwice`); with page zero
  free, an allocation can answer zero although pages are free (`AllocPage`, `Serve`).
- a working directory that is not clean gives results that are not canonical (`CanonicalForEveryPathIff`).
- a sleep longer than 2^64 - 10 ms wraps to a short one (`SleepRounding`, `LongestSleepIsNone`).

## Model

| member | source | states |
|---|---|---|
| `Vmm.AddressSpaces.constructor` | kernel/mm/vmm.c:63-103 | a new root over any stratified boot tables satisfies the paging invariant and shows exactly the boot loader's upper half and first entry; the tables and their owners are given exactly |
| `VmmSpec.BootStratified` | boot/stage2/loader.asm:488-541 | the boot loader's aliased tables (one PDPT behind two root entries, one PD behind two PDPT entries) are stratified |
| `VmmSpec.BootTranslates` | boot/stage2/loader.asm:504-541 | the first 64 MB translate to themselves at address zero and again 2 GB below the top |
| `Vmm.AddressSpaces.MapPage` | kernel/mm/vmm.c:154-224 | succeeds iff both addresses are aligned, no 1 GB page is in the way and the tables it needs can be allocated; then every byte of the page translates to phys plus its offset and, in every address space, exactly the addresses ending in the same leaf slot changed, even if tables were made or a 2 MB page was split; only entries on the way of the address change, and no link; a failed call changes no translation and would fail again |
| `Vmm.AddressSpaces.NextTable` | kernel/mm/vmm.c:168-208 | getting, creating or splitting one level keeps every translation of every address space; exact success condition |
| `Vmm.AddressSpaces.Descend` | kernel/mm/vmm.c:168-208 | the walk down to the level-1 table succeeds iff the number of missing tables is available, keeps every translation, and ends at the table the processor would reach |
| `Vmm.AddressSpaces.SplitTable` | kernel/mm/vmm.c:115-134 | the loop produces the 512 consecutive small pages with the flags of the large one |
| `VmmSpec.SplitAgrees` | kernel/mm/vmm.c:115-147 | replacing a 2 MB entry by those pages leaves the translation of every covered address as it was |
| `VmmSpec.InstallKeeps` | kernel/mm/vmm.c:168-208 | linking in a fresh table whose entries agree with the replaced entry changes no walk from any table, at any level, although tables may be shared |
| `VmmSpec.LeafWriteRemaps` | kernel/mm/vmm.c:210-218 | a leaf store changes exactly the translations that end in that slot |
| `Vmm.AddressSpaces.UnmapPage` | kernel/mm/vmm.c:226-272 | succeeds iff the page is mapped by a 4 KB entry; then exactly the addresses ending in that slot become unmapped |
| `Vmm.AddressSpaces.GetPhysical` | kernel/mm/vmm.c:279-321 | the coded walk returns the translation, and zero both for unmapped and for physical address zero |
| `VmmSpec.VaIsAddress` | kernel/include/mm/vmm.h:56-60 | the four indices and the page offset add up to the low 48 bits of the address |
| `VmmSpec.OffsetIs` | kernel/mm/vmm.c:279-321 | below a leaf of 4 KB, 2 MB or 1 GB the rest of the address counts |
| `Vmm.AddressSpaces.IsMapped` | kernel/mm/vmm.c:323-325 | true iff the address is mapped to something other than physical zero |
| `Vmm.AddressSpaces.MapRange` | kernel/mm/vmm.c:332-349 | on success byte o of the range is byte o of the physical range, for all of the size asked for and no page more, iff no later page of the range went through the same slot, and inside one 2 MB region none does; the pages are layered over the old translation; on failure the next page cannot be mapped, every leaf slot written is unmapped and nothing else changed, and all translations are as before the call iff none of the pages it got to was mapped before; a range inside one 2 MB region succeeds iff its first page can be mapped |
| `VmmSpec.RangeByte` | kernel/mm/vmm.c:332-349 | byte o of a mapped range translates to byte o of the physical range iff no later page was mapped through its slot |
| `Vmm.RegionSlots` | kernel/mm/vmm.c:332-349 | pages of one 2 MB region have slots of their own |
| `VmmSpec.RollbackRestoresIff` | kernel/mm/vmm.c:338-346 | unmapping the written slots restores every translation of every space iff the kernel's old tables had none of those pages mapped |
| `VmmSpec.OriginalsStep` | kernel/mm/vmm.c:338-346 | mapping one more page keeps a record of the entry every address behind each slot went through at the start, also when a slot is written twice |
| `Vmm.AddressSpaces.CreateAddressSpace` | kernel/mm/vmm.c:395-425 | fails iff no frame is left; the new space shows the kernel's upper half and first entry and nothing else, no other translation changes, and the new tables are given exactly |
| `Vmm.AddressSpaces.MapUserPage` | kernel/mm/vmm.c:485-613 | exact success condition and frames used, which all became tables; every byte of the page translates to the address bits of phys plus its offset, phys itself if it is a 52-bit page address, and the leaf has the flags given and the user flag; a failed call changes no translation; after a successful one only the given page of that space changed iff the page-directory entry found was absent, huge or user-flagged, or the kernel had that very page there; otherwise the kernel's own table is written and its translation of the address is the new page; which pages of the 2 MB region user code may use afterwards |
| `VmmSpec.UserPageShows` | kernel/mm/vmm.c:608-612 | a user leaf shows the page at the address bits of phys |
| `VmmRuns.WriteKeeps` | kernel/mm/vmm.c:608-612 | writing a leaf in a table of the space keeps the leaf entry of every other page the space owns |
| `Vmm.AddressSpaces.UserTable` | kernel/mm/vmm.c:507-563 | creating or copying one level gives the space its own table and keeps every translation |
| `Vmm.AddressSpaces.UserLeafTable` | kernel/mm/vmm.c:570-607 | splitting or creating the last level keeps every translation and gives the exact entries, all 512 user-flagged after a split; the table found belongs to the space unless the entry led to a table of the kernel |
| `VmmPaths.AccessMade` | kernel/mm/vmm.c:570-612 | in the 2 MB region of the new page, user code gets no access through a table of the kernel, and otherwise the page itself, every page of a 2 MB page that was split, and what it had |
| `VmmPaths.OnlyPageAccessible` | kernel/mm/vmm.c:570-612 | no other page of the region becomes accessible iff no 2 MB page was split or they all were accessible |
| `VmmSpec.PrivateSlot` | kernel/mm/vmm.c:485-613 | a slot of a table owned by one user space is reached from that space only, and only through one page |
| `VmmSpec.SolePath` | kernel/mm/vmm.c:507-607 | two addresses that reach the same private table took the same entries on the way |
| `Vmm.SharedWrite` | kernel/mm/vmm.c:609-612 | overwriting an entry that the kernel's walk also ends in changes the kernel's translation to the new page, so one page only has changed iff the kernel had that page already |
| `VmmPaths.SharedPd` | kernel/mm/vmm.c:570-607 | a page-directory entry that is present, small and not user-flagged leads to a level-1 table that the kernel reaches at the same address |
| `VmmPaths.MirrorOpen` | kernel/mm/vmm.c:168-208 | linking in a fresh table keeps: every kernel table a space meets is met by the kernel at the same address |
| `VmmPaths.MirrorCopy` | kernel/mm/vmm.c:507-563 | giving a space its own copy of a kernel table keeps it |
| `VmmPaths.RootMappable` | kernel/mm/vmm.c:395-425 | in a new space a page can be mapped without touching kernel tables iff its root entry is not shared or it could be in the kernel's tables |
| `VmmPaths.OpenMappable` | kernel/mm/vmm.c:507-607 | making a table for one space keeps such pages mappable in every space |
| `VmmPaths.CopyMappable` | kernel/mm/vmm.c:507-563 | so does copying one |
| `Vmm.AddressSpaces.MapUserPages` | kernel/mm/vmm.c:485-613 | any run of calls whose pages are mappable when it starts: each call succeeds iff the tables it needs at that moment can be made, each address of each space translates as the last successful call for it says, and every translation of the kernel and of spaces not targeted is as before |
| `Vmm.AddressSpaces.LoadPages` | kernel/user/user_process.c:147-182 | every page loaded is a frame of its own from the pool, byte for byte and with exactly the flags given and the user flag; the frames are pairwise different, hold no table and are out of the pool, and every other frame of the old pool is still there or holds a new table; no other page of the space changes its entry; the loop is a run of user mappings and stops at the first page whose frame and tables are not available, giving the frame back; pages of one 2 MB region all load iff there is a frame for each and for the tables the first one needs |
| `VmmRuns.AccountedPage` | kernel/user/user_process.c:147-175 | taking a frame for a page and others for its tables keeps: every frame of the pool at the start is in the pool, a page or a table, and only one of these |
| `VmmRuns.AccountedBack` | kernel/user/user_process.c:168-175 | so does giving the frame back when the page cannot be mapped |
| `VmmRuns.AccountedJoin` | kernel/user/user_process.c:247-277 | two loads, one after the other |
| `VmmRuns.OwnsAllStep` | kernel/user/user_process.c:147-175 | one page more leaves the pages loaded before in their frames |
| `VmmRuns.CodeStays` | kernel/user/user_process.c:34-71 | loading the stack leaves the code pages that do not lie under it |
| `Vmm.AddressSpaces.CreateUserSpace` | kernel/user/user_process.c:247-277 | creating a space and loading code and stack changes no translation of the kernel or of an existing process; on success every code page, unless the stack lies over it, and every stack page is a different frame of the old pool with exactly its flags; no frame of the pool is lost; with up to 2 MB of code it succeeds iff the frames for root, code, stack and their tables are there |
| `VmmCases.CreateFirstProcess` | kernel/user/user_process.c:247-277 | from the boot loader's tables, for every list of free frames that starts with frame 16: the first process, with one page of code, is created iff there are at least 25 frames, its code page and its sixteen stack pages are different frames of the list that hold no table, and the kernel's view of the first 64 MB is unchanged |
| `VmmCases.RollbackLosesMapping` | kernel/mm/vmm.c:332-349 | concrete call: with no frame left, mapping a mapped page and one behind a 2 MB page fails and leaves the first page unmapped |
| `VmmCases.UserPageInHeap` | kernel/mm/vmm.c:485-613 | concrete call: after one heap page, mapping 16 MB in a new space changes what the kernel finds at the start of its heap |
| `PteBits.StoredAddressIff` | kernel/include/mm/vmm.h:27-49 | phys or-ed with flags gives the address back iff neither strays into the other's bits |
| `PteBits.SplitEntry` | kernel/mm/vmm.c:119-134 | the or-ed entries of a split carry address base + i pages and all flags but the size bit |
| `PteBits.AddressBitsIff` | kernel/mm/vmm.c:210-218 | or-ing flags to an address keeps its bits iff the flags add none |
| `PteBits.TypedLeaf` | kernel/mm/vmm.c:210-218 | the 64-bit word vmm_map_page stores stands for the typed leaf of the model, whose frame is phys divided by the page size for phys below 2^52 |
| `PteBits.TypedUserLeaf` | kernel/mm/vmm.c:608-612 | the masked word vmm_map_user_page stores stands for the user page of the model, for every 64-bit physical address |
| `PteBits.FrameNumber` | kernel/include/mm/vmm.h:45-49 | the masked address field of any word, as a number, is the word divided by the page size, 40 bits of it |
| `PteBits.TypedLinks` | kernel/mm/vmm.c:168-208 | and the words that link tables |
| `Pmm.PageAllocator.constructor` | kernel/mm/pmm.c:76-128 | if no bound wraps, a page is free after reading the memory map iff some usable region holds all of it; the free counter is exact iff no page lies in two usable regions |
| `Pmm.WholePagesIff` | kernel/mm/pmm.c:108-124 | the pages freed for a usable region are the whole pages inside it iff no 64-bit bound wraps in a way that matters (exact condition) |
| `Pmm.VisitedAre` | kernel/mm/pmm.c:97-128 | the pages met are those that some usable region holds wholly |
| `Pmm.VisitCounts` | kernel/mm/pmm.c:97-128 | the counter is ahead of the bitmap by the number of pages met twice |
| `Pmm.PageAllocator.ReserveSystem` | kernel/mm/pmm.c:130-156 | the first four megabytes end up reserved and the hint is the first free page |
| `Pmm.PageAllocator.AllocPage` | kernel/mm/pmm.c:174-198 | takes the first clear bit at or above the hint, else the first below; returns zero iff nothing is free, or page zero is and the hint is zero or nothing at or above it is free |
| `Pmm.ChosenIsFree` | kernel/mm/pmm.c:174-198 | the search finds a page iff one is free, whatever the hint |
| `Pmm.ChosenIsNext` | kernel/mm/pmm.c:174-198 | the page taken is the lowest free one at or above the hint, and the lowest of all only if there is none |
| `Pmm.ZeroMeansFull` | kernel/mm/pmm.c:174-198 | while page zero is reserved, zero means that nothing was free |
| `Pmm.PageZeroLooksFull` | kernel/mm/pmm.c:174-198 | with page zero free the allocator can return it, which reads as failure |
| `Pmm.PageAllocator.Do` | kernel/mm/pmm.c:174-323 | every call answers and changes bitmap and hint as specified, the counter staying in step; page zero stays reserved iff the call is not a release of an address below 4096 other than a free of zero |
| `Pmm.PageAllocator.Serve` | kernel/mm/pmm.c:174-323 | over any run of calls that spare page zero, step by step from the state before each: an allocation answers zero iff no page is free at that moment, and the counter stays as far from the clear bits as it was |
| `Pmm.PageCountedTwice` | kernel/mm/pmm.c:97-128 | concrete map: one page in two regions, counter two, one clear bit |
| `Pmm.PageAllocator.FindRun` | kernel/mm/pmm.c:204-232 | the run counter finds a run of clear bits iff one lies in the interval, and the first one |
| `Pmm.PageAllocator.AllocPages` | kernel/mm/pmm.c:200-249 | takes pages that were all free; fails iff no run lies wholly at or above the hint or wholly below it |
| `Pmm.PageAllocator.FreePage` | kernel/mm/pmm.c:256-282 | clears one bit if it was set, moves the hint down, keeps the counter in step |
| `Pmm.PageAllocator.FreePages` | kernel/mm/pmm.c:284-288 | every page of the range is free afterwards, except address zero; the hint moves to the lowest page that became free, if that is below it |
| `Pmm.FreeUndoesAlloc` | kernel/mm/pmm.c:200-288 | freeing what was allocated gives the bitmap back |
| `Pmm.PageAllocator.ReservePage` | kernel/mm/pmm.c:295-304 | sets one bit and keeps the counter in step |
| `Pmm.PageAllocator.ReservePages` | kernel/mm/pmm.c:306-310 | exactly the pages of the range are set |
| `Pmm.PageAllocator.UnreservePage` | kernel/mm/pmm.c:312-323 | clears one bit and keeps the counter in step |
| `Heap.Heap.constructor` | kernel/mm/heap.c:101-133 | the initial heap satisfies the invariant |
| `Heap.Heap.BlockSplit` | kernel/mm/heap.c:53-74 | with the guard the comment describes: headers still tile the heap, the list is cut at the block, no live data changes |
| `HeapSpec.CodedSplitIff` | kernel/mm/heap.c:53-74 | the 64-bit code equals the guarded split if the block has room for another header; memory still holds some tiled block list iff it has |
| `HeapSpec.TightSplitBreaks` | kernel/mm/heap.c:53-74 | for every block with size <= block size < size + 32 the coded split leaves memory in which no block list tiles the heap |
| `HeapSpec.CodedMallocIff` | kernel/mm/heap.c:157-163 | with the coded split, kmalloc leaves a tileable heap iff the first fitting block has room for another header |
| `HeapSpec.CodedReallocIff` | kernel/mm/heap.c:265-273 | the same for krealloc growing into its neighbour |
| `HeapSpec.ExactFitBreaks` | kernel/mm/heap.c:53-74 | concrete instance: asking the fresh heap for all it has |
| `Heap.Heap.BlockMergeNext` | kernel/mm/heap.c:77-94 | absorbs a free successor, keeps tiling, links and live data |
| `HeapSpec.CutLaid` | kernel/mm/heap.c:61-73 | the stores of a split leave exactly the cut block list in memory: sizes, flags and both links |
| `HeapSpec.JoinedLaid` | kernel/mm/heap.c:82-93 | the stores of a merge leave exactly the joined block list in memory |
| `Heap.Heap.Kmalloc` | kernel/mm/heap.c:140-177 | keeps the invariant and all live data; at most one retry; result and new block list given by first fit, expansion or failure |
| `HeapSpec.MallocFailsIff` | kernel/mm/heap.c:140-177 | for requests up to 2^63, null iff the size is zero or no free block fits and the heap cannot grow |
| `HeapSpec.MallocAdds` | kernel/mm/heap.c:140-177 | a successful call adds exactly one live block, large enough and less than 64 bytes larger than the rounded request, and no fitting free block had a lower address |
| `HeapSpec.GrownFits` | kernel/mm/heap.c:168-176 | a successful expansion always yields a fitting block |
| `HeapSpec.ExpandIs` | kernel/mm/heap.c:168-176 | an expansion is 1 MB, or else the block and its header in whole pages and no page more |
| `HeapSpec.RoundingCoversIff` | kernel/mm/heap.c:143-147 | 64-bit rounding covers the request iff it is at most 2^64 - 16 |
| `Heap.Heap.FindFit` | kernel/mm/heap.c:149-166 | the list walk returns the first fit and never meets a bad magic number |
| `Heap.Heap.KmallocAligned` | kernel/mm/heap.c:187-206 | aligned result whose whole range, and the word holding the original pointer, lie inside one new live block; exact failure condition; the result is one that kfree accepts iff the alignment is at most 16 |
| `Heap.Heap.Kfree` | kernel/mm/heap.c:213-242 | changes nothing unless the pointer is live; otherwise frees and coalesces, keeping the invariant and all other live data |
| `HeapSpec.FreedCoalesced` | kernel/mm/heap.c:236-241 | after freeing and merging both ways no two neighbours are free |
| `HeapSpec.FreedUsed` | kernel/mm/heap.c:213-242 | exactly the freed block leaves the set of live blocks |
| `HeapSpec.LiveIffStart` | kernel/mm/heap.c:213-232 | a pointer into a live block has a live header 32 bytes before it iff it is the start of the data |
| `Heap.Heap.Krealloc` | kernel/mm/heap.c:244-283 | all paths: null, zero size, bad header, in place, stretched, moved; the pointer stays iff the block, alone or with its free neighbour, has room; the call fails iff it has not and no other block can be had, leaving everything as it was; a block large enough is untouched, another one is less than 64 bytes too large; the data of the block is preserved, other live data unchanged |
| `HeapSpec.StretchedMeaning` | kernel/mm/heap.c:265-273 | growing into the next block changes exactly that live block and leaves no free neighbours |
| `HeapSpec.MoveOutcome` | kernel/mm/heap.c:275-282 | allocate, copy, free: the data is at the new address and no other live data changed |
| `Heap.Heap.HeapExpand` | kernel/mm/heap.c:290-343 | succeeds iff below the size limit and enough pages are available; the heap grows by whole pages at its end, merged with a free last block; failure changes nothing |
| `Heap.Heap.GetStats` | kernel/mm/heap.c:350-376 | used + free + 32 per block is the heap size; the largest free block is right |
| `HeapSpec.Conservation` | kernel/mm/heap.c:350-376 | every byte of the heap is in a header, a live block or a free block |
| `Heap.Heap.HeapValidate` | kernel/mm/heap.c:378-406 | accepts exactly the chains whose headers have magic, back link and flags in order |
| `Heap.Heap.ValidateValid` | kernel/mm/heap.c:378-406 | a heap satisfying the invariant always validates |
| `Mem.Memset` | kernel/lib/string.c:16-48 | the word-wise fill sets exactly the given bytes |
| `Mem.PatternBytes` | kernel/lib/string.c:22-25 | the shifted pattern holds the byte eight times |
| `Mem.Memcpy` | kernel/lib/string.c:50-79 | the word-wise loops equal the byte-wise forward copy for all arguments, overlapping ones included |
| `Mem.WordStep` | kernel/lib/string.c:62-68 | eight bytes at once equal eight single copies when source and target are no closer than a word |
| `Mem.ForwardIsSnapshotIff` | kernel/lib/string.c:50-79 | a forward copy is a snapshot copy of every memory iff the target does not start inside the source |
| `Mem.Memmove` | kernel/lib/string.c:81-102 | always a snapshot copy |
| `Scheduler.Kernel.constructor` | kernel/proc/process.c:140-200 | the initial table and empty queue satisfy the invariant |
| `Scheduler.Kernel.SchedAdd` | kernel/proc/sched.c:56-84 | appending to the linked run queue refines appending to a sequence; idle and queued processes are left alone |
| `Scheduler.Kernel.SchedRemove` | kernel/proc/sched.c:89-112 | unlinks a queued process and keeps the order of the others; for one that is not queued both ends become null, so the list invariant survives iff the process was null or queued or the queue was empty |
| `Scheduler.Kernel.SchedPickNext` | kernel/proc/sched.c:117-137 | takes the head, or idle when the queue is empty |
| `Scheduler.Kernel.SchedReadyCount` | kernel/proc/sched.c:142-152 | the walk counts the queue |
| `Scheduler.Kernel.SchedStart` | kernel/proc/sched.c:185-219 | the first dispatch refines the start step |
| `Scheduler.Kernel.SchedTick` | kernel/proc/sched.c:226-261 | waking, charging and preempting refine one tick of the state machine |
| `Scheduler.Kernel.TimerTick` | kernel/proc/sched.c:226-261 | a tick keeps the invariant |
| `Scheduler.Kernel.Schedule` | kernel/proc/sched.c:274-312 | re-queueing, picking and dispatching refine the switch step |
| `Scheduler.Kernel.Yield` | kernel/proc/process.c:335-349 | refines the yield step (`YieldRotates` says what that is) |
| `Scheduler.Kernel.Exit` | kernel/proc/process.c:290-330 | refines the exit step (`ExitCall`) |
| `Scheduler.Kernel.Block` | kernel/proc/process.c:381-399 | refines the block step (`BlockCall`, `SleepCall`) |
| `Scheduler.Kernel.Unblock` | kernel/proc/process.c:404-415 | refines the unblock step, for any process number |
| `Scheduler.Kernel.ProcessGet` | kernel/proc/process.c:368-376 | slot i holds process i, and only issued numbers are found |
| `Scheduler.Kernel.FindFreeSlot` | kernel/proc/process.c:59-66 | slots are handed out in order and never reused |
| `Scheduler.Kernel.ProcessCreate` | kernel/proc/process.c:205-285 | refines the create step; fails iff the table is full or no stack is available |
| `Scheduler.Kernel.WakeSleeping` | kernel/proc/process.c:441-456 | wakes exactly the sleepers that are due, in slot order |
| `Scheduler.Kernel.PrepareSleep` | kernel/syscall/sys_process.c:77-99 | sets the wake tick from the requested milliseconds |
| `Scheduler.Kernel.FinishSleep` | kernel/syscall/sys_process.c:77-99 | clears the wake tick after the sleep |
| `SchedulerSpec.StepInv` | kernel/proc/sched.c:56-312 | every event keeps: one running process, the queue holds exactly the ready processes once each, idle never queued, slice in 1..10, slot i holds process i |
| `SchedulerSpec.StartInv` | kernel/proc/sched.c:185-219 | starting establishes it; the first of the queue runs, or idle if it is empty |
| `SchedulerSpec.WaitBound` | kernel/proc/sched.c:226-312 | slice of the current process plus ten per process ahead decreases with every tick, whatever else happens |
| `SchedulerSpec.NoStarvation` | kernel/proc/sched.c:56-312 | a process at queue position k runs within 10(k+1) ticks under any interleaving of events |
| `SchedulerSpec.OvertakenAtMostOnce` | kernel/proc/sched.c:56-312 | no other process is dispatched twice while it waits |
| `SchedulerSpec.SleepNotEarly` | kernel/proc/process.c:441-456 | a sleeper is not dispatched before its wake tick |
| `SchedulerSpec.SleepTick` | kernel/proc/process.c:441-456 | a tick at or after the wake tick makes the sleeper ready, or running |
| `SchedulerSpec.SleepEnds` | kernel/proc/process.c:441-456 | it becomes ready at the first due tick and then runs within the waiting bound |
| `SchedulerSpec.SleepRounding` | kernel/syscall/sys_process.c:77-99 | the tick count is the rounded-up quotient iff ms + 9 does not wrap |
| `SchedulerSpec.LongestSleepIsNone` | kernel/syscall/sys_process.c:77-99 | concrete sleep of 2^64 - 1 ms: zero ticks |
| `SchedulerSpec.SleepLasts` | kernel/syscall/sys_process.c:77-99 | a sleep of ms milliseconds lasts at least the rounded-up number of ticks |
| `SchedulerSpec.SleepIff` | kernel/syscall/sys_process.c:77-99 | after the two steps of sys_sleep the caller sleeps until now plus the rounded-up ticks iff that 64-bit sum is not zero |
| `SchedulerSpec.SleepCall` | kernel/syscall/sys_process.c:77-99 | from the call on: the caller sleeps until the tick that completes the request, every legal run with that many ticks and 630 more dispatches it, and none that does not unblock it does so before the requested time has passed |
| `SchedulerSpec.BlockCall` | kernel/proc/process.c:381-415 | a process that blocks without a wake tick is not dispatched until it is unblocked, and then within 630 ticks, under any interleaving |
| `SchedulerSpec.ReturnThenBlock` | kernel/syscall/sys_process.c:92-99 | the wake tick is gone when sys_sleep returns, so a later block is not ended by the timer |
| `SchedulerSpec.CreateCall` | kernel/proc/process.c:205-285 | a new process has the next number and is dispatched within 630 ticks in any legal run; without a stack or a slot nothing changes |
| `SchedulerSpec.ExitCall` | kernel/proc/process.c:290-330 | a process that exits is never dispatched again in any legal run |
| `SchedulerSpec.YieldRotates` | kernel/proc/process.c:335-349 | the first of the queue runs and the caller is last in it; the request flag stays set |
| `SchedulerSpec.SliceLasts` | kernel/proc/sched.c:226-261 | with the flag clear, no run of events by which the current process does not give up the CPU takes it away before its slice is used up |
| `SchedulerSpec.SliceEnds` | kernel/proc/sched.c:245-261 | the last tick of the slice hands the CPU to the first of the queue, with a slice of ten |
| `SchedulerSpec.MidSliceIff` | kernel/proc/sched.c:245-261 | a tick in mid-slice, with others waiting, leaves the current process running iff the request flag is clear |
| `SchedulerSpec.YieldCutsShort` | kernel/proc/process.c:335-349 | after a yield with two others waiting, the next process loses the CPU at the first tick |
| `SchedulerSpec.CpuConserved` | kernel/proc/sched.c:226-261 | every tick is charged to exactly one process |
| `SchedulerSpec.TickCharges` | kernel/proc/sched.c:226-261 | the process charged is the one that was running when the tick came |
| `Path.PathNormalize` | kernel/fs/path.c:123-224 | the in-place work-buffer loop computes the text normalisation and never leaves its 256-byte buffer |
| `PathSpec.NormalizeRefinesStack` | kernel/fs/path.c:123-224 | with a canonical working directory, text normalisation equals the fold over a stack of components |
| `PathSpec.NormalizeIsCanonical` | kernel/fs/path.c:123-224 | every result is a canonical path |
| `PathSpec.NormalizeIdempotent` | kernel/fs/path.c:123-224 | normalising twice changes nothing more |
| `PathSpec.CanonicalForEveryPathIff` | kernel/fs/path.c:123-224 | results are canonical for all paths iff the working directory is clean (exact condition) |
| `PathSpec.ShortPathsNormalize` | kernel/fs/path.c:123-224 | every absolute path that fits the buffer normalises |
| `PathSpec.CompsOfRender` | kernel/fs/path.c:123-224 | components of a rendered path are the components it was rendered from |
| `PathSpec.SlashSeparates` | kernel/fs/path.c:158-171 | splitting: a slash separates, text without one is one component, empty text none; so repeated and trailing slashes do not matter |
| `PathSpec.DotsIgnored` | kernel/fs/path.c:173-174 | two paths, both absolute or both relative, whose components agree without the dots normalise alike, for every working directory and buffer size |
| `Path.PathBasename` | kernel/fs/path.c:24-59 | the backward scans compute the base name |
| `Path.PathDirname` | kernel/fs/path.c:66-112 | the scan computes the directory name, or fails for lack of room |
| `PathSpec.BasenameOf` | kernel/fs/path.c:24-59 | the base name of any text is its last component with the slashes behind it, "/" for slashes only, "." for nothing |
| `PathSpec.DirnameOf` | kernel/fs/path.c:66-112 | the directory name of any text is what is before its last slash, "/" if nothing is, "." without a slash, if it fits |
| `Path.PathJoin` | kernel/fs/path.c:231-257 | joins with exactly one separator, or fails for lack of room |
| `PathSpec.JoinOfSplit` | kernel/fs/path.c:24-257 | joining directory and base name of a canonical path other than the root gives it back |
| `PathSpec.SplitOfJoin` | kernel/fs/path.c:24-257 | directory and base name of a joined path are its parts |
| `Ramfs.Filesystem.constructor` | kernel/fs/ramfs.c:182-237 | a formatted disk satisfies the invariant, with an empty root |
| `Ramfs.Filesystem.AllocBlock` | kernel/fs/ramfs.c:373-402 | takes the first free data block, zeroed; fails iff there is none |
| `Ramfs.Filesystem.FreeBlock` | kernel/fs/ramfs.c:407-421 | clears the bit of a data block that was set, nothing else |
| `Ramfs.Filesystem.AllocInode` | kernel/fs/ramfs.c:287-328 | takes the lowest free inode; fails iff there is none |
| `Ramfs.Filesystem.FreeInode` | kernel/fs/ramfs.c:333-362 | releases all blocks of the inode and zeroes it; never the root |
| `RamfsSpec.AttachCore` | kernel/fs/ramfs.c:533-540 | giving a fresh block to an inode slot keeps: one owner per set bit, counters equal clear bits, block count equals used slots |
| `RamfsSpec.DetachCore` | kernel/fs/ramfs.c:578-588 | taking it away keeps it too |
| `RamfsSpec.AttachImages` | kernel/fs/ramfs.c:533-540 | no file or directory image changes when a zeroed block is attached |
| `Ramfs.Filesystem.Read` | kernel/fs/ramfs.c:440-496 | returns exactly the in-range slice of the contents iff the offset is past the end, offset + count does not wrap, or the file has full size; otherwise the rest of the image |
| `Ramfs.Filesystem.Write` | kernel/fs/ramfs.c:501-561 | a write returning n replaces exactly [offset, offset + n), zero-fills a gap, sets the size to the maximum, changes no other contents; short only at the size limit or a full disk |
| `FileSpec.SpliceIsWrite` | kernel/fs/ramfs.c:501-561 | splicing into the zero-padded image is the write on contents |
| `Ramfs.Filesystem.Truncate` | kernel/fs/ramfs.c:568-595 | resizes, zero-extending; growing again to any size shows the old bytes of the blocks kept, then zeros; no byte is left behind the end iff the cut is clean |
| `Ramfs.Filesystem.CutAndGrow` | kernel/fs/ramfs.c:568-595 | truncating to n and growing to m gives the kept bytes resized to m, which is the zero-extended cut for every m iff the cut is clean |
| `FileSpec.RegrowthIff` | kernel/fs/ramfs.c:568-595 | the same law on contents alone |
| `FileSpec.OldByteReturns` | kernel/fs/ramfs.c:568-595 | concrete contents: two ones cut to one and grown to two are two ones |
| `FileSpec.WrappedRead` | kernel/fs/ramfs.c:440-496 | concrete read of the second of two bytes with count 2^64 - 1 returns the rest of the image |
| `FileSpec.AlignedCutIsClean` | kernel/fs/ramfs.c:568-595 | a cut at a block boundary is clean |
| `Ramfs.Filesystem.DirLookup` | kernel/fs/ramfs.c:607-653 | finds a name iff the directory map has it; dot is not found, dot-dot is the parent |
| `Ramfs.Filesystem.AddEntry` | kernel/fs/ramfs.c:660-715 | adds one entry in the first free slot; exact failure condition; failure changes nothing |
| `Ramfs.Filesystem.RemoveEntry` | kernel/fs/ramfs.c:722-756 | removes the named entry, or changes nothing |
| `Ramfs.Filesystem.LookupPath` | kernel/fs/ramfs.c:806-867 | the component loop walks the tree |
| `TreeSpec.NormalizeKeepsMeaning` | kernel/fs/ramfs.c:607-867 | in every tree, if the lookup of an absolute path succeeds component by component, dot staying where it is, the normalised path leads to the same inode |
| `TreeSpec.DotsStayPut` | kernel/fs/path.c:173-174 | the walk with dots is the walk along the other components |
| `TreeSpec.CreateKeepsTree` | kernel/fs/vfs.c:637-669 | creating keeps the tree: unique names, one parent per inode, parent pointers, link counts |
| `TreeSpec.UnlinkKeepsTree` | kernel/fs/vfs.c:671-709 | unlinking keeps it |
| `TreeSpec.AddToMap` | kernel/fs/ramfs.c:695-709 | filling a free slot adds one name to the directory map |
| `TreeSpec.RemoveFromMap` | kernel/fs/ramfs.c:740-750 | clearing a slot removes one name from it |
| `TreeSpec.FindNameIsLookup` | kernel/fs/ramfs.c:607-653 | scanning the entries is looking up the map |
| `NameSpec.OnePath` | kernel/fs/ramfs.c:806-867 | at most one canonical path leads to an inode |
| `NameSpec.CreateNames` | kernel/fs/vfs.c:555-578 | after creating a path exactly the paths with its normal form lead to the new inode and all others where they did; for the root nothing changes |
| `NameSpec.UnlinkNames` | kernel/fs/vfs.c:583-602 | after unlinking a path exactly the paths with its normal form lead nowhere and all others where they did |
| `NameSpec.RelativeKeepsMeaning` | kernel/syscall/sys_fs.c:113-117 | a relative path, normalised against the working directory, names what walking from that directory finds, dot staying where it is |
| `Ramfs.Filesystem.Create` | kernel/fs/vfs.c:637-669 | all or nothing: on success one new empty inode and one new name; on failure the disk is exactly as before; exact failure condition |
| `Ramfs.Filesystem.Unlink` | kernel/fs/vfs.c:671-709 | removes the name and drops the links; frees an inode with no links left; other contents unchanged |
| `DirentBytes.ContainedIff` | kernel/include/fs/ramfs.h:91-97 | writing an entry leaves its neighbours alone, whatever they hold, iff the name has at most 55 bytes, although 59 are let through |
| `DirentBytes.SlotRoundTrip` | kernel/fs/ramfs.c:697-703 | every accepted entry is read back as written |
| `DirentBytes.LongSpills` | kernel/fs/ramfs.c:666-703 | for 56 to 59 bytes the terminator shows in the next entry |
| `Vfs.FileLayer.constructor` | kernel/fs/vfs.c:58-93 | the fresh tables conserve references over a formatted disk |
| `Vfs.FileLayer.GetOrCreate` | kernel/fs/vfs.c:157-184 | never fails for a valid inode: returns the live vnode of the inode or a new one, one reference more; every live vnode keeps its inode; a vnode that says directory stands for a directory |
| `HandleSpec.VnodeAlwaysAvailable` | kernel/fs/vfs.c:98-184 | at most one live vnode per inode and 256 of both, so a slot is always there |
| `HandleSpec.AcquireConserves` | kernel/fs/vfs.c:98-184 | taking a reference keeps every count equal to its holders |
| `HandleSpec.ReleaseConserves` | kernel/fs/vfs.c:117-152 | giving one back keeps it |
| `HandleSpec.BackAgain` | kernel/fs/vfs.c:98-184 | when the same files and pointers exist as before, exactly the same vnodes are live |
| `HandleSpec.StaysOpen` | kernel/fs/vfs.c:98-184 | live vnodes that keep their inodes leave every open file its inode, flags and offset |
| `HandleSpec.UnrefStillOpen` | kernel/fs/file.c:310-326 | whoever still holds a file after another pointer to it is given back sees no change |
| `HandleSpec.HeldIsOpenFrame` | kernel/fs/vfs.c:270-334 | opening uses a slot nothing pointed to and leaves all other open files as they were; failing leaves the live vnodes as they were |
| `HandleSpec.FreedKindsIff` | kernel/fs/vfs.c:157-184 | freeing an inode leaves every live vnode with the kind of its inode iff it has no live vnode |
| `HandleSpec.StillBacked` | kernel/fs/vfs.c:157-184 | as long as no directory inode gets another use, live directory vnodes stand for directories |
| `Vfs.UnlinkKeepsDirs` | kernel/fs/vfs.c:671-709 | unlinking gives no directory inode another use |
| `Vfs.CreateKeepsDirs` | kernel/fs/vfs.c:637-669 | nor does creating; the new inode has the kind asked for |
| `Vfs.FileLayer.VnodeUnref` | kernel/fs/vfs.c:140-152 | drops one reference; the root is never freed |
| `Vfs.FileLayer.Lookup` | kernel/fs/vfs.c:197-225 | normalise and walk: succeeds iff the path resolves, with a reference to that inode's vnode; live vnodes keep their inodes |
| `Vfs.FileLayer.LookupParent` | kernel/fs/vfs.c:230-265 | the same for the parent directory, with the last name |
| `Vfs.FileLayer.CreatePath` | kernel/fs/vfs.c:555-578 | all or nothing creation by path, references conserved; on success the path, and no other unless it has the same normal form, names the new inode; the same vnodes are live and every open file is as it was |
| `Vfs.EnterRoot` | kernel/fs/vfs.c:555-578 | concrete call on a fresh disk: making "/" succeeds, the root gains an entry, every path means what it did |
| `Vfs.FileLayer.UnlinkPath` | kernel/fs/vfs.c:583-602 | unlink by path, references conserved; on success the path names nothing and all others what they did; open files keep inode, flags and offset; live vnodes keep the kind of their inode iff the call failed or did not name a regular file with a live vnode |
| `Vfs.UnlinkKindsIff` | kernel/fs/vfs.c:671-709 | the exact condition for the kinds, from the name found |
| `Vfs.FileLayer.Open` | kernel/fs/vfs.c:270-334 | an existing path fails iff its live vnode, or else its inode, is a directory to be written or no file slot is left, and is truncated iff asked; a missing one is created all or nothing, and once created fails iff no file slot is left; offset, flags and inode of the result; the slot was unused and all other open files are as they were; references conserved on every path, failures included |
| `Vfs.RefusalWhenRight` | kernel/fs/vfs.c:303-312 | while live vnodes have the kind of their inode, an existing path fails iff its inode is a directory to be written or no file slot is left |
| `Vfs.RefusalIff` | kernel/fs/vfs.c:303-312 | the refusal follows the inode iff it is not a directory to be written whose live vnode has another kind |
| `VfsCases.DirectoryOpenForWriting` | kernel/fs/vfs.c:270-334 | concrete run: open a new file, unlink it, make a directory, open that for writing: it succeeds |
| `HandleSpec.OpenConserves` | kernel/fs/file.c:248-268 | a new open file takes over the vnode reference |
| `Vfs.FileLayer.Close` | kernel/fs/vfs.c:339-349 | drops one handle; files still held elsewhere are as they were |
| `Vfs.FileLayer.FileUnref` | kernel/fs/file.c:310-326 | counts down, and at zero frees the slot and drops the vnode |
| `HandleSpec.CloseConserves` | kernel/fs/file.c:273-326 | closing keeps both conservation laws |
| `Vfs.FileLayer.FileRead` | kernel/fs/vfs.c:354-374 | reads the slice at the offset, or the rest of the image when the sum wraps, and moves the offset by as many bytes; refused for write-only and console files |
| `Vfs.FileLayer.FileWrite` | kernel/fs/vfs.c:380-405 | writes at the offset, or at the end when appending, and moves the offset behind; references and other files unchanged; refused for read-only and console files |
| `Vfs.FileLayer.FileSeek` | kernel/fs/vfs.c:411-444 | the new offset for each origin (`SeekOrigins`); refused, with nothing changed, when negative or unknown or for a console file |
| `Vfs.WriteReadBack` | kernel/fs/vfs.c:354-444 | write, seek back, read gives the bytes that were written |
| `VfsLaws.SeekOrigins` | kernel/fs/vfs.c:411-444 | the three origins are zero, the offset and the size of the file |
| `VfsLaws.SeekThenRead` | kernel/fs/vfs.c:354-444 | a read after a seek to `at` returns the bytes from there on, as far as the file goes |
| `VfsLaws.SeekToEnd` | kernel/fs/vfs.c:354-444 | a seek to the end by zero returns the size of the file, and a read of any length there returns nothing |
| `VfsLaws.SeekBack` | kernel/fs/vfs.c:354-444 | seeking back by what was read restores the state before the read |
| `VfsLaws.ReadsAdd` | kernel/fs/vfs.c:354-374 | two reads in a row return what one of both lengths would |
| `VfsLaws.WritesAdd` | kernel/fs/vfs.c:380-405 | two complete writes in a row are one write of both texts |
| `VfsLaws.AppendsAtEnd` | kernel/fs/vfs.c:380-405 | a write to a file opened for appending adds at its end, wherever it stands |
| `VfsLaws.OpenRegular` | kernel/fs/vfs.c:270-334 | while kinds are right and a slot is free, an existing regular file opens in every mode; truncation empties it and touches nothing else, otherwise the disk is as before; the offset is zero, or the size when appending |
| `VfsLaws.OpenDirectory` | kernel/fs/vfs.c:303-312 | a directory then opens iff for reading only, and the disk is as before |
| `VfsLaws.OpenThenRead` | kernel/fs/vfs.c:270-374 | open, then read: the first bytes of the file |
| `VfsLaws.OpenThenOverwrite` | kernel/fs/vfs.c:270-405 | open with truncation, then write: the file is what was written, no other file changed, and less than all is written only at the size limit or on a full disk |
| `VfsLaws.CreateOpens` | kernel/fs/vfs.c:270-334 | opening with creation where nothing is: the path names a new, empty regular file, open at offset zero with the flags given; no other file changed |
| `VfsLaws.CreateThenWrite` | kernel/fs/vfs.c:270-405 | open with creation where nothing is, then write: the path names a new regular file that is what was written |
| `VfsLaws.ResolveByParent` | kernel/fs/vfs.c:230-265 | a path below the root leads where its last name leads in the directory of its parent path |
| `VfsLaws.UnlinkIff` | kernel/fs/vfs.c:671-709 | unlinking a path below the root succeeds iff it leads somewhere, unless to a directory in which some name can be looked up |
| `VfsLaws.NoOverwrite` | kernel/fs/vfs.c:637-669 | nothing is created over a path that leads somewhere |
| `VfsLaws.UnlinkUndoesCreate` | kernel/fs/vfs.c:555-602 | creating a path and unlinking it leaves every path leading where it led |
| `HandleSpec.OpenIsBacked` | kernel/fs/file.c:248-326 | the vnode of an open file is referenced, so its slot is not free for reuse, and its inode number is in range |
| `Vfs.FileLayer.Stat` | kernel/fs/vfs.c:455-474 | succeeds iff the path resolves; leaves no reference behind, the same vnodes live and every open file as it was |
| `Vfs.FileLayer.TableCreate` | kernel/fs/file.c:339-357 | a new descriptor table with the three console entries, or none when the heap has no room; references conserved |
| `Vfs.FileLayer.EmptyTable` | kernel/fs/file.c:91-109 | a new table with no descriptor in use, or none when the heap has no room; references conserved |
| `Vfs.FileLayer.FdAlloc` | kernel/fs/file.c:167-182 | the lowest free descriptor, or none |
| `Vfs.FileLayer.TableClone` | kernel/fs/file.c:135-155 | the clone has the same entries and every file one more reference for each; inodes, flags and offsets stay; without room nothing changes |
| `HandleSpec.CopyEntryConserves` | kernel/fs/file.c:135-155 | copying one descriptor keeps file counts equal to descriptors and handles |
| `Vfs.FileLayer.TableDestroy` | kernel/fs/file.c:114-130 | closes every descriptor of one table, leaves the others alone, and files still open elsewhere as they were |
| `Vfs.FileLayer.SysOpen` | kernel/syscall/sys_fs.c:101-137 | normalises against the working directory and installs the opened file at the lowest free descriptor; without a normal form or a free descriptor nothing changes, otherwise it fails iff the open does; references conserved, all other open files as they were |
| `Vfs.FileLayer.SysClose` | kernel/syscall/sys_fs.c:150-179 | closes an open descriptor above the standard ones, else fails and changes nothing; files still open elsewhere are as they were |

## Left out

- Boot loader code, assembly stubs, descriptor tables, context switch, TLB flushes and CR3 writes: hardware effects.
- Console, serial, PIC, PIT and keyboard drivers, debug printing, the shell and user libc: no hard property.
- `vmm_destroy_address_space` and `user_stack_free`: they free or translate through tables shared with the kernel and meet no clean ownership contract.
- `vmm_pages_mapped` and the `num_open` field of descriptor tables: not reliable counts in the code.
- `sys_chdir`, stat layouts, permissions, owners and timestamps: no hard property.
- `strncpy`, `ramfs_create_file` and `ramfs_create_dir`: the latter repeat what the vnode-level create does.
- `vfs_readdir` and `vfs_fstat`: copies of modelled entries and inode fields.
- `heap_alloc_count` and `heap_free_count`: plain call counters.
- Reference-count overflow of the root vnode: counts are unbounded naturals.
- Accessed and dirty bits, access rights and the effect of flags other than present, user and size on the processor.
- Vmm.AddressSpaces.MapPage: physical addresses are unbounded and entries are typed; `TypedLeaf` says which words the typed leaf stands for.
- Vmm.AddressSpaces.MapRange: assumes that no page of the range uses the recursive entry; addresses do not wrap.
- Vmm.AddressSpaces.MapUserPage: assumes that no 1 GB page is on the way of the address, where the code would take its frame for a table; user access outside the 2 MB region of the page is not stated.
- Vmm.AddressSpaces.MapUserPages: for pages whose page-directory entry is absent, huge or user-flagged when the run starts; `MapUserPage` says what any other call does.
- Vmm.AddressSpaces.LoadPages: zeroing the frame and copying the code into it are left out; a frame number of 2^40 or more would be cut to its address bits.
- Vmm.AddressSpaces.CreateUserSpace: the process record and the destruction of the space after a failure are left out.
- VmmCases.CreateFirstProcess: the first frame is fixed to be 16.
- Pmm.PageAllocator.constructor: the bitmap is a sequence of bits, not of bytes.
- Heap.Heap.BlockSplit: uses the guard the comment describes, not the wrapping subtraction; `CodedSplitIff` relates the two.
- Heap.Heap.Kmalloc: for requests up to 2^63; beyond that the 64-bit sums wrap.
- Heap.Heap.HeapExpand: the size asked for is not zero; the code would write a header past the heap end. Pages mapped before a failed expansion are not tracked.
- Heap.Heap.Kfree: the pointer is null, has no magic number before it, or names a block; data that imitates a header is excluded.
- Heap.Heap.Krealloc: for live blocks, null pointers and pointers without a magic number; a freed block is excluded.
- Heap.Heap.HeapValidate: for chains that end; on links that form a cycle the walk of the code does not.
- Heap.Heap.KmallocAligned: the alignment is a power of two, as the header file demands; size and alignment together stay below 2^63.
- Scheduler.Kernel.Exit: the idle process does not exit; the code panics.
- Ramfs.Filesystem.AddEntry: the free slot is searched before blocks are allocated, which gives the same result; names of 56 to 59 bytes are excluded (see `ContainedIff`).
- Ramfs.Filesystem.Create: the name is not "." and the directory has not been unlinked; names of 56 to 59 bytes are excluded.
- Ramfs.Filesystem.Unlink: data blocks of files and of directories are two views of one disk; an open file that is unlinked is freed, as in the code.
- Ramfs.Filesystem.CutAndGrow: other operations on a file after an unclean cut are not modelled; the VFS only truncates to zero, which is clean.
- Vfs.FileLayer.Open: the last name is not 56 to 59 bytes long.
- Vfs.FileLayer.FileSeek: offsets do not leave the signed 64-bit range.
- Vfs.FileLayer.CreatePath: the same restriction on the last name.
- Vfs.FileLayer.SysOpen: user-pointer checks are left out; the last name is not 56 to 59 bytes long.
- Interleaving of two kernel threads inside one file-system or heap call.
