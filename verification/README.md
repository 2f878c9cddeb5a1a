# Fermi OS kernel cores in Dafny

Fermi OS is a small aarch64 kernel with its own libc. This project models the places where it keeps
a concrete structure that has to agree with a simple mathematical view: page tables and mapped
regions, the run queue and dead list, three allocators, FAT32 cluster chains, the receive ring of the
network card, open-file descriptions, the directory stream, fork's memory copy and the ELF loader. Code that
works in place is modelled in place: classes whose methods update the same arrays, lists, headers
and index fields as the C functions, each proved against a specification on values, and theorems
about that specification for all inputs and all runs.

Every file holds one module of the same name.

| area | modules |
|---|---|
| page tables and descriptors | Descriptors, FramePools, PageTables, UserTables, Teardown |
| mapped regions and the memory syscalls | VmaViews, VmaRanges, VmaSets, Coherence, AddressSpace |
| scheduler and process lifecycle | SchedSpec, SchedProofs, SchedWaiting, SchedSleep, SchedZombies, SchedLeak, SchedStale, SchedLinks, SchedSurgery, SchedQueue |
| fork's memory copy | UserMaps, ForkMemory, ForkExec |
| page allocator | PageBitmap, PageAllocator, FrameSource |
| kernel heap | MallocBlocks, KernelHeapBlocks, KernelHeapLinks, KernelAllocator |
| libc malloc | MallocBlocks, MallocHeaders, MallocMemory, Malloc |
| FAT32 files | FatDisk, FatChains, FatContents, FatVolume |
| directories | DirSlots, DirRoot, DirVolume, DirRecords, DirStream |
| open files | OpenFiles |
| virtio-net receive ring | RxRing, ReceiveQueue |
| ELF loader | UserMaps, ElfFile, ElfEncoding, ElfImage, ElfLoader, ElfOverlaid |
| shared types | Values |

How the pieces fit:

* A four-level table is a tree of frames with no sharing; it stands for one flat map from page to
  descriptor (`PageTables`). The packed region array stands for one map from page to (prot, flags,
  frame) (`VmaViews`). `Coherence` says how the two maps must agree, and `AddressSpace` keeps that
  agreement through mmap, munmap, mprotect, faults and stack growth, with kmalloc and page
  allocation failing at will.
* The scheduler is a state machine on values (`SchedSpec`); its theorems are about every run
  of it. `SchedQueue` is the pointer code, and every kernel entry of it is proved to take exactly the
  machine's step.
* Both heaps are lists of headers in memory that stand for a list of blocks; the libc heap also
  carries the bytes of the arena, so that contents can be spoken of.
* A FAT32 volume is its sectors; the file allocation table and the files' chains are views of them.
* The receive ring runs the driver and an in-order device as interleaved steps over shared rings.

Where the code and its own comments disagree, the model follows the code:

* `src/mm/vma/vma.h` says that -1 from an unmap or protect means that nothing was modified. The list
  may already have been cut at one bound; what is unmodified is every page's record, and that is
  what is proved. The final merge may also weld across the bounds of the range.
* A failed `vma_clone` destroys the half-built copy and with it gives back the source's own pages;
  `VmaSets.VmaSet.CloneFrom` states exactly which.
* `sched_reap` sweeps a dead list that is still being rebuilt, and `sched_waitpid` frees the child it
  collects without any sweep. Either leaves zombies behind for ever; `SchedLeak` proves exactly which,
  for every step and every run, and gives a run for each.
* `fat_alloc_cluster` scans every entry of every copy of the table, also those behind the last
  cluster, so on a full volume it may hand out a cluster that does not exist. `FatVolume` proves
  exactly when the cluster exists, and what a write then does.
* The sweep of `sched_reap` follows the next pointer of the last zombie it kept, through structs the same
  pass has freed. `SchedStale` proves exactly which corpses a pass frees and exactly when that happens.
* `cluster_to_sector` is 32-bit arithmetic. It finds every cluster of the table if and only if the last one
  ends below sector 2^32 (`FatDisk.SectorsExact`); reads and writes of file data are about such volumes.
* `sched_fork` works from the parent's records, not from its page table. A page the parent has unmapped
  or re-protected behind its records comes back in the child, and a text page that the parent has made
  writable is shared with the child, writable. `ForkMemory` proves exactly which pages agree and exactly
  when a writable frame is shared.
* The iterator over the volume root reserves cursors 0 and 1 but numbers the real slots from 0, so it never
  delivers slots 0 and 1; `DirRoot` proves exactly when that loses an entry.
* `fd_open_ex` truncates before it looks for a descriptor, so an open that fails may have emptied the
  file. `OpenFiles` states the effect on the node in every case.
* A later segment that shares a page with an earlier one takes the whole page over, so the entry point
  may end up without execute permission and AT_PHDR may point at other bytes; `ElfLoader` proves for both
  exactly when, and `ElfOverlaid` is a file for which both happen.
* `src/sched/sched.h` says that killing oneself is exit with -1; the code exits with 0.
* `sleep_ms` rounds down to whole ticks, so it may sleep less than asked.
* `src/mm/heap/heap.h` calls the block list address-ordered; `heap_expand` appends in order of
  arrival, so the list is a partition of the regions and no more.
* `kmalloc` guards its own rounding against overflow, but `heap_expand` does not: for a request within
  a page of 2^64 it may add regions that cannot serve it. `KernelAllocator.ExpansionFits` gives the
  exact condition.

## Model

| member | source | states |
|---|---|---|
| `Descriptors.TableDescriptorRoundTrip` | src/mm/mmu/mmu.c:379-444 | a table descriptor is valid and leads back to exactly the frame it was built from |
| `Descriptors.LeafRoundTrip` | src/mm/mmu/mmu.c:204-245 | a user leaf leads back to exactly the frame and the rights it was built from |
| `Descriptors.FreshMappingMeansProt` | src/mm/mmu/mmu.c:204-245 | a fresh user leaf grants EL0 read, write and execute exactly as the protection bits ask, never lets the kernel execute the page, is of normal memory, and leads to the page given |
| `Descriptors.ReprotectIsFreshMap` | src/mm/mmu/mmu.c:291-322 | rewriting a leaf in place gives the very descriptor a fresh map with the new protection gives |
| `FramePools.FramePool.Allocate` | src/mm/pmm/pmm.c:103-132 | as the page tables see it: any free frame, or null exactly when none is free |
| `FramePools.FramePool.Release` | src/mm/pmm/pmm.c:184-212 | as the page tables see it: a frame handed out becomes free again, anything else is refused |
| `PageTables.LookupByTree` | src/mm/mmu/mmu.c:379-444 | the four-level walk finds the entry of the level-3 table that the tree of tables names, and nothing if that table does not exist |
| `PageTables.GrowKeepsShape` | src/mm/mmu/mmu.c:379-444 | hanging a fresh table into the tree keeps it a tree in which no table is shared |
| `PageTables.GrowKeepsLookup` | src/mm/mmu/mmu.c:379-444 | and changes the lookup of no page |
| `PageTables.WriteLeafChangesOnePage` | src/mm/mmu/mmu.c:204-221 | storing one level-3 entry changes the lookup of one page and of no other 48-bit page |
| `PageTables.RepresentsOne` | src/mm/mmu/mmu.c:379-444 | a table stands for only one flat map |
| `PageTables.PageTable.constructor` | src/mm/mmu/mmu.c:198-202 | a new user space is one empty top-level table that maps nothing |
| `PageTables.PageTable.HangTable` | src/mm/mmu/mmu.c:9-28 | a zeroed table is linked in, or nothing changes exactly when no frame is free; the flat map is unchanged |
| `PageTables.PageTable.Descend` | src/mm/mmu/mmu.c:379-444 | one level of the walk: null exactly when the next table is missing and may or can not be made |
| `PageTables.PageTable.WalkLevels` | src/mm/mmu/mmu.c:379-444 | the walk to level 3, allocating or not, returns the table of the page, fails only for want of it, and changes no page's lookup |
| `PageTables.PageTable.MapUserRange` | src/mm/mmu/mmu.c:204-221 | exactly the pages mapped before the tables ran out get their leaf, no other page changes, the tree stays a tree, and table frames come out of the free ones; page k of the run reaches the k-th frame behind the first with the rights asked for |
| `PageTables.NextPageNextFrame` | src/mm/mmu/mmu.c:204-221 | in plain addresses: the first page of a mapped range reaches the physical address given, and each next page the address 4096 higher |
| `PageTables.RunNumber` | src/mm/mmu/mmu.c:204-221 | so frame k of such a run has the frame number of the first plus k |
| `PageTables.RangeUnshared` | src/mm/mmu/mmu.c:204-221 | no two pages of a mapped range reach the same frame |
| `UserTables.MapRunIsMapped` | src/mm/mmu/mmu.c:204-221 | a flat map, as the loader and fork use it, that agrees with the page table on every page still does once the range is mapped in the table and laid over the map |
| `UserTables.MapBoth` | src/mm/mmu/mmu.c:204-221 | mapping a range, all of it or as far as the tables last, is laying just that run over the flat map |
| `PageTables.PageTable.UnmapUserRange` | src/mm/mmu/mmu.c:275-289 | exactly the pages of the range lose their leaf, and no table is touched otherwise |
| `PageTables.PageTable.ProtectUserRange` | src/mm/mmu/mmu.c:291-322 | exactly the mapped pages of the range are rewritten, and the result counts them |
| `Teardown.FreeUserTables` | src/mm/mmu/mmu.c:324-368 | every table of the tree is given back exactly once and nothing else is |
| `Teardown.UserSpaceLifetime` | src/mm/mmu/mmu.c:198-368 | build a user space, run any script of map, unmap and protect on it, tear it down: each operation did what it is for to exactly its range, a map stopping early only when no frame is free, and the free frames are those of the start |
| `VmaViews.ViewAt` | src/mm/vma/vma.c:32-44 | no page is in two regions, so the view of a page is the record of whichever region covers it |
| `VmaViews.InsertView` | src/mm/vma/vma.c:63-72 | an inserted region's pages, which were free, take its records; every other page is as before |
| `VmaViews.OverlappedExactly` | src/mm/vma/vma.c:46-57 | a range of whole pages overlaps a region if and only if one of its pages is mapped |
| `VmaViews.SplitKeepsView` | src/mm/vma/vma.c:125-177 | splitting changes no page's record and keeps the list sorted and disjoint |
| `VmaViews.SplitClears` | src/mm/vma/vma.c:125-177 | after a split the address is a boundary, and no other boundary moved |
| `VmaViews.MergeKeepsView` | src/mm/vma/vma.c:179-229 | welding neighbours changes no page's record |
| `VmaViews.ProtectedView` | src/mm/vma/vma.c:272-295 | the rewrite changes the protection of exactly the mapped pages of the range |
| `VmaSets.VmaSet.Find` | src/mm/vma/vma.c:32-44 | the region holding the byte, or -1 when no region does |
| `VmaSets.VmaSet.FindOverlap` | src/mm/vma/vma.c:46-57 | the first region that meets the range; -1 exactly when none does |
| `VmaSets.VmaSet.InsertSorted` | src/mm/vma/vma.c:63-72 | the array afterwards is the old one with the region inserted, behind all that start no later and before all that start later |
| `VmaSets.VmaSet.Add` | src/mm/vma/vma.c:74-123 | when a region is added (exact condition), the list with it inserted and no page faulted in; otherwise the list untouched |
| `VmaSets.VmaSet.Split` | src/mm/vma/vma.c:125-177 | when it succeeds (exact condition), and that success changes boundaries only |
| `VmaSets.VmaSet.MergeAdjacent` | src/mm/vma/vma.c:179-229 | no page's record changes, the result counts the welds, and when no allocation is refused no weldable pair is left |
| `VmaSets.MergedIsCoarsest` | src/mm/vma/vma.c:179-229 | when no weldable pair is left, two neighbouring pages with the same protection and flags are in the same region |
| `VmaSets.VmaSet.UnmapRange` | src/mm/vma/vma.c:231-270 | on -1 no record and no frame changed; otherwise exactly the pages of the range are gone, exactly their frames are free, the result counts them; and the exact condition for success |
| `VmaSets.VmaSet.ProtectRange` | src/mm/vma/vma.c:272-295 | on -1 no record changed; otherwise exactly the mapped pages of the range have the new protection, and the result is 0 exactly when there were none |
| `VmaSets.VmaSet.Destroy` | src/mm/vma/vma.c:374-382 | the list is empty and exactly the frames behind it are free |
| `VmaSets.VmaSet.ReleasePages` | src/mm/vma/vma.c:359-372 | the frames behind one region are free again, each counted |
| `VmaSets.VmaSet.CloneFrom` | src/mm/vma/vma.c:325-357 | success, exactly when every array allocation is granted, gives an equivalent list; failure frees exactly the source's frames behind the regions copied so far |
| `Coherence.ReachableFrames` | src/sched/sched.c:124-192 | what EL0 reaches above the mmap base is an allocated frame that is no page table, and no two pages reach the same one |
| `Coherence.AccessNeedsProt` | src/mm/mmu/mmu.c:223-245 | a live leaf lies in a region and grants exactly what the region's protection grants |
| `Coherence.UnmapKeeps` | src/syscall/syscall.c:672-709 | removing the records and then the leaves of a range keeps leaves and records in agreement |
| `Coherence.ProtectKeeps` | src/syscall/syscall.c:712-762 | rewriting leaves in place gives what the new records ask for |
| `Coherence.FillKeeps` | src/sched/sched.c:124-192 | a demand fault's leaf is the one its record asks for, or is missing |
| `AddressSpace.Task.Fault` | src/sched/sched.c:124-192 | handles the fault exactly when a region allows the access, the page is not there yet and a frame is free; then one free frame fills exactly that page, and its leaf, when its tables could be had, grants EL0 the access that faulted; with a frame free and the page not there, it is refused exactly when the protection bit of that access (4 to execute, 2 to write, 1 to read) is clear |
| `AddressSpace.PermitsExactly` | src/sched/sched.c:124-192 | the software check allows exactly the accesses the leaf would grant, but for loads from write-only pages, which it refuses and the leaf would grant |
| `AddressSpace.Task.Mmap` | src/syscall/syscall.c:583-660 | failure changes nothing; success adds exactly the asked pages, at the address when fixed, else at the lowest free range; with the exact condition for success of both kinds and for each error |
| `AddressSpace.Task.Munmap` | src/syscall/syscall.c:672-709 | failure changes no page, leaf or frame; success removes records, leaves and frames of exactly the whole pages; exact condition when no allocation is refused, and for each error |
| `AddressSpace.Task.Mprotect` | src/syscall/syscall.c:712-762 | the same for protections: records and live leaves of exactly the whole pages |
| `AddressSpace.Task.GrowStack` | src/sched/sched.c:60-111 | when a stack page is added (exact condition), that it is recorded, and that its leaf, when its tables could be had, lets EL0 read and write and nobody execute |
| `AddressSpace.StackZone` | src/sched/sched.c:60-111 | the growth zone holds exactly as many pages as may be grown, right below the four initial ones |
| `AddressSpace.FindFree` | src/syscall/syscall.c:553-567 | the lowest candidate whose range meets no region and ends below the ceiling; 0 when there is none |
| `AddressSpace.RunAddressSpace` | src/syscall/syscall.c:583-762 | from an empty space, any calls in any order with any failures: each in turn does exactly what it is for and answers so, exactly when it can; and in the end every live leaf above the mmap base grants exactly what its region grants, reaches an allocated frame that is no table, and no two pages share one |
| `SchedProofs.ReapAccounts` | src/sched/sched.c:987-1021 | a reap frees or keeps each corpse, never both and never neither |
| `SchedProofs.StepInv` | src/sched/sched.c:791-1128 | every kernel entry keeps the invariant: one cycle with idle and current, at most one RUNNING task and it is current, corpses only on the dead list, no task lost, duplicated or freed twice |
| `SchedProofs.RunFromBoot` | src/sched/sched.c:215-234 | over every run from boot every pid ever given is on exactly one of run queue, dead list and freed list, and current is never freed |
| `SchedWaiting.ScheduleCloser` | src/sched/sched.c:791-846 | each schedule() call runs a waiting READY task or brings it strictly closer to current |
| `SchedWaiting.StepCloser` | src/sched/sched.c:776-925 | no entry takes a waiting task further away |
| `SchedWaiting.BoundedWaiting` | src/sched/sched.c:791-846 | a READY task that is not killed runs within as many schedule() calls as its distance, whatever else happens |
| `SchedWaiting.RunsWithinTicks` | src/sched/sched.c:791-846 | in particular it runs within as many yields and timer ticks |
| `SchedWaiting.IdleOnlyWhenNothingReady` | src/sched/sched.c:791-846 | schedule() leaves idle current if and only if no other task is READY and the current one was idle or cannot go on |
| `SchedWaiting.IdleRunsExactly` | src/sched/sched.c:791-942 | for every kernel entry: idle is current afterwards if and only if the entry gave up or offered the processor with nothing else READY, or does not schedule and idle was current; a yield by another task never ends in idle |
| `SchedSleep.SleepPutsToSleep` | src/sched/sched.c:928-942 | the caller is asleep until exactly the tick it asked for |
| `SchedSleep.WakesExactly` | src/sched/sched.c:944-955 | a timer tick makes a sleeper READY if and only if its tick has come, and leaves it asleep otherwise |
| `SchedSleep.WakeLeavesOthers` | src/sched/sched.c:944-955 | and changes no task that does not sleep |
| `SchedSleep.StepKeepsSleeper` | src/sched/sched.c:776-1128 | every entry but a wake that is due and a kill of the sleeper leaves a sleeper asleep until the same tick |
| `SchedSleep.SleepsUntilDue` | src/sched/sched.c:928-955 | so over every run without those it is still asleep, and the first wake at or past its tick makes it READY |
| `SchedZombies.StatusDecodes` | src/sched/sched.c:1051-1128 | through the W* macros the status word is exit code mod 256, or signal 11 for a negative code |
| `SchedZombies.NoChildExactly` | src/sched/sched.c:1030-1049 | waitpid reports no child exactly when no task on the run queue and no corpse has the caller for a parent and, unless the request is -1, the pid asked for |
| `SchedZombies.CollectsWhatWasAsked` | src/sched/sched.c:1051-1128 | the pid returned is that of a corpse whose parent is the caller, and is the one asked for unless the request was -1 |
| `SchedZombies.DeadChildIsReturned` | src/sched/sched.c:1051-1128 | asking for the pid of a child that is a zombie returns that pid |
| `SchedZombies.PendingExactly` | src/sched/sched.c:1051-1128 | waitpid waits exactly when a child asked for is on the run queue and no such child is a corpse |
| `SchedZombies.StepKeepsZombie` | src/sched/sched.c:964-1021 | a zombie whose parent this entry does not free stays, unless this entry is the waitpid that returns it |
| `SchedZombies.ZombieDelivery` | src/sched/sched.c:1051-1128 | over any run that does not free its parent a zombie stays collectable until its parent's waitpid returns it |
| `SchedZombies.ExitLeavesZombie` | src/sched/sched.c:826-840 | an exiting child is a zombie with its exit code, unless this very step frees its parent |
| `SchedZombies.ExitIsDelivered` | src/sched/sched.c:853-869 | from exit to waitpid: over any run that does not free the parent, the exit is still collectable or has been returned with the status of its code |
| `SchedZombies.CollectedOnce` | src/sched/sched.c:1051-1128 | a pid that waitpid returns had not been freed before and is freed by it |
| `SchedLeak.ReapStrandsExactly` | src/sched/sched.c:964-1021 | after a reap a zombie is behind a freed parent if and only if it was before, or its parent is a parentless corpse with no kept corpse before it |
| `SchedLeak.StepStrandsExactly` | src/sched/sched.c:776-1128 | the same for every kernel entry: exactly the listed ways lead to a zombie behind a freed parent |
| `SchedLeak.RunStrandsExactly` | src/sched/sched.c:776-1128 | and over every run: a zombie is behind a freed parent at the end if and only if it was at the start or some step of the run put it there |
| `SchedLeak.ForsakenOnlyByWait` | src/sched/sched.c:1051-1128 | the only entry that leaves a live task with a freed parent is the waitpid that collects that parent |
| `SchedLeak.WaitForsakes` | src/sched/sched.c:1051-1128 | and that waitpid always does |
| `SchedLeak.CollectedParentStrands` | src/sched/sched.c:1051-1128 | a concrete run from boot in which a waitpid leaves a zombie behind that no reap would have |
| `SchedLeak.StrandedForever` | src/sched/sched.c:964-1021 | such a zombie is neither freed nor collected in any later run |
| `SchedLeak.ForgottenChildIsStranded` | src/sched/sched.c:987-1021 | a concrete run from boot that leaves one behind |
| `SchedStale.ReapFreesExactly` | src/sched/sched.c:964-1021 | a reap frees, in list order, exactly the corpses that have no parent or whose parent is a corpse freed before them behind the first zombie |
| `SchedStale.SweepsFreedExactly` | src/sched/sched.c:964-1021 | a reap's sweep walks through a struct the same pass has freed if and only if two corpses in a row are freed behind the first zombie |
| `SchedStale.IdleNeverDead` | src/sched/sched.c:791-846 | idle is never a corpse, so both hold in every state a run reaches |
| `SchedStale.SweepMeetsFreed` | src/sched/sched.c:871-1021 | a concrete run from boot after which the next reap does so |
| `SchedQueue.Scheduler.constructor` | src/sched/sched.c:215-234 | the queue at boot is idle alone |
| `SchedQueue.Scheduler.Create` | src/sched/sched.c:277-289 | the new task goes in behind the last one; a failed allocation changes nothing |
| `SchedQueue.Scheduler.ScanQueue` | src/sched/sched.c:791-846 | the scan finds the first READY task other than idle, else READY idle |
| `SchedQueue.Scheduler.OrphanChildren` | src/sched/sched.c:964-985 | exactly the children of the pid on the run queue and on whatever the dead list pointer leads to lose their parent |
| `SchedQueue.Scheduler.Reap` | src/sched/sched.c:987-1021 | relinking the dead list in place takes the machine's reap step, and one of its sweeps meets a freed struct exactly when `SchedStale` says so |
| `SchedQueue.Scheduler.Schedule` | src/sched/sched.c:791-846 | the pointer code takes the machine's schedule step, burying a dead current task |
| `SchedQueue.Scheduler.Exit` | src/sched/sched.c:853-869 | takes the machine's exit step |
| `SchedQueue.Scheduler.Sleep` | src/sched/sched.c:928-942 | takes the machine's sleep step, for the requested time in whole ticks rounded down, and at least one tick |
| `SchedQueue.Scheduler.WakeSleepers` | src/sched/sched.c:944-955 | takes the machine's wake step: exactly the sleepers that are due |
| `SchedQueue.Scheduler.Kill` | src/sched/sched.c:871-925 | takes the machine's kill step, and refuses exactly idle, unknown and dead pids |
| `SchedQueue.Scheduler.WaitOnce` | src/sched/sched.c:1051-1128 | one pass of waitpid takes the machine's step and returns its result, which `SchedZombies` says is the child asked for |
| `SchedQueue.Scheduler.Execute` | src/sched/sched.c:791-1128 | from a queue in the invariant, any entry of the pointer code takes exactly the machine's step and restores the invariant |
| `ForkMemory.Machine.Fork` | src/sched/sched.c:527-711 | every page the parent's records name, and no other, is in the child's table with the recorded rights and the contents of the recorded frame, zeroed for the thread-local page, in a frame of its own unless it is a page of the text window that no other record covers; the parent's memory is unchanged, the child's records name its own frames and agree with its table; and no frame is shared that either may write if and only if the parent maps no text frame for writing that the child maps |
| `ForkMemory.SharedExactly` | src/sched/sched.c:565-572 | that last condition, for any parent and child with such records |
| `ForkMemory.ProtectedTextIsShared` | src/syscall/syscall.c:712-762 | re-protecting a text leaf to read and write makes it writable for EL0, and a parent with such a leaf, in the kernel's own layout, fails the condition |
| `ForkMemory.Machine.ForkTwice` | src/sched/sched.c:527-711 | whatever a parent has done to its page table, the child is what its records say, and the child's own fork is an exact and isolated copy of the child |
| `ForkMemory.CopyExactly` | src/sched/sched.c:527-711 | a page other than the thread-local one is the same in parent and child if and only if the parent's table agrees with its records there |
| `ForkMemory.UnmappedPageComesBack` | src/sched/sched.c:600-621 | a concrete parent, in the kernel's own layout, without a stack page whose child has it, writable |
| `ForkMemory.RightsInLeaf` | src/mm/mmu/mmu.c:204-221 | the write right spoken of here is that of the descriptor the page table would hold |
| `ForkMemory.Machine.CopyVma` | src/sched/sched.c:669-711 | a region's faulted-in pages are copied into frames of their own and mapped with the region's protection, the others stay absent |
| `ForkMemory.RecordedAt` | src/sched/sched.c:527-711 | the recorded map page by page: the last region, stack, grown, thread-local or faulted-in record that covers a page decides its frame and its rights |
| `ForkMemory.FixedRights` | src/sched/sched.c:565-635 | for EL0 alone, the text window is to read and execute and stack pages are to read and write |
| `ForkExec.ImageIsRecorded` | src/syscall/elf.c:187-277 | the map made from the records of a loaded image is the map the loader left |
| `ForkExec.RunsAsRecorded` | src/sched/sched.c:527-711 | a task whose table is what the loader left, with its stack, grown pages, thread-local page and faulted-in pages laid over it, agrees with its records on every page |
| `ForkExec.ExecForkIsExact` | src/sched/sched.c:527-711 | so its fork has every page but the thread-local one at the same address with the same rights and contents, and no other page |
| `ForkExec.SegmentIsCopied` | src/sched/sched.c:527-572 | a page v of a segment, p_vaddr / 4096 <= v and below the end of p_memsz, that no later segment and no other record covers is in the child at v with the rights of p_flags and what the loader's frame has |
| `ForkMemory.StoresStayPrivate` | src/sched/sched.c:527-635 | after fork, a store by either task through any page it may write is invisible through every page of the other |
| `PageBitmap.CountSet` | src/mm/pmm/pmm.c:18-28 | setting or clearing one bit moves the count of used pages by one |
| `PageBitmap.RepresentsOnce` | src/mm/pmm/pmm.c:45-96 | the words of the bitmap are determined by the pages in use |
| `PageBitmap.NotFull` | src/mm/pmm/pmm.c:103-132 | a word that is not all ones has a page that exists and is free, so the scan's range check never fires |
| `PageAllocator.PageAllocator.constructor` | src/mm/pmm/pmm.c:45-96 | after init exactly the kernel's and the bitmap's pages are used, and the counter says so |
| `PageAllocator.ReservedExactly` | src/mm/pmm/pmm.c:45-96 | the reserved pages hold the kernel and, right behind it, a bitmap with a bit for every page, and the last of them holds some of that |
| `PageAllocator.PageAllocator.AllocatePage` | src/mm/pmm/pmm.c:103-132 | the word-skipping scan takes the lowest free page, and returns 0 exactly when none is free |
| `PageAllocator.PageAllocator.AllocatePages` | src/mm/pmm/pmm.c:134-170 | the leftmost run of that many free pages, or 0 exactly when there is none |
| `PageAllocator.PageAllocator.FreePage` | src/mm/pmm/pmm.c:184-212 | only the address of an allocatable page clears a bit; the counter keeps equal to the number of set bits |
| `PageAllocator.PageAllocator.FreePages` | src/mm/pmm/pmm.c:172-176 | page by page |
| `PageAllocator.PageAllocator.AllocateThenFree` | src/mm/pmm/pmm.c:134-176 | allocating takes a run of free pages whenever there is one, and freeing it again restores the bitmap word for word and the counter |
| `FrameSource.Allocate` | src/mm/pmm/pmm.c:103-132 | the bitmap allocator does what the frame pool promises the page tables: null exactly when no frame is free, else a frame that was free, and only that one is taken |
| `FrameSource.Release` | src/mm/pmm/pmm.c:184-212 | and giving a frame back frees that one, unless it is reserved |
| `KernelHeapBlocks.SplitPartition` | src/mm/heap/heap.c:129-189 | a split keeps the blocks an exact partition of the regions |
| `KernelHeapBlocks.MergePartition` | src/mm/heap/heap.c:191-246 | so does merging two blocks that are adjacent in memory |
| `KernelHeapBlocks.AppendPartition` | src/mm/heap/heap.c:83-124 | so does a new region, wherever it lies |
| `KernelAllocator.ExpansionFits` | src/mm/heap/heap.c:83-90 | an expansion can serve the request it was made for if and only if rounding the request up to pages does not overflow |
| `KernelAllocator.LivePayloadsApart` | src/mm/heap/heap.c:129-189 | no byte is in two live payloads, and every one is in a region |
| `KernelAllocator.Heap.constructor` | src/mm/heap/heap.c:46-76 | the initial heap is one free block over one region |
| `KernelAllocator.Heap.Expand` | src/mm/heap/heap.c:83-124 | one free block over one more region behind the tail, or the list as before when there are no pages or the region table is full |
| `KernelAllocator.Heap.Kmalloc` | src/mm/heap/heap.c:129-189 | exactly when it returns null; otherwise one more live block, 16-aligned, at the first fit, at most 64 bytes larger than the rounded request, and no other live block changes |
| `KernelAllocator.Heap.Coalesce` | src/mm/heap/heap.c:222-246 | afterwards no two list-consecutive free blocks are adjacent in memory, and no live block changed |
| `KernelAllocator.Heap.Kfree` | src/mm/heap/heap.c:191-246 | a live block, and nothing else, leaves the live blocks, and the list is fully merged; every other pointer to a header, also of a block merged away, is refused and changes nothing |
| `KernelAllocator.Heap.KmallocThenKfree` | src/mm/heap/heap.c:129-246 | what kmalloc took, whenever it does not refuse, kfree gives back: live blocks and bytes in use are as before |
| `KernelAllocator.Heap.Counters` | src/mm/heap/heap.c:277-305 | the loops count the used and free bytes, and with the headers they make up the regions |
| `MallocBlocks.MergeUndoesSplit` | user/lib/malloc.c:118-149 | merging gives back what a split cut off |
| `MallocBlocks.ReleaseCoalesces` | user/lib/malloc.c:118-149 | merging both ways at the freed block leaves no two neighbours free |
| `MallocBlocks.ReleaseUndoesTake` | user/lib/malloc.c:118-149 | freeing a block straight after it was taken restores the list exactly |
| `MallocMemory.LivePayloadsApart` | user/lib/malloc.c:151-206 | live payloads are 16-aligned, inside the arena and do not overlap |
| `Malloc.Heap.constructor` | user/lib/malloc.c:84-103 | an empty arena |
| `Malloc.Heap.Release` | user/lib/malloc.c:118-149 | the pointer surgery of coalescing gives the released list, keeps list and headers intact, and changes no live payload |
| `Malloc.Heap.Grow` | user/lib/malloc.c:84-103 | the arena grows by exactly the bytes asked for at its end if the kernel moves the break, and stays as it is otherwise |
| `Malloc.Heap.Append` | user/lib/malloc.c:105-114 | the new block stands at the end of the list, linked both ways |
| `Malloc.Heap.Allocate` | user/lib/malloc.c:151-206 | first fit or a new block: a zeroed 16-aligned payload of at least the size asked for and at most a header and a smallest payload above the rounded size; the list is the old one with the block taken and the rest of it a free block right behind, or with one block of the rounded size at the end; blocks tile the arena, no two free neighbours, every other live payload byte for byte as before; null exactly when no free block fits and the kernel does not move the break, and then nothing changes |
| `Malloc.TakenBlock` | user/lib/malloc.c:160-190 | a block that is taken keeps its address and is never larger than the request by a header and a smallest payload |
| `Malloc.Heap.Free` | user/lib/malloc.c:208-223 | exactly the block of that pointer leaves the live ones, the rest keep their bytes; null, freed and other pointers to intact headers change nothing |
| `Malloc.Heap.Write` | user/lib/malloc.c:151-206 | a store of the program into its own payload disturbs neither the list nor any other payload |
| `Malloc.Heap.Reallocate` | user/lib/malloc.c:225-275 | the first min(old, new) bytes survive, in place when the block is large enough, the new block is at most a header and a smallest payload above the rounded size, no other live payload changes, size 0 frees; failure exactly when the block is too small, no free block fits and the kernel does not move the break, and then nothing changes |
| `FatDisk.SetEntryChangesOneEntry` | src/fs/fat32/fat32.c:355-378 | a table store changes the low 28 bits of one entry and nothing else on the disk |
| `FatDisk.SectorsApart` | src/fs/fat32/fat32.c:16-18 | different clusters occupy different sectors, where sector numbers do not wrap |
| `FatDisk.SectorsExact` | src/fs/fat32/fat32.c:16-18 | the 32-bit sector number is the true one for every cluster of the table if and only if the last cluster ends within 32 bits |
| `FatDisk.WrappedClustersMeet` | src/fs/fat32/fat32.c:16-18 | a concrete volume beyond that on which two clusters of the table have the same sectors |
| `FatChains.ChainsAreAcyclic` | src/fs/fat32/fat32.c:20-37 | a chain that ends never comes back to a cluster |
| `FatChains.ChainIsUnique` | src/fs/fat32/fat32.c:20-37 | the table determines the chain of a first cluster |
| `FatChains.FileGrows` | src/fs/fat32/fat32.c:711-733 | linking a free cluster behind a file extends its chain and keeps all chains disjoint and unchanged otherwise |
| `FatChains.FreeConserved` | src/fs/fat32/fat32.c:381-414 | clusters lost by the free ones are exactly those the file gained |
| `FatChains.GainExists` | src/fs/fat32/fat32.c:381-414 | the clusters a file gains all exist if and only if it gains no more than there are free clusters that exist |
| `FatContents.PatchOverlays` | src/fs/fat32/fat32.c:771-828 | read-modify-write of a sector lays the bytes over exactly their place in the file and touches no cluster outside its chain |
| `FatContents.FileWritten` | src/fs/fat32/fat32.c:771-828 | the whole file reads as before with the data in its place |
| `FatContents.OthersKept` | src/fs/fat32/fat32.c:771-828 | every other file whose clusters exist keeps its chain and every byte |
| `FatVolume.PaddingIsHandedOut` | src/fs/fat32/fat32.c:381-414 | a concrete full volume on which the scan finds a free entry all the same, of a cluster that does not exist |
| `FatVolume.OneSectorIsWhole` | src/fs/fat32/fat32.c:16-18 | with one sector to a cluster the device never ends inside one |
| `FatVolume.Volume.FatNext` | src/fs/fat32/fat32.c:20-37 | reads the low 28 bits of the cluster's table entry from its sector |
| `FatVolume.Volume.FatWrite` | src/fs/fat32/fat32.c:355-378 | the table view changes in one entry and the data region not at all |
| `FatVolume.Volume.AllocCluster` | src/fs/fat32/fat32.c:381-414 | the lowest free entry, marked as an end; 0 exactly when none is free; the cluster exists if and only if some free entry is of a cluster that does |
| `FatVolume.Volume.ExtendChain` | src/fs/fat32/fat32.c:711-733 | the file gains as many clusters as asked for, or all the free entries, lowest first, and no other chain and no data changes |
| `FatVolume.Volume.SeekCluster` | src/fs/fat32/fat32.c:739-766 | the cluster that holds the offset, grown to if asked; fails only at the end of chain or of free entries |
| `FatVolume.Volume.WriteAt` | src/fs/fat32/fat32.c:771-828 | when the clusters it needs are there or free and exist, it succeeds and the data lies over the file at the offset, and on a device that ends at a cluster boundary it succeeds only then; in every case no other chain and no sector outside this file changes and no cluster is taken beyond need |
| `FatVolume.Volume.Read` | src/fs/fat32/fat32.c:830-861 | succeeds if and only if every sector the bytes asked for are in exists; then the first bytes of the file's content, as many as asked for, as fit and as there are |
| `FatVolume.Volume.WriteThenRead` | src/fs/fat32/fat32.c:771-861 | a write and a later read of a file whose clusters exist: with room the written bytes come back in their place and those before them are the old ones; every other file whose clusters exist is unchanged, room or not |
| `DirSlots.Iterate` | src/fs/fat32/fat32.c:229-296 | in a subdirectory: the next live entry at or after the cursor and the cursor behind it, with nothing live skipped; end exactly when none is left |
| `DirSlots.InodeTells` | src/fs/fat32/fat32_vfs.c:74-78 | an inode number tells the first cluster and whether the entry is a directory, so a file and a directory never share one |
| `DirSlots.DisplayUnpads` | src/fs/fat32/fat32.c:160-184 | a space-padded short name is shown as base, dot and extension, or base alone |
| `DirRoot.RootIterate` | src/fs/fat32/fat32.c:199-296 | in the volume root: the made-up pair under cursors 0 and 1, then the live entries from slot 2 on, one at a time, and the end exactly when none is left |
| `DirRoot.ListRoot` | src/fs/fat32/fat32.c:199-296 | a whole listing of the root: ".", "..", and the live entries from slot 2 on, each once |
| `DirRoot.RootListsAll` | src/fs/fat32/fat32.c:212-230 | such a listing delivers every live entry if and only if slots 0 and 1 hold none |
| `DirRoot.FirstFileIsLost` | src/fs/fat32/fat32.c:212-230 | a concrete root whose only file is in no listing |
| `DirVolume.DirectoryIsContent` | src/fs/fat32/fat32.c:231-288 | the slots the iterator walks are the contents of the directory's cluster chain, decoded 32 bytes at a time, all of them and in order |
| `DirVolume.SlotRoundTrip` | src/fs/fat32/fat32.h:36-49 | a slot is read back exactly from its fields laid down in the order and widths of the format |
| `DirVolume.ListingKept` | src/fs/fat32/fat32.c:711-828 | growing and writing a file changes the listing of no directory whose clusters exist |
| `DirRecords.LeRoundTrip` | user/lib/dirent.c:94-155 | a number that fits is read back from its little-endian bytes |
| `DirRecords.DecodeEncoded` | user/lib/dirent.c:94-155 | decoding a record gives back exactly the inode, cookie, type and name it was made from |
| `DirStream.SomeFits` | user/lib/dirent.c:45-92 | a full-sized buffer takes at least one record unless the directory is exhausted |
| `DirStream.Stream.constructor` | user/lib/dirent.c:45-92 | after opendir all live entries are still to come |
| `DirStream.Stream.GetDents` | src/syscall/syscall.c:1170-1262 | the records that fit, greedily, in slot order, and the cursor behind them; what does not fit is not consumed |
| `DirStream.Stream.ReadBatches` | src/syscall/syscall.c:1170-1262 | for any sequence of calls with any buffer sizes: each answer is within its size and holds as many of the entries still left as fit; it is empty exactly when none is left or the next does not fit; read back, the answers together are the live entries in slot order, each once, up to the new cursor |
| `DirStream.DecodeBatch` | user/lib/dirent.c:94-155 | walking an answer by its record lengths gives back exactly the records it was made from |
| `DirStream.EnoughCalls` | src/syscall/syscall.c:1170-1262 | with room for the longest record in every buffer, as many calls as there are entries empty the directory |
| `DirStream.Stream.Readdir` | user/lib/dirent.c:94-155 | one entry after the other, decoded exactly, and NULL for ever after the last |
| `DirStream.Stream.Rewind` | user/lib/dirent.c:168-179 | all live entries are to come again |
| `OpenFiles.LiveExactly` | src/fs/vfs/vfs.c:241-249 | a description is alive exactly as long as some slot of some table points to it |
| `OpenFiles.DropKeeps` | src/fs/vfs/vfs.c:241-249 | giving up a slot frees the description exactly when it was the last, and keeps every count right |
| `OpenFiles.CountsDetermined` | src/fs/vfs/vfs.c:198-269 | the tables determine which descriptions live and how often each is counted |
| `OpenFiles.SharedOffset` | src/fs/vfs/vfs.c:490-529 | setting an offset is seen through every sharer and through no one else |
| `OpenFiles.Vfs.AllocFd` | src/fs/vfs/vfs.c:231-239 | the lowest free slot, or -1 when the table is full |
| `OpenFiles.Vfs.Open` | src/fs/vfs/vfs.c:271-332 | when it fails (exact condition) no description and no table changes; otherwise the lowest free slot points to a new description; either way the nodes are those after resolution and truncation |
| `OpenFiles.NodeAfter` | src/fs/vfs/vfs.c:283-309 | an open() changes a node that was there only if it is the node reached and truncating it succeeds, and then only its size, to 0 |
| `OpenFiles.NodesKept` | src/fs/vfs/vfs.c:283-309 | an open(), successful or not, leaves every node as it was if and only if it caches no new one and truncates none that is not empty |
| `OpenFiles.Vfs.RefusedOpenEmpties` | src/fs/vfs/vfs.c:302-319 | an open() for truncation that gets no memory for its struct returns -1, changes no description and no table, and has emptied exactly its file |
| `OpenFiles.TruncationSeen` | src/fs/vfs/vfs.c:302-309 | after an open() SEEK_END leads to 0 through every description of the node it truncated, and to where it did before through every other |
| `OpenFiles.Vfs.TruncateThenSeekEnd` | src/fs/vfs/vfs.c:271-529 | the two calls one after the other, through any table and descriptor, whether or not the open() succeeds |
| `OpenFiles.Vfs.Close` | src/fs/vfs/vfs.c:476-488 | the slot is empty, and the description is freed exactly when no other slot points to it |
| `OpenFiles.Vfs.Clone` | src/fs/vfs/vfs.c:251-269 | the new table shares every description of the source, nothing but counts changes |
| `OpenFiles.Vfs.Destroy` | src/fs/vfs/vfs.c:198-212 | the table is gone, and with it the descriptions only it held |
| `OpenFiles.Vfs.Seek` | src/fs/vfs/vfs.c:490-529 | the new offset is the argument itself, the current offset plus it or the node's present size plus it, refused exactly for bad descriptors, character devices, undefined origins and negative results |
| `OpenFiles.Vfs.CloneThenDestroy` | src/fs/vfs/vfs.c:198-269 | the clone shares every slot of its source, and destroying it restores every description and table |
| `RxRing.SoundSizes` | src/pci/virtio/virtqueue.c:9-78 | of the queue sizes setup can arrive at, exactly 8 and 16 have eight slots and divide 65536 |
| `RxRing.WrapHarmless` | src/pci/virtio/virtqueue.c:80-96 | 16-bit indices pick the same slots as unbounded counts if and only if the size divides 65536 |
| `RxRing.EnoughSlots` | src/pci/virtio/net/net.c:125-143 | eight outstanding buffers never share a slot if and only if there are eight slots |
| `RxRing.PostKeeps` | src/pci/virtio/net/net.c:125-130 | posting overwrites no outstanding descriptor and no unread ring slot |
| `RxRing.CompleteKeeps` | src/pci/virtio/net/net.c:145-186 | neither does the device's completion |
| `RxRing.DrainKeeps` | src/pci/virtio/net/net.c:145-186 | the oldest used entry names its own slot and buffer, and draining it keeps the rings sound |
| `RxRing.OneToOne` | src/pci/virtio/net/net.c:125-186 | the outstanding descriptors map one to one onto the buffers |
| `ReceiveQueue.ReceiveQueue.SubmitBuf` | src/pci/virtio/virtqueue.c:80-96 | one more buffer is outstanding, in the next slot, and the wrapped indices follow the count |
| `ReceiveQueue.ReceiveQueue.Init` | src/pci/virtio/net/net.c:132-143 | all eight buffers are posted |
| `ReceiveQueue.ReceiveQueue.DeviceFetch` | src/pci/virtio/virtqueue.c:80-96 | the device picks up the next posted buffer exactly when there is one it has not fetched, and the rings stay sound |
| `ReceiveQueue.ReceiveQueue.DeviceComplete` | src/pci/virtio/net/net.c:145-186 | an in-order device's packet joins the packets waiting, in order |
| `ReceiveQueue.ReceiveQueue.Poll` | src/pci/virtio/net/net.c:145-186 | in any interleaving with the device: the oldest waiting packet without its header, cut to the caller's buffer, and the buffer posted again; nothing is taken when none waits, and the result is 0 then, for a packet no longer than its header and for an empty buffer |
| `ReceiveQueue.FrameIs` | src/pci/virtio/net/net.c:145-186 | the frame is what lies behind the 12 bytes of the virtio header, cut to the buffer |
| `ElfFile.SegmentRights` | src/syscall/elf.c:73-116 | accepted are exactly segments that may be read and not both written and executed; a descriptor grants EL0 exactly the rights of p_flags, the kernel no execution, and is of normal memory |
| `ElfFile.HeaderChecksExact` | src/syscall/elf.c:127-177 | the wrapping header checks accept exactly the files whose whole header table is inside |
| `ElfFile.IdentExactly` | src/syscall/elf.c:127-177 | accepted identification is exactly that of a 64-bit little-endian aarch64 executable |
| `ElfEncoding.EhdrRoundTrip` | src/syscall/elf.h:39-54 | from the fields of a file header laid down in order the loader reads type, machine, entry, table offset, entry size and count as they are |
| `ElfEncoding.PhdrRoundTrip` | src/syscall/elf.h:56-65 | from the fields of a program header laid down in order, at any place, it reads exactly that header |
| `ElfFile.SegmentChecksExact` | src/syscall/elf.c:194-212 | the wrapping segment checks accept exactly the segments whose file bytes are in the file and whose pages are below the stack top |
| `ElfFile.AcceptableExactly` | src/syscall/elf.c:187-325 | bit by bit, what a file must be for the loader to take it, memory permitting |
| `ElfImage.FilledHolds` | src/syscall/elf.c:228-248 | zeroing and copying leave each page of the run with the segment's file bytes and zeros everywhere else |
| `ElfImage.AddSegment` | src/syscall/elf.c:228-269 | one more segment in free frames: its pages are as it says, every other page of the image is untouched |
| `ElfImage.ReadsLast` | src/syscall/elf.c:187-277 | whatever the segments, each byte of a covered page is that of the last segment covering the page |
| `ElfImage.ReadsSegment` | src/syscall/elf.c:187-277 | every byte of a PT_LOAD whose page no later segment covers reads as its file byte, or zero past p_filesz, with the segment's rights |
| `ElfLoader.TableReads` | src/syscall/elf.c:283-307 | a non-zero AT_PHDR is the address of the header table in the first segment that holds it; the program reads the file's table there if and only if the last segments covering its pages have those bytes in the file; bytes on pages no later segment covers always are |
| `ElfLoader.TableAddress` | src/syscall/elf.c:283-307 | AT_PHDR is 0 if no PT_LOAD holds the whole table, and else the address the first one that does gives it |
| `ElfOverlaid.TableOverlaid` | src/syscall/elf.c:283-307 | a concrete file the loader accepts whose AT_PHDR is not zero and leads to other bytes |
| `ElfLoader.EntryExecutable` | src/syscall/elf.c:309-325 | the entry point is in a mapped page, and EL0 may execute it if and only if the last segment covering that page is executable |
| `ElfOverlaid.EntryOverlaid` | src/syscall/elf.c:309-325 | the same file has its entry point in a page that ends up not executable |
| `ElfLoader.WriteXorExecute` | src/syscall/elf.c:87-116 | the descriptor of every page the loader mapped grants EL0 exactly the rights of the last segment covering it, and never write and execute |
| `ElfLoader.OwnFrame` | src/syscall/elf.c:187-277 | a page is backed by the segment's own frame if and only if no later segment covers it |
| `ElfLoader.Loader.LoadSegment` | src/syscall/elf.c:228-269 | allocates the leftmost free run, fills and maps it, or changes nothing for want of one |
| `ElfLoader.Loader.FreeRegions` | src/syscall/elf.c:118-125 | the bitmap is the one from before the load |
| `ElfLoader.Loader.Load` | src/syscall/elf.c:127-328 | succeeds if and only if the file is acceptable and placing its segments leftmost, one after the other, finds a run of pages for each; then the image above is there with exactly the recorded runs taken; failure leaves the bitmap as it was; memory in use before is untouched either way |

## Left out

- AddressSpace.Task.Fault: does not model that the new page is zeroed, because page contents are not part of this class.
- AddressSpace.Task.GrowStack: does not model that the new stack page is zeroed, because page contents are not part of this class.
- AddressSpace.Task.Mprotect: the converse of coherence is not claimed, because a recorded page may lack its leaf when a table allocation failed.
- DirStream.Stream.GetDents: nobody changes the directory while it is being read, and it is a FAT32 subdirectory; the volume root has its own iterator in `DirRoot`.
- ElfLoader.Loader.Load: table pages are always available and the page table is the flat map that PageTables shows mmu_map_user_range to implement; on failure the stale leaves that the caller tears down are not described.
- FatVolume.Volume.WriteAt: volumes are those whose last table entry's cluster ends below sector 2^32, and writes end below byte 2^32 of the file; beyond either the 32-bit sums wrap. The block device fails exactly for sectors it does not have. On a device that ends inside a cluster, a write may also succeed in the sectors that are there; that success needs whole clusters is shown for devices that end at a cluster boundary.
- FatVolume.Volume.WriteThenRead: the same volumes and writes as `FatVolume.Volume.WriteAt`, for the same reason.
- FatDisk.SectorsApart: about true sector numbers; `FatDisk.SectorsExact` says when the code's are those.
- FatVolume.Volume.Read: the same volumes, for the same reason.
- FramePools.FramePool.Allocate: which free frame is handed out is left open, because no client depends on it; `FrameSource.Allocate` shows the allocator to be one such pool.
- ForkMemory.Machine.Fork: no allocation fails, because the out-of-memory paths give back pages that are still the parent's.
- KernelAllocator.Heap.Kfree: the pointer is one behind a header the allocator once wrote and nobody overwrote; what the kernel stores in payloads is not modelled.
- Malloc.Heap.Allocate: requests are not so near 2^64 that rounding wraps, nobody else moves the break, and the first break is 16-aligned and not 0.
- Malloc.Heap.Free: the pointer is null or one behind a header that no program store has touched.
- Malloc.Heap.Reallocate: the pointer is null or that of a live block, and requests are not so near 2^64 that rounding wraps.
- OpenFiles.Vfs.Open: the directory nodes that resolving a path caches on its way are not modelled, nor is running out of nodes other than as a path that does not resolve.
- OpenFiles.Vfs.Seek: the sum of offset and origin does not leave 64 bits.
- PageAllocator.PageAllocator.constructor: the memory size is a whole number of pages; words are modelled as 64 flags rather than as shifts and masks.
- PageTables.PageTable.WalkLevels: only the walk to level 3; the walk to level 2 is used by a boot-time test alone. Pages are those of a 48-bit address space.
- ReceiveQueue.ReceiveQueue.Poll: the device completes in order and writes only what it fetched; the queue has 8 or 16 slots, the sizes for which RxRing shows the index arithmetic to be sound.
- SchedQueue.Scheduler.Execute: each entry is atomic, idle never exits or sleeps, and waitpid's loop is its passes with the processor given up between them.
- VmaSets.VmaSet.CloneFrom: page arrays are values, so their own kmalloc'ed memory and its release are not modelled; kmalloc is an oracle that may refuse any request.
- TLB, cache, barrier and other hardware instructions, boot, interrupts, timers and device registers.
- brk, exec as a whole, the file-size bookkeeping and truncation of FAT32, file creation and path walking.
- Built-in directory listings, stdio, the transmit side and descriptor chains of virtio, networking above the ring, the shell, /proc and the user programs.
- Plain library code (printf, strings, qsort, checksums), which would only add easy members.
