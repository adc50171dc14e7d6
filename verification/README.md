# KernixOS core: a verified model

A Dafny model of the parts of KernixOS that keep invariants, with proofs that they keep them.

The **memory stack** is modelled layer on layer, in the form the kernel has it. `Memory` is `mem.c` over an array of bytes.
`Heap` is the best-fit allocator whose block headers live inside that array: the ghost block list and the bytes are tied together by
`Represents`, and every store is shown to land in a header or in free space. `HeapLaws` states what follows for whole runs.
`KernelMemory` adds the accounting of `used_heap`. `Bitmap`, `PhysMem` and `PhysLaws` are the frame allocator, its bootstrap included.
`PageTable` and `Paging` are the 4-level tree, built in place from frames of that allocator, large pages of the boot loader included; the reference is the hardware walk of the
Intel SDM, volume 3A, section 4.5, for 4-level paging, write permission along the walk included. `UserSpace` puts processes on top: `NoSharedFrame` is the end-to-end theorem.

The **scheduler** is a state machine on one CPU: `SchedulerSpec` gives the steps on values, `SchedulerLaws` proves safety and bounded
waiting over all runs, `SchedulerEffects` what each step does and how long a slice lasts, and the class in `Scheduler` (ring buffers, pool, current pointer) refines the steps. A step ends where the
context switch happens.

The rest are single results: `Line` (Bresenham, pixel for pixel), `Timer` and `TimerLaws` (removal during iteration, exact firing
counts), `Checksum` and `Network` (RFC 1071, sections 1 and 2; ICMP echo; the ARP table as a map), `Tmpfs` (files and descriptors),
`KeditText` and `Kedit` (the editor refines flat text; saving and loading), `CString` and `Decimal` (printing and parsing numbers).

Where the program keeps state, the model has a class with the same fields and methods that change them; ghost fields hold the abstract
value. Things that are out of sight, such as whether the heap has room for a file buffer, are parameters. Where the kernel panics, the
method returns a failure and says when.

`dafny verify dfyconfig.toml` checks the whole project.

## Findings

Where the code does not do what its names promise, the model follows the code and a lemma says exactly when it does.

- `malloc` rounds a size above 2^64 - 16 to 0 (`HeapLaws.RoundedCovers`) and then succeeds with too small a block
  (`KernelMemory.HugeRequestSucceeds`).
- Block sizes do not stay multiples of 16: merging adds the 40 bytes of a header (`HeapLaws.MergedSize`). They stay multiples of 8
  (`HeapLaws.RunKeepsEights`).
- `kernel_memory_alloc` lets count * size wrap. A successful call holds all items if and only if the product is at most 2^64 - 16
  (`KernelMemory.ItemsFit`); 2^62 + 4 items of 4 bytes get 16 bytes (`KernelMemory.WrappedItems`).
- `used_heap` drifts by 40 for every allocation that takes a whole block, because the merge correction later never comes. The reported
  free size is exact if and only if there was none (`KernelMemory.ReportedFreeExact`); one allocation of the whole arena already makes
  the report wrap to 2^64 - 40 (`KernelMemory.WholeArenaUnderflows`).
- Freeing a dead pointer still lowers `used_heap` (`KernelMemory.DeadFreeLedger`); a double free on the fresh heap makes the reported free
  size twice the arena (`KernelMemory.DoubleFree`).
- The plausibility test in `free` compares `!size` with 1 and never fires (`Heap.NeverImplausible`).
- `physmem_init` refuses a usable entry at address 0, although it fits (`PhysMem.HostAtZeroRefused`).
- At boot idle is current and queued at once; that ends with the first dispatch (`SchedulerLaws.StepKeeps`). Blocking idle breaks the
  invariant (`SchedulerLaws.BlockExact`), and so does terminating a task that waits in a queue (`SchedulerLaws.TerminateExact`), or idle, unless
  the scheduler picks it again at once (`SchedulerLaws.TerminateIdleExact`).
- `user_space_proc_mmap` loses the stack frames exactly when the stack finds a run of frames and the heap then finds none
  (`UserSpace.UserSpace.ProcMmap`); `UserSpace.StackLostHappens` gives a bitmap where it happens.
- `paging_map_page` does not look at bit 7: under a large page it takes ordinary memory for tables. As long as no frame that it misreads
  is itself a table or free, the mapping takes effect if and only if no large page covers the address, and under a large page no translation changes
  (`Paging.Paging.MapPage`, `PageTable.MappingTakesEffect`). `is_page_mapped` misreads the same frames: it can deny an address that the
  hardware maps, and affirm the mapping that did not take effect (`PageTable.CoveredUnseen`). When a misread frame is a table the
  translation does change (`PageTable.MisreadRoot`).
- Files are not truncated: saving a shorter text over a longer file leaves the old tail (`Tmpfs.WriteReplaces`). A text of 100 lines, or
  with an empty last line, does not survive saving and loading (`KeditText.LoadedFlat`, `KeditText.SaveThenLoad`).
- A save ignores failed writes: when the heap has no room, a long line is skipped and shorter pieces after it still land
  (`KeditText.PartialSave`).
- A line of 255 characters that is split cannot be joined again (`KeditText.DeleteUndoesBreak`).
- Recomputing a header checksum turns a stored 0xFFFF into 0 (`Checksum.RecomputeExact`).
- A seek to 2^64 - 1 succeeds and returns -1, the error code (`Tmpfs.Vfs.FsLseek`).

## Model

| member | source | states |
|---|---|---|
| `Heap.Heap.constructor` | core/kernel/mem/kernel_memory/kernel_memory.c:21-25 | writes one free block whose header covers the whole arena, and touches no other byte |
| `Heap.Heap.Malloc` | core/kernel/mem/heap/heap.c:39-69 | the bytes of the arena go from representing the old block list to representing the best-fit successor `MallocOn`; every byte of every live payload is the same as before, and no byte outside the arena changes |
| `Heap.Heap.Free` | core/kernel/mem/heap/heap.c:70-87 | a live pointer releases its block and coalesces both ways; null, dead and foreign pointers change nothing; the return value is the number of blocks merged away; the other live payloads keep every byte |
| `Heap.Heap.FindBestFit` | core/kernel/mem/heap/heap.c:42-53 | the search ends with the first smallest free block that fits, or null exactly when none fits, in spite of its early exit on an exact size |
| `Heap.Heap.Split` | core/kernel/mem/heap/heap.c:54-66 | the five header stores and the back link of the next block leave exactly the list with the block cut in two, and only write inside headers and free space |
| `Heap.Heap.SetMark` | core/kernel/mem/heap/heap.c:67-85 | setting or clearing the mark changes that block alone |
| `Heap.Heap.MergeNextBlocks` | core/kernel/mem/heap/heap.c:12-23 | absorbs the run of free blocks that follows and returns how many it absorbed |
| `Heap.Heap.MergePrevBlocks` | core/kernel/mem/heap/heap.c:24-36 | is absorbed by the run of free blocks before, and returns how many steps that took |
| `Heap.Heap.MergeFreeBlocks` | core/kernel/mem/heap/heap.c:9-38 | both directions together, still one doubly linked list that tiles the arena |
| `Heap.Heap.Absorb` | core/kernel/mem/heap/heap.c:14-22 | joining a block with its successor relinks the block after it and keeps every live payload |
| `Heap.BestFitUnique` | core/kernel/mem/heap/heap.c:44-53 | a block that is first among the smallest fitting ones is what the search returns |
| `Heap.AllOrdered` | core/kernel/mem/heap/heap.c:54-66 | blocks that tile the arena are in address order and pairwise disjoint |
| `Heap.NeverImplausible` | core/kernel/mem/heap/heap.c:81-84 | the plausibility test never fires |
| `HeapLaws.RoundedCovers` | core/kernel/mem/heap/heap.c:41 | the rounded size is a multiple of 16, covers the request exactly when the request is at most 2^64 - 16, and is then less than 16 above it; beyond that it is 0 |
| `HeapLaws.MallocExactly` | core/kernel/mem/heap/heap.c:41-66 | a successful malloc, with the numbers written out: the first smallest free block that holds the request rounded up to 16 keeps exactly that size when at least 56 bytes are to spare, and goes whole otherwise |
| `HeapLaws.FreeExactly` | core/kernel/mem/heap/heap.c:9-38 | free of a live pointer makes the one list that tiles the arena, has no two free neighbours, and whose live blocks are the other live blocks |
| `HeapLaws.ShapeDetermined` | core/kernel/mem/heap/heap.c:9-38 | the live blocks determine the whole list: two well-formed lists over one arena with the same live blocks are equal |
| `HeapLaws.RunKeepsEights` | core/kernel/mem/heap/heap.c:9-87 | over any run of malloc and free calls all block sizes stay multiples of 8, merged and whole blocks included |
| `HeapLaws.MergedSize` | core/kernel/mem/heap/heap.c:14-22 | they do not stay multiples of 16: two free neighbours of 16 bytes make one of 72 |
| `HeapLaws.MallocKeepsShape` | core/kernel/mem/heap/heap.c:39-69 | tiling and "no two adjacent free blocks" survive every allocation |
| `HeapLaws.FreeKeepsShape` | core/kernel/mem/heap/heap.c:70-87 | tiling and "no two adjacent free blocks" survive every release, and only the freed block stops being live |
| `HeapLaws.RunKeepsShape` | core/kernel/mem/heap/heap.c:9-87 | the two invariants hold after any run of malloc and free calls |
| `HeapLaws.MallocFails` | core/kernel/mem/heap/heap.c:40-53 | malloc gives NULL if and only if the size is 0 or no free block holds the rounded size, and then changes nothing |
| `HeapLaws.MallocFresh` | core/kernel/mem/heap/heap.c:54-68 | a pointer that malloc returns was not live, is live now, has at least the rounded size, and its payload is disjoint from every other live payload |
| `HeapLaws.MallocThenFree` | core/kernel/mem/heap/heap.c:39-87 | freeing what malloc just returned restores the identical block list, for every size and every well-formed heap |
| `HeapLaws.NothingLive` | core/kernel/mem/heap/heap.c:9-38 | a well-formed heap with nothing live is one free block |
| `HeapLaws.RunBackToStart` | core/kernel/mem/heap/heap.c:9-87 | any run that ends with nothing live ends with the initial block list |
| `HeapLaws.ApplyKeepsLive` | core/kernel/mem/heap/heap.c:39-87 | a live block stays in the list, with its address and size, through every call but its own free |
| `HeapLaws.ContentsUntilFreed` | core/kernel/mem/heap/heap.c:54-87 | over any run that does not free it, a live block keeps its place, its size and every byte of its payload |
| `KernelMemory.KernelMemory.constructor` | core/kernel/mem/kernel_memory/kernel_memory.c:13-25 | the slab, I/O and DMA areas and the arena follow one another after the header page; one free block of the initial size, nothing accounted as used |
| `KernelMemory.KernelMemoryInit` | core/kernel/mem/kernel_memory/kernel_memory.c:9-28 | refused exactly for a null pointer or a size below one block header, and then nothing is written |
| `KernelMemory.KernelMemory.Create` | core/kernel/mem/kernel_memory/kernel_memory.c:31-38 | allocates as malloc does; the counter grows by the size of the block and 40, or stays when the answer is NULL; keeps the accounting law and counts the allocations that did not split |
| `KernelMemory.KernelMemory.Alloc` | core/kernel/mem/kernel_memory/kernel_memory.c:39-48 | allocates count * size bytes modulo 2^64, zeroes exactly them through the word-at-a-time memset, charges the counter as Create does, keeps other payloads and the accounting law |
| `KernelMemory.KernelMemory.FreePtr` | core/kernel/mem/kernel_memory/kernel_memory.c:49-55 | freeing a live pointer lowers the counter by its block and 40 for every merge, which keeps the accounting law; freeing anything else leaves the blocks but lowers the counter by the stale size field, modulo 2^64 |
| `KernelMemory.KernelMemory.GetFreeSize` | core/kernel/mem/kernel_memory/kernel_memory.c:62-64 | while the counter is in step, the free bytes less 40 per past whole-block allocation; exact if and only if there was none, and no overstatement if and only if the free bytes cover the drift |
| `KernelMemory.LedgerMalloc` | core/kernel/mem/kernel_memory/kernel_memory.c:33-36 | adding block size + 40 preserves: used_heap = live bytes + 40 * (blocks - 1) + 40 * (past allocations that did not split), modulo 2^64 |
| `KernelMemory.LedgerFree` | core/kernel/mem/kernel_memory/kernel_memory.c:51-54 | subtracting the block size and 40 per merge preserves the same law |
| `KernelMemory.ReportedFree` | core/kernel/mem/kernel_memory/kernel_memory.c:62-64 | the reported free size is the free bytes minus 40 for each past allocation that did not split, modulo 2^64 |
| `KernelMemory.ReportedFreeExact` | core/kernel/mem/kernel_memory/kernel_memory.c:62-64 | the report is exact if and only if no allocation took a whole block, and does not overstate if and only if the drift has not exceeded the free bytes |
| `KernelMemory.WholeArenaUnderflows` | core/kernel/mem/kernel_memory/kernel_memory.c:31-38 | a concrete run where the report overstates: one allocation of the whole arena makes it 2^64 - 40 with nothing free |
| `KernelMemory.DeadFreeLedger` | core/kernel/mem/kernel_memory/kernel_memory.c:49-55 | freeing a dead pointer leaves the accounting right if and only if the stale size field is 0 |
| `KernelMemory.DoubleFree` | core/kernel/mem/kernel_memory/kernel_memory.c:49-55 | a concrete double free on the fresh heap: the stale header reads the whole arena, and the report becomes twice the arena |
| `KernelMemory.ItemsFit` | core/kernel/mem/kernel_memory/kernel_memory.c:41-43 | a successful array allocation holds all its items if and only if count * size is at most 2^64 - 16 |
| `KernelMemory.WrappedItems` | core/kernel/mem/kernel_memory/kernel_memory.c:41 | a concrete wrap: 2^62 + 4 items of 4 bytes get 16 bytes |
| `KernelMemory.HugeRequestSucceeds` | core/kernel/mem/heap/heap.c:41 | a request of 2^64 - 1 bytes succeeds with an empty block |
| `KernelMemory.BytesFillArena` | core/kernel/mem/kernel_memory/kernel_memory.c:18-25 | used bytes, free bytes and one header per block add up to the arena |
| `Memory.Memset` | core/drivers/memory/mem.c:5-23 | the head, word and tail loops set exactly the n bytes |
| `Memory.Memcpy` | core/drivers/memory/mem.c:24-44 | the word loops give what a byte copy gives, for regions that are apart or copied downwards |
| `Memory.Memmove` | core/drivers/memory/mem.c:45-56 | the destination gets the old source bytes, for every overlap |
| `Bitmap.BitmapSet` | core/kernel/mem/phys/physmem.c:15-17 | sets one bit of the packed map and keeps every other |
| `Bitmap.BitmapClear` | core/kernel/mem/phys/physmem.c:18-20 | clears one bit of the packed map and keeps every other |
| `PhysMem.PhysMem.AllocTo` | core/kernel/mem/phys/physmem.c:139-165 | returns the lowest run of count free frames at or above frame 512, and 0 exactly when count is 0 or there is no such run; the free set loses exactly that run, whose frame records become used |
| `PhysMem.PhysMem.FreeTo` | core/kernel/mem/phys/physmem.c:166-169 | the free set gains exactly the frames of the range that exist, and their records become free |
| `PhysMem.PhysMem.FreeGet` | core/kernel/mem/phys/physmem.c:170-178 | the size of the free set |
| `PhysMem.PhysMem.MarkUsed` | core/kernel/mem/phys/physmem.c:47-60 | the bits of exactly the clamped range are set and their records say used once, the 64-bit wrap of its end included |
| `PhysMem.PhysMem.MarkFree` | core/kernel/mem/phys/physmem.c:61-74 | the bits of exactly the clamped range are cleared and their records say free, the 64-bit wrap of its end included |
| `PhysMem.PhysMem.MarkMap` | core/kernel/mem/phys/physmem.c:21-46 | for overlapping maps too, a bit ends set exactly when the last entry that covers its frame is not usable, or none covers it; the frame records agree |
| `PhysMem.PhysMem.Init` | core/kernel/mem/phys/physmem.c:110-135 | after boot a frame is free if and only if it lies in a usable entry and outside the frames of the tables, and no frame that holds a byte of the 8 * total + (total + 7) / 8 bytes of the tables is free; the tables lie in usable memory, in no more frames than they need; it fails exactly when no usable entry holds the tables or the chosen one begins at address 0 |
| `PhysMem.PhysMem.Bootstrap` | core/kernel/mem/phys/physmem.c:126-134 | all frames are used, then the usable entries free theirs, then the frames of the tables are taken back |
| `PhysMem.FramesHold` | core/kernel/mem/phys/physmem.c:107-109 | the frames counted for a number of bytes hold them, and one frame fewer would not |
| `PhysMem.LastEntryDecides` | core/kernel/mem/phys/physmem.c:26-45 | for any map: a frame ends marked used if and only if no entry covers it or the last entry that covers it is not usable |
| `PhysMem.MarkedExactly` | core/kernel/mem/phys/physmem.c:26-45 | the order of the memory map does not matter when usable entries are disjoint from all others |
| `PhysMem.AddrGetTracking` | core/kernel/mem/phys/physmem.c:75-106 | the base of the first usable entry that is large enough, above 16 MiB if there is one, else above 1 MiB, else anywhere; 0 when there is none or that entry begins at 0 |
| `PhysMem.HostAtZeroRefused` | core/kernel/mem/phys/physmem.c:98-103 | an entry that begins at address 0 fits and is refused |
| `PhysMem.FindHighest` | core/kernel/mem/phys/physmem.c:111-121 | the highest end of a usable or reclaimable entry |
| `PhysMem.MetaInUsable` | core/kernel/mem/phys/physmem.c:123-134 | the tables of the allocator lie wholly inside frames of usable memory |
| `PhysLaws.FitIsFree` | core/kernel/mem/phys/physmem.c:145-162 | taking a run found by the search lowers the free count by count, and giving it back restores the free set |
| `PhysLaws.RunKeepsOwnership` | core/kernel/mem/phys/physmem.c:139-169 | over any run of allocations and releases, the outstanding ranges are pairwise disjoint, disjoint from the free set and inside the frames free at boot, and free plus outstanding frames is constant |
| `PhysLaws.AllocIsStep` | core/kernel/mem/phys/physmem.c:139-165 | what the allocator promises is an allocation step of those runs |
| `PhysLaws.ReleaseIsStep` | core/kernel/mem/phys/physmem.c:166-169 | an outstanding range meets what the release demands, the tables of the allocator included, and releasing it is a step of those runs |
| `PageTable.WalkIsLookup` | core/kernel/mem/paging/paging.c:25-61 | the hardware walk of a well-formed tree is the flat map that the tree stands for, large pages included |
| `PageTable.PageNumber` | core/kernel/mem/paging/paging.c:25-28 | the four indices are the base-512 digits of the 36-bit page number |
| `PageTable.SamePage` | core/kernel/mem/paging/paging.c:25-28 | two addresses select the same page if and only if bits 12 to 47 agree |
| `PageTable.TableEntryExact` | core/kernel/mem/paging/paging.c:33 | a table entry is frame * 4096 + 3: present, writable, not huge, and it gives back its frame |
| `PageTable.LeafExact` | core/kernel/mem/paging/paging.c:62 | a leaf entry gives back exactly the frame and the flags, when the flags have no frame bits |
| `PageTable.LeafPresent` | core/kernel/mem/paging/paging.c:62 | a leaf entry is present exactly when its flags say so |
| `PageTable.LeafWritable` | core/kernel/mem/paging/paging.c:62 | a leaf entry allows writing exactly when its flags say so, whatever the address |
| `PageTable.WritableIs` | core/kernel/mem/paging/paging.c:25-62 | writing along the hardware walk is allowed if and only if every upper entry and the entry that ends the walk allow it |
| `PageTable.UpperIsFlat` | core/kernel/mem/paging/paging.c:25-61 | whether the upper entries of a walk allow writing can be read off the flat tree |
| `PageTable.LinkKeeps` | core/kernel/mem/paging/paging.c:30-36 | linking a zeroed table from a frame outside the tree keeps the tree disjoint and changes no translation, large pages included |
| `PageTable.LeafWrite` | core/kernel/mem/paging/paging.c:62 | writing a last-level entry changes the translation of that one page |
| `PageTable.OutsideTables` | core/kernel/mem/paging/paging.c:77-85 | writes outside the table frames change no translation and no write permission of the upper entries |
| `PageTable.MappingTakesEffect` | core/kernel/mem/paging/paging.c:25-62 | a run of the code with frames for three tables at hand, whose misread frames are ordinary memory, maps the page if and only if no large page covers it; under a large page no translation changes |
| `PageTable.StoredFrom` | core/kernel/mem/paging/paging.c:30-62 | the same from any level on: following present entries, linking fresh zeroed tables for absent ones, writing the leaf |
| `PageTable.LinkSound` | core/kernel/mem/paging/paging.c:30-36 | linking a fresh frame below a table of the tree, or below ordinary memory that is misread as one, changes no translation and takes no write permission away |
| `PageTable.UncoveredSound` | core/kernel/mem/paging/paging.c:86-101 | for a page that no large page covers the code reads tables of the tree alone and sees what the hardware sees |
| `PageTable.UnseenThenSeen` | core/kernel/mem/paging/paging.c:41-62 | when the frame misread as a page directory has no entry, is_page_mapped says no; after a run of paging_map_page it says yes |
| `PageTable.CoveredUnseen` | core/kernel/mem/paging/paging.c:41-62 | a memory where a large page covers an address: the hardware maps it, is_page_mapped denies it, and after a run of paging_map_page is_page_mapped says yes while the hardware sees no change |
| `PageTable.CoveredMemoryExists` | core/kernel/mem/paging/paging.c:41-62 | such a memory exists, with frames for new tables |
| `PageTable.MisreadRoot` | core/kernel/mem/paging/paging.c:52-62 | a memory where the large page begins with the root table: the leaf overwrites the root and the covered page changes its translation |
| `PageTable.LoopMemoryExists` | core/kernel/mem/paging/paging.c:52-62 | such a memory exists |
| `Paging.Paging.constructor` | core/kernel/mem/paging/paging.c:65-69 | adopts the tree that cr3 points to, with whatever large pages it holds |
| `Paging.Paging.NextTable` | core/kernel/mem/paging/paging.c:30-39 | one level, bit 7 not looked at: what a present entry leads to, or a fresh zeroed frame linked there; no translation changes; fails only when the entry is absent and no frame is free |
| `Paging.Paging.Descend` | core/kernel/mem/paging/paging.c:24-61 | the three levels: the table of the page itself when no large page covers it, else ordinary memory; no translation changes; fails only when the last-level table is missing and no frame is free |
| `Paging.Paging.MapPage` | core/kernel/mem/paging/paging.c:19-64 | a page that no large page covers translates to exactly the given frame and flags, and can be written if and only if the flags are present and writable and no upper entry that was there before forbids it; under a large page no translation changes; every other page translates and may be written as before, new tables come from free frames, and for uncovered pages no frame outside the tables is written; the stores are exactly those of the specification; fails only when the last-level table is missing and no frame is free |
| `Paging.Paging.IsPageMapped` | core/kernel/mem/paging/paging.c:86-101 | answers what the present bits along its own reading say, which is the hardware walk for a page that no large page covers |
| `Paging.Paging.ZeroRegion` | core/kernel/mem/paging/paging.c:84 | the clearing store through the new mapping zeroes exactly the mapped frames and leaves translations and write permission |
| `Paging.Paging.MapRegion` | core/kernel/mem/paging/paging.c:77-85 | every page of the region maps to its frame, in order, reads zero, and can be written unless an upper entry that was there before forbids it; every other translation, write permission and data frame is kept |
| `Paging.Paging.MapRegionAlloc` | core/kernel/mem/paging/paging.c:70-76 | the region gets the lowest fitting run of free frames, none of them a table frame, and is writable as in MapRegion |
| `Paging.Paging.MapUserSpaceRegion` | core/kernel/mem/paging/paging.c:102-117 | mapped pages keep their translation and permission, the others are filled in order and are writable as in MapRegion |
| `Paging.RegionStep` | core/kernel/mem/paging/paging.c:79-83 | the region after i + 1 pages is the region after i pages with one page updated |
| `UserSpace.UserSpace.constructor` | core/kernel/mem/user_space/user_space.c:8-27 | no process, first slot of the address range |
| `UserSpace.UserSpaceInit` | core/kernel/mem/user_space/user_space.c:8-27 | NULL exactly without a kernel memory or a graphics manager; else no process and the first slot of the address range |
| `UserSpace.UserSpace.ProcCreate` | core/kernel/mem/user_space/user_space.c:28-56 | a new process at the head of the doubly linked list, its pid one above the number of processes, its stack at 0x40000000 + 0x14000 per process before it, its heap 0x4000 above; NULL exactly when the pool is full; other processes, tables and frames are untouched |
| `UserSpace.UserSpace.ProcMmap` | core/kernel/mem/user_space/user_space.c:68-86 | on success the process owns zeroed, writable frames behind its stack and heap, the stack the lowest run of the old bitmap; no other page changes, and the isolation of all processes still holds; code 1 if and only if the stack, or the heap beside it, finds no run of frames; then nothing is mapped, and the frames of the stack stay claimed if and only if the stack had found some; it panics only when no frame is left |
| `UserSpace.UserSpace.MapClaimed` | core/kernel/mem/user_space/user_space.c:81-85 | with frames that were free, mapping keeps all processes isolated; it fails only when no frame is left for a table |
| `UserSpace.HeapBesideStack` | core/kernel/mem/user_space/user_space.c:70-78 | the heap finds nothing in the new bitmap if and only if no run was left beside the first run of the stack, and the free set has shrunk |
| `UserSpace.StackLostHappens` | core/kernel/mem/user_space/user_space.c:76-78 | a concrete bitmap where the stack takes the last four free frames and the heap finds none |
| `UserSpace.UserSpace.MapBoth` | core/kernel/mem/user_space/user_space.c:81-82 | stack and heap pages map to their frames, all zero, and are writable as in MapRegion |
| `UserSpace.UserSpace.ProcKill` | core/kernel/mem/user_space/user_space.c:57-67 | 0 and exactly that process a zombie when the pid exists, else 1 and no change |
| `UserSpace.UserSpace.Schedule` | core/kernel/mem/user_space/user_space.c:87-100 | round robin over the list, waking a ready process |
| `UserSpace.UserSpace.Prepend` | core/kernel/mem/user_space/user_space.c:52-54 | the list links stay consistent both ways |
| `UserSpace.EveryProcessRuns` | core/kernel/mem/user_space/user_space.c:87-100 | within as many calls as there are processes, each becomes current exactly once |
| `UserSpace.NoSharedFrame` | core/kernel/mem/user_space/user_space.c:68-86 | in every reachable state two different pages of any processes translate to different frames, none of them a page table and none of them free |
| `UserSpace.SlotsApart` | core/kernel/mem/user_space/user_space.c:46-51 | the address ranges of different processes have no page in common |
| `UserSpace.PoolBoundsAddresses` | core/kernel/mem/user_space/user_space.c:20-23 | the process pool runs out before the addresses pass 4 GiB, so no bound check is missing |
| `UserSpace.OwnsStays` | core/kernel/mem/user_space/user_space.c:68-86 | a process keeps what it owns when tables grow from free frames and other pages are mapped |
| `UserSpace.OwnsFresh` | core/kernel/mem/user_space/user_space.c:81-84 | after the two region loops the process owns its pages and frames |
| `UserSpace.IsolatedUpdate` | core/kernel/mem/user_space/user_space.c:68-86 | one more mapped process keeps all of them isolated |
| `SchedulerSpec.Top` | core/kernel/processes/scheduler.c:33-37 | the first non-empty level |
| `SchedulerSpec.FreeSlot` | core/kernel/processes/scheduler.c:85-90 | the first slot that is terminated or was never used |
| `Scheduler.TaskQueue.Push` | core/kernel/processes/scheduler.c:18-23 | the ring appends at the back, or drops silently when full |
| `Scheduler.TaskQueue.Pop` | core/kernel/processes/scheduler.c:24-31 | the ring gives up its front, or NULL when empty |
| `Scheduler.Scheduler.constructor` | core/kernel/processes/scheduler.c:40-54 | idle is created, queued at level 0 and made current |
| `Scheduler.Scheduler.PopPriority` | core/kernel/processes/scheduler.c:32-39 | the front of the first non-empty level |
| `Scheduler.Scheduler.PerformScheduling` | core/kernel/processes/scheduler.c:126-154 | the ring buffers, pool and current pointer refine one `Schedule` step |
| `Scheduler.Scheduler.CreateNewTask` | core/kernel/processes/scheduler.c:70-119 | refines `Create`: first free slot, ready, appended to its level; NULL when the pool or the stacks are used up |
| `Scheduler.Scheduler.YieldCurrentTask` | core/kernel/processes/scheduler.c:120-125 | refines the yield step |
| `Scheduler.Scheduler.HandleSchedulerTimer` | core/kernel/processes/scheduler.c:155-164 | refines the tick step: dispatch exactly when the slice is used up |
| `Scheduler.Scheduler.BlockCurrentTask` | core/kernel/processes/scheduler.c:169-175 | refines the block step |
| `Scheduler.Scheduler.UnblockTask` | core/kernel/processes/scheduler.c:176-184 | refines the unblock step: a task that is not blocked is left alone |
| `Scheduler.Scheduler.TerminateTask` | core/kernel/processes/scheduler.c:185-195 | refines the terminate step: a dispatch exactly when the task is current |
| `SchedulerLaws.InitialInv` | core/kernel/processes/scheduler.c:40-54 | the invariant holds at boot, where idle is current and queued at once |
| `SchedulerLaws.ScheduleKeeps` | core/kernel/processes/scheduler.c:126-154 | a dispatch re-establishes the invariant even when the current task was just blocked, terminated or dropped, and runs the front of the best level |
| `SchedulerLaws.StepKeeps` | core/kernel/processes/scheduler.c:70-195 | every legal step keeps the invariant, and after the first dispatch idle is queued if and only if it is not current |
| `SchedulerLaws.RunInv` | core/kernel/processes/scheduler.c:70-195 | the invariant holds in every state of every run, and once a scheduling call has happened idle is queued if and only if it does not run |
| `SchedulerLaws.QueuedExactlyOnce` | core/kernel/processes/scheduler.c:18-39 | a task other than idle is ready if and only if it stands in a queue, and then at one place of one queue only |
| `SchedulerLaws.Room` | core/kernel/processes/scheduler.c:18-23 | a queue of distinct tasks that misses one has room, so the silent drop never happens in a run |
| `SchedulerLaws.BlockExact` | core/kernel/processes/scheduler.c:169-175 | blocking keeps the invariant if and only if the current task is not idle |
| `SchedulerLaws.TerminateExact` | core/kernel/processes/scheduler.c:185-195 | terminating a task other than idle keeps the invariant if and only if the task is not in a ready queue |
| `SchedulerLaws.TerminateIdleExact` | core/kernel/processes/scheduler.c:185-195 | terminating idle keeps the invariant if and only if idle runs and the scheduler picks it again |
| `SchedulerLaws.LevelZeroWait` | core/kernel/processes/scheduler.c:32-39 | over any run, a level-0 task at position k is dispatched by exactly the (k+1)-th scheduling call |
| `SchedulerLaws.OneLevelWait` | core/kernel/processes/scheduler.c:126-154 | over any run where all tasks but idle share one level, a task is dispatched by exactly the scheduling call that its waiting number says |
| `SchedulerLaws.DueAtPosition` | core/kernel/processes/scheduler.c:126-154 | that number is at most 2(k+1) for a task at position k, the returns to idle included |
| `SchedulerEffects.StepEffect` | core/kernel/processes/scheduler.c:70-195 | what each entry point does, spelled out: who runs next and for 10 ticks, where the task that gave up the processor goes, that a blocked task becomes ready at the back of its level and any other is left alone, which slot a new task gets; nothing else changes |
| `SchedulerEffects.ScheduleEffect` | core/kernel/processes/scheduler.c:126-154 | the front of the first non-empty level runs for 10 ticks, or idle; the old task goes to the back of its level if it was preempted, and to no queue if it was blocked or terminated |
| `SchedulerEffects.SliceExact` | core/kernel/processes/scheduler.c:155-164 | over any run the current task keeps the processor until its remaining ticks are used up, unless it gives up by itself, and exactly the last of them dispatches |
| `SchedulerEffects.TenthTick` | core/kernel/processes/scheduler.c:150-164 | a dispatched task that does not give up by itself keeps the processor for 9 ticks and is preempted by the 10th, whatever else happens in between |
| `Line.DrawLine` | core/kernel/display/rendering.c:25-51 | terminates; plots exactly max(dx, dy) + 1 pixels from the first point to the last, each next to the one before, one step along the longer axis at a time, never more than half a pixel off the line, and of two equally near pixels the one with fewer steps along the shorter axis; `err` and `2 * err` fit an int |
| `Line.Round` | core/kernel/display/rendering.c:39-49 | one turn of the loop moves one pixel towards the end and keeps the error equal to the offset from the line |
| `Line.RoundStays` | core/kernel/display/rendering.c:40-49 | the two independent tests keep the offset within half a pixel and settle ties |
| `Line.DrawnUnique` | core/kernel/display/rendering.c:36-50 | those properties determine the line: two such sequences of pixels for the same ends are equal |
| `Line.EndReached` | core/kernel/display/rendering.c:37-38 | the exit test succeeds exactly at step max(dx, dy) |
| `Line.ErrorFits` | core/kernel/display/rendering.c:39 | the doubled error stays inside 32 bits while 3 * max(dx, dy) < 2^31 |
| `Timer.Timer.Subscribe` | core/kernel/interrupts/timer/timer.c:71-83 | appends one entry due interval_ms * 300 / 1000 ticks from now (64-bit wrap included), or -1 exactly for no callback or a full table |
| `Timer.Timer.HandleInterrupt` | core/kernel/interrupts/timer/timer.c:9-30 | although entries are removed inside the loop, a tick calls every due entry exactly once in table order, re-arms the recurring ones and drops the one-shots; before initialization it does nothing |
| `Timer.Timer.Visit` | core/kernel/interrupts/timer/timer.c:13-27 | one turn handles the entry at i and leaves i at the next entry not yet seen |
| `Timer.Timer.Remove` | core/kernel/interrupts/timer/timer.c:21-24 | the shifting loop removes exactly the entry at i |
| `TimerLaws.TickByTag` | core/kernel/interrupts/timer/timer.c:12-28 | what a tick does to one subscription depends on that subscription alone |
| `TimerLaws.CallsExact` | core/kernel/interrupts/timer/timer.c:12-16 | a tick calls exactly the due entries that have a handler, in the order of their subscription |
| `TimerLaws.AfterExact` | core/kernel/interrupts/timer/timer.c:12-28 | a tick leaves exactly the entries that were not due and the due recurring ones, these with their next time moved, in their order |
| `TimerLaws.TickIsStep` | core/kernel/interrupts/timer/timer.c:9-30 | what the interrupt handler promises is a tick of the runs, calls included |
| `TimerLaws.SubscribeIsStep` | core/kernel/interrupts/timer/timer.c:71-83 | what a subscription promises, accepted or refused, is a step of the runs |
| `TimerLaws.RecurringFires` | core/kernel/interrupts/timer/timer.c:71-83 | after any run from initialization, a recurring event with interval k >= 1 fires exactly floor(m / k) times in the m ticks after its subscription, whatever else is subscribed |
| `TimerLaws.RunTagged` | core/kernel/interrupts/timer/timer.c:9-30 | in every run from initialization the entries stand in the order of their subscription, so none is there twice |
| `TimerLaws.AloneUnderTag` | core/kernel/interrupts/timer/timer.c:71-83 | in such a table every entry is alone under its tag |
| `TimerLaws.OneShotAfter` | core/kernel/interrupts/timer/timer.c:20-26 | where a one-shot subscription stands after any run of ticks and subscriptions |
| `TimerLaws.RecurringAfter` | core/kernel/interrupts/timer/timer.c:18-20 | where a recurring subscription stands after any run of ticks and subscriptions |
| `TimerLaws.ZeroIntervalFires` | core/kernel/interrupts/timer/timer.c:79-80 | after any run from initialization, a recurring event whose interval rounds to 0 fires on every tick |
| `TimerLaws.OneShotFires` | core/kernel/interrupts/timer/timer.c:20-26 | after any run from initialization, a one-shot fires once, at the tick when it is due (the first one for interval 0), and never again |
| `Checksum.NetworkChecksum` | core/kernel/shell/commands/network.c:77-87 | the 32-bit accumulating loop and the fold compute the specified complement; odd data gets the checksum of the data with a zero byte appended |
| `Checksum.PaddedCheck` | core/kernel/shell/commands/network.c:84 | an odd last byte counts as if a zero byte followed it (RFC 1071, section 1) |
| `Checksum.WordCheck` | core/kernel/shell/commands/network.c:79-86 | words are little-endian and the carry comes back in: the checksums of one and of two words in numbers |
| `Checksum.Fold` | core/kernel/shell/commands/network.c:85 | folding terminates, keeps the sum modulo 65535, and gives 0 only for 0 |
| `Checksum.FoldSum` | core/kernel/shell/commands/network.c:85 | the loop computes the fold |
| `Checksum.VerifiesExactly` | core/kernel/shell/commands/network.c:77-87 | the checksum of a packet is 0 if and only if its word sum is a positive multiple of 65535 |
| `Checksum.StoreThenVerify` | core/kernel/shell/commands/network.c:118-119 | storing the checksum in a zeroed even-offset field makes a second checksum 0, for every packet whose sum does not overflow 32 bits |
| `Checksum.SwapKeeps` | core/kernel/shell/commands/network.c:120-122 | exchanging two even-length parts keeps the checksum |
| `Checksum.RecomputeExact` | core/kernel/shell/commands/network.c:123-124 | a packet that verifies gets its own checksum back when the field is zeroed and recomputed (0 where it held 0xFFFF) |
| `Network.HandleIp` | core/kernel/shell/commands/network.c:112-131 | an echo request to this host becomes its reply: byte by byte the request with the addresses exchanged, the type 0 and the two checksums new; the header checksum verifies, and so does that of a body of up to 131070 bytes; every other packet is left as it is |
| `Network.Reply` | core/kernel/shell/commands/network.c:117-124 | type, checksums and addresses of the reply, made in place; every other byte of the packet is kept |
| `Network.Seal` | core/kernel/shell/commands/network.c:117-119 | zero the field, compute, store: the bytes around are kept |
| `Network.SwapAddresses` | core/kernel/shell/commands/network.c:120-122 | source and destination change places in the buffer and nothing else changes |
| `Network.ReplyKeepsHeaderChecksum` | core/kernel/shell/commands/network.c:120-124 | a reply carries the header checksum of its request, when that was right and not 0xFFFF |
| `Network.ArpTable.Learn` | core/kernel/shell/commands/network.c:101-109 | the table refines a map: update or insert, ignored when the address is new and all 16 entries are taken |
| `Network.ArpTable.Lookup` | core/kernel/shell/commands/network.c:147-154 | the table refines a map: the hardware address, or NULL exactly when the address was not learnt |
| `Tmpfs.TmpfsRead` | core/fs/vfs/tmpfs/tmpfs.c:12-25 | returns min(count, size - position) bytes, those of the file from the position on, and advances past them |
| `Tmpfs.Grow` | core/fs/vfs/tmpfs/tmpfs.c:37-48 | makes room and keeps the file; a new buffer is the least multiple of 4096 that holds the text; a failed allocation changes nothing |
| `Tmpfs.TmpfsWrite` | core/fs/vfs/tmpfs/tmpfs.c:26-55 | at or below the end it overwrites and extends the byte sequence; -1 exactly for directories, a first write without room for the record, and failed growth, and then the file is as it was; size never exceeds capacity |
| `Tmpfs.WriteThenRead` | core/fs/vfs/tmpfs/tmpfs.c:12-55 | a read gives back what was written there |
| `Tmpfs.WritesJoin` | core/fs/vfs/tmpfs/tmpfs.c:49-53 | consecutive writes are one write of the joined text, whatever the pieces |
| `Tmpfs.ReadsJoin` | core/fs/vfs/tmpfs/tmpfs.c:17-24 | consecutive reads are one read, whatever the pieces |
| `Tmpfs.WriteReplaces` | core/fs/vfs/tmpfs/tmpfs.c:49-53 | writing from the start leaves exactly the text if and only if the file was not longer (there is no truncation) |
| `Tmpfs.RunInBounds` | core/fs/vfs/vfs.c:141-158 | in every run of open, close, read, write and in-file seeks through any descriptors, files never shrink and no position passes its end |
| `Tmpfs.BytesStay` | core/fs/vfs/commands.c:57-68 | written bytes stay until a write reaches them, whichever descriptors the calls of the run go through |
| `Tmpfs.Vfs.constructor` | core/fs/vfs/vfs.c:133-140 | no descriptor is open |
| `Tmpfs.Vfs.FsOpen` | core/fs/vfs/commands.c:28-46 | the lowest free descriptor from 3 on stands at position 0 of the file; -1 exactly when the path, the heap or the table fails; nothing else changes |
| `Tmpfs.Vfs.FsClose` | core/fs/vfs/commands.c:47-56 | exactly that descriptor is closed |
| `Tmpfs.Vfs.FsRead` | core/fs/vfs/commands.c:57-62 | the step of the table and the files that a read makes; the position moves by what was read |
| `Tmpfs.Vfs.FsWrite` | core/fs/vfs/commands.c:63-68 | the step of the table and the files that a write makes; other files and descriptors are untouched |
| `Tmpfs.Vfs.WriteThrough` | core/fs/vfs/commands.c:63-68 | a write through one descriptor leaves every other descriptor and file as it is |
| `Tmpfs.Vfs.FsLseek` | core/fs/vfs/vfs.c:141-158 | the descriptor stands at the position sought: set, relative and end positions modulo 2^64; -1 without effect for a bad descriptor or a bad origin |
| `Kedit.Editor.InsertChar` | core/kernel/shell/commands/kedit.c:113-124 | the shifted line buffer refines inserting the character, with both length guards |
| `Kedit.Editor.DeleteChar` | core/kernel/shell/commands/kedit.c:125-146 | the shifted and joined line buffers refine deleting backwards |
| `Kedit.Editor.NewLine` | core/kernel/shell/commands/kedit.c:147-164 | the shifted line buffers refine breaking the line |
| `Kedit.Editor.MoveCursor` | core/kernel/shell/commands/kedit.c:165-172 | the cursor is clamped to the text |
| `Kedit.Editor.HandleKey` | core/kernel/shell/commands/kedit.c:173-204 | key by key, in the joined text: 10 and 13 insert a newline at the cursor, 8 and 127 remove what is before it, 32 to 126 insert that character, each unless a limit forbids it; 0x80 to 0x83 move the cursor; 17 leaves, 19 saves, others do nothing; which keys mark the text as modified |
| `Kedit.Editor.Load` | core/kernel/shell/commands/kedit.c:57-93 | the buffers hold the lines that the file gives, whatever its bytes, or one empty line when the open fails; the cursor is at the start and nothing is modified |
| `Kedit.Editor.LoadChunk` | core/kernel/shell/commands/kedit.c:70-79 | one chunk of the file is read byte by byte into the line buffers |
| `Kedit.Editor.Save` | core/kernel/shell/commands/kedit.c:94-112 | the file becomes the old one overwritten from the start with the pieces of the text that found room, which is the whole text when the heap has room or the buffer is large enough; without a name or a file nothing happens; the text is kept |
| `Kedit.Editor.WritePiece` | core/kernel/shell/commands/kedit.c:102-105 | one write of the save lands at the end of what has landed, or is skipped when it finds no room |
| `KeditText.InsertOnFlat` | core/kernel/shell/commands/kedit.c:113-124 | in the joined text one character is inserted at the cursor, which moves past it, unless the line is full |
| `KeditText.DeleteOnFlat` | core/kernel/shell/commands/kedit.c:125-146 | in the joined text the character or newline before the cursor is removed, unless there is none or the joined line would be too long |
| `KeditText.BreakOnFlat` | core/kernel/shell/commands/kedit.c:147-164 | in the joined text a newline is inserted at the cursor, unless there are 100 lines |
| `KeditText.KeyedExactly` | core/kernel/shell/commands/kedit.c:173-204 | the effect of every key on text and cursor, key codes and limits written out |
| `KeditText.DeleteUndoesInsert` | core/kernel/shell/commands/kedit.c:113-146 | backspace undoes typing; on a full line, where typing does nothing, exactly when there is nothing to delete |
| `KeditText.DeleteUndoesBreak` | core/kernel/shell/commands/kedit.c:125-164 | backspace undoes Enter if and only if the line is not full |
| `KeditText.StepsJoin` | core/kernel/shell/commands/kedit.c:69-81 | the chunks in which a file is read do not matter |
| `KeditText.WholeLands` | core/kernel/shell/commands/kedit.c:101-106 | the writes of a save that find room make the lines joined by newlines |
| `KeditText.AllLands` | core/kernel/shell/commands/kedit.c:101-106 | from any point of a save, everything that is left lands when there is room for it |
| `KeditText.PartialSave` | core/kernel/shell/commands/kedit.c:101-106 | a save without room loses pieces from the middle: a long first line is skipped while the newline and the line after it land |
| `KeditText.LoadedIsGood` | core/kernel/shell/commands/kedit.c:57-93 | whatever the file holds, the loaded text has 1 to 100 lines of at most 255 characters, without NUL or newline |
| `KeditText.LoadedExactly` | core/kernel/shell/commands/kedit.c:69-90 | what any file loads as, line by line: each line cut at 255 bytes and at its first NUL, an empty last line dropped, a hundredth line left empty, all after it ignored |
| `KeditText.LoadedFlat` | core/kernel/shell/commands/kedit.c:57-93 | what a saved text loads as: the text, the text without its empty last line, or the text with its hundredth line emptied |
| `KeditText.SaveThenLoad` | core/kernel/shell/commands/kedit.c:57-112 | saving over a file that is not longer and loading gives back the same lines if and only if there is one line, or at most 99 with the last not empty |
| `CString.StrLen` | common/string/string.c:47-51 | the number of characters before the terminator |
| `CString.StrCopy` | common/string/string.c:3-7 | the destination holds the source text from the given position |
| `CString.StrAppend` | common/string/string.c:8-13 | the destination holds both texts |
| `Decimal.XorSwaps` | common/string/string.c:105-107 | three XOR assignments exchange two bytes |
| `Decimal.StrReverse` | common/string/string.c:99-111 | the text is reversed in place, the bytes from the terminator on are kept |
| `Decimal.StrFromInt` | common/string/string.c:129-144 | the buffer holds the decimal numeral of the value |
| `Decimal.IntToString` | common/outputs/print.c:155-181 | the buffer holds the same numeral, and the 12-byte temporary never overflows |
| `Decimal.StrToInt` | common/string/string.c:112-128 | the value of the digits after blanks and a sign, when an int can hold it |
| `Decimal.ParseOfNumeral` | common/string/string.c:112-144 | reading a printed number gives the number back |
| `Decimal.ParseInContext` | common/string/string.c:112-128 | leading blanks and whatever follows the digits do not matter |
| `Decimal.ParseExactly` | common/string/string.c:117-127 | blanks, at most one sign, digits: the value of the digits, negated after a minus; whatever follows is ignored |
| `Decimal.ValueJoin` | common/string/string.c:124-126 | each digit weighs its power of ten |
| `Decimal.DigitsOfValue` | common/string/string.c:129-144 | the printed form is the only one without leading zeros |
| `Decimal.NumeralFits` | common/outputs/print.c:157-180 | a printed int has at most 11 characters |

## Left out

- Heap.Heap.Free: a pointer into the middle of other data where a header with the right magic and a set mark happens to stand is not modelled; null, live, dead and unmarked pointers are.
- KernelMemory.KernelMemory.FreePtr: the same forged headers as for Heap.Heap.Free are excluded.
- KernelMemory.KernelMemory.Alloc: products count * size that are above 2^64 - 16 after the 64-bit wrap are excluded, since the block is then smaller than what memset clears.
- KernelMemory.KernelMemory.constructor: `slab_init` and what later happens in the slab, I/O and DMA areas are not modelled.
- Memory.Memcpy: an overlap with the destination above the source is excluded; no caller in the model relies on it.
- Memory.Memset: arithmetic on addresses does not wrap.
- PhysMem.PhysMem.MarkFree: ranges that meet the allocator's own tables are excluded, as for PhysMem.PhysMem.FreeTo.
- PhysMem.PhysMem.MarkMap: the end of an entry does not pass 2^64.
- PhysMem.PhysMem.FreeTo: freeing the frames that hold the allocator's own tables is excluded; doing so destroys the tables.
- PhysMem.PhysMem.Init: the bitmap and the frame array are arrays beside the physical memory they occupy; that nothing else is handed those frames is proved, their bytes are not shared with the frames. Usable entries are page-aligned and disjoint from all others, as the boot protocol promises; the direct-map offset is 0.
- Paging.Paging.MapPage: physical memory is an array of frames of 512 entries; only entries, not single bytes, are read or written. `invlpg` and the TLB are not modelled: the walk reads memory. Under a large page the frames that the code misreads as tables must be neither tables nor free; PageTable.MisreadRoot shows what else happens.
- Paging.Paging.NextTable: misread frames are restricted as for Paging.Paging.MapPage.
- Paging.Paging.Descend: misread frames are restricted as for Paging.Paging.MapPage.
- Paging.Paging.IsPageMapped: under a large page the frames that it misreads must exist.
- Paging.Paging.constructor: no two entries of the boot tables share a table, and none of the tables is free.
- Paging.Paging.MapRegionAlloc: restricted as Paging.Paging.MapRegion is.
- Paging.Paging.MapUserSpaceRegion: the region is restricted as for Paging.Paging.MapRegion.
- Paging.Paging.MapRegion: no large page covers the region. Sizes are multiples of the page size and regions do not pass the end of the address space, as in every call.
- UserSpace.UserSpaceInit: restricted as UserSpace.UserSpace.constructor is.
- Tmpfs.Vfs.WriteThrough: restricted as Tmpfs.TmpfsWrite is.
- UserSpace.UserSpace.constructor: no large page covers the addresses from 0x40000000 to 4 GiB that processes are given.
- UserSpace.UserSpace.ProcCreate: names of 64 bytes or more, which the copy does not check, are excluded; `proc->user_space`, which the code sets and then clears again with the rest of the record, is not a field.
- UserSpace.UserSpace.ProcMmap: after a panic nothing is promised about the process.
- Scheduler.Scheduler.CreateNewTask: the stack frame, the name and `task_count` are not modelled; priorities are below 32, as indexing requires; task ids do not wrap.
- SchedulerLaws.OneLevelWait: mixed levels have no bound on waiting; a busy better level starves the others.
- Scheduling across CPUs, locks and application processors: the model has one CPU, where a lock always succeeds.
- Line.DrawLine: differences with 3 * max(dx, dy) >= 2^31 are excluded, since `err` may overflow there; putting the pixel is not modelled.
- Timer.Timer.HandleInterrupt: the tick counter does not wrap, and handlers do not change the table.
- Timer ids repeat after removals, so `timer_unsubscribe_event` is left out; subscriptions are told apart by a ghost tag.
- Network.HandleIp: packets shorter than 34 bytes, and ICMP packets to this host whose header length is below 20 bytes or that end before the ICMP checksum field, are excluded, the code does not check them; sending is not modelled. Replies to ARP requests are left out.
- Checksum.StoreThenVerify: packets long enough to overflow the 32-bit sum are excluded.
- Network.ReplyKeepsHeaderChecksum: says nothing for a stored 0xFFFF, which becomes 0.
- Tmpfs.TmpfsRead: a count with position + count at or above 2^64 is excluded, since the comparison wraps there; so it is in Tmpfs.Vfs.FsRead.
- Tmpfs.Vfs.FsRead: restricted as Tmpfs.TmpfsRead is.
- Tmpfs.Vfs.FsWrite: restricted as Tmpfs.TmpfsWrite is.
- Tmpfs.TmpfsWrite: a position beyond the end leaves the gap unspecified, it shows what the buffer held; positions near 2^64 are excluded; freeing the old buffer is not modelled.
- Tmpfs.Vfs.FsOpen: the path is already resolved; `find_mnt`, `fs_resolve`, creation, directories, mounts and `O_CREAT` are left out, they are searches through linked lists of names.
- Kedit.Editor.Save: closing the descriptor and the message are left out.
- Kedit.Editor.Load: the file name and drawing are left out; the file is below 2^64 - 1024 bytes.
- Decimal.StrFromInt: INT_MIN is excluded, since its negation overflows.
- Decimal.IntToString: INT_MIN is excluded, as in Decimal.StrFromInt.
- Decimal.StrToInt: numerals that no int can hold are excluded, since the accumulation overflows.
- `str_trim`, `add_digits`, the hexadecimal printer and the comparisons of `string.c`: easy members.
- ext4, ELF loading, module registries, ports, interrupts, drivers, the graphics and the shell: devices and user interface.
