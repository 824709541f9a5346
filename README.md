# Virtual memory of a teaching kernel, in Dafny

This project models the memory-management layer of a small x86 teaching
kernel and proves properties of the model. The layer has four parts.

- **Contiguous frame pool** (`frame_pool.dfy`, module `FramePool`).
  - A pool manages the physical frames `base .. base + n - 1`.
  - It keeps a bitmap with four 2-bit frame states per byte: FREE = 1, HEAD = 2 (the first frame of an allocated sequence) and ALLOCATED = 0.
  - `get_frames` allocates a run of frames by first fit. `mark_inaccessible` reserves a run at a given frame. `release_frames_from_pool` frees a run.
  - All pools sit in a singly linked list, rooted at a static `head`. `release_frames` uses that list to find the pool that owns a frame.
  - The bitmap is an `array<bv8>`. A ghost sequence of frame states shadows it, and the pool invariant ties the two together byte by byte.
- **x86 two-level paging** (`paging.dfy`, module `Paging`).
  - Covers the masks and fields of a 32-bit address, the entry encoding (`frame << 12 | attributes`), the three-bit page-fault error code and CR0's paging bit.
  - Physical memory is a map from frame number to the frame's 1024 words. CR0, CR2 and CR3 are fields of a `Hardware` object.
  - Address translation is a pure function, `Translate`, the walk the MMU makes.
  - `ResolveFault` is the effect both fault handlers have on memory.
- **The first page table** (`direct_paging.dfy`, module `DirectPaging`).
  - The constructor identity-maps the first 4 MiB through one page table.
  - `load` and `enable_paging` are modelled.
  - The page-fault handler writes the directory and page tables at their physical addresses.
- **The page table with a recursive mapping** (`recursive_paging.dfy`, module `RecursivePaging`).
  - Directory entry 1023 names the directory itself. The handler therefore reaches directory entry `pde` at logical address `0xFFFFF000 + 4*pde` and entry `i` of page table `pde` at `(0xFFC00000 | pde << 12) + 4*i`.
  - The model proves that, with the self map in place, these windows reach exactly the words the handler means to write.
  - `register_pool` and `free_page` are modelled from their header contracts.
- **The virtual-memory pool** (`vm_pool.dfy`, module `VirtualMemory`).
  - A pool keeps its allocated list (slots 0 .. 255) and its free list (slots 256 .. 511) of `(base, size)` regions in its first page.
  - `allocate` is first fit on the free list.
  - `release` moves a region to the free list without merging.
  - `is_legitimate` tests whether an allocated region covers an address.
  - The pool invariant `Partition` says three things about the live entries: their sizes add up to the pool's size, each lies inside the pool, and no two overlap. `allocate` and `release` preserve it.

Frames for new page tables and data pages come from the frame pools in the kernel. Here they are parameters of the handlers and constructors, chosen by the caller.

## Model

| member | source | states |
|---|---|---|
| `FramePool.Code` | MP2/cont_frame_pool.C:109-111 | The three state codes are below 4. The FREE bit is set exactly for a free frame and the HEAD bit exactly for a head. |
| `FramePool.GetField` | mp2/cont_frame_pool.H:35-41 | A field of a bitmap byte is a 2-bit value. |
| `FramePool.SetField` | MP2/cont_frame_pool.C:168-178 | Writing field k gives back the written value's two bits when field k is read, and leaves the other three fields of the byte as they were. |
| `FramePool.ByteIsFourFields` | mp2/cont_frame_pool.H:35-41 | A bitmap byte is exactly its four 2-bit fields, bmp0 in the low bits up to bmp3 in the high bits. |
| `FramePool.NeededInfoFrames` | MP2/cont_frame_pool.C:383-388 | The result is the ceiling of n / 16384. That many frames hold at least n frame states, one frame fewer does not, and the frames cover the bitmap's bytes. |
| `FramePool.NeededInfoFramesMonotone` | mp2/cont_frame_pool.H:149-161 | More frames never need fewer info frames. |
| `FramePool.FreeCountUpdate` | MP2/cont_frame_pool.C:252-264 | Changing one frame's state changes the number of free frames by that frame alone. |
| `FramePool.MarkRunCount` | MP2/cont_frame_pool.C:306-315 | Marking a free window of len frames as one sequence removes exactly len free frames. |
| `FramePool.MarkRun` | MP2/cont_frame_pool.C:306-314 | The first frame of the window becomes the head of sequence, the rest of the window allocated, and every frame outside the window keeps its state. |
| `FramePool.MarkRunKeepsRuns` | MP2/cont_frame_pool.C:306-314 | Marking a free window keeps every allocated frame preceded by an allocated frame or a head. |
| `FramePool.FreeRangeCount` | MP2/cont_frame_pool.C:352-357 | Freeing k frames that are not free adds exactly k free frames. |
| `FramePool.FirstFitFrom` | MP2/cont_frame_pool.C:278-304 | Returns the first index at or after `from` where a free window of len frames starts. None means there is no such index. |
| `FramePool.FirstFit` | MP2/cont_frame_pool.C:278-304 | Returns the lowest index where a free window of len frames starts, and None exactly when there is none. |
| `FramePool.RunLength` | MP2/cont_frame_pool.C:350-357 | The frames from st on that are not free, up to the first free frame or the end of the pool. |
| `FramePool.ReleaseRunCount` | MP2/cont_frame_pool.C:348-358 | The as-written release adds one free frame per frame it frees. |
| `FramePool.ReleaseRun` | MP2/cont_frame_pool.C:348-358 | The frames of the run starting at the released frame become free. Every frame before it, and every frame after the run, keeps its state. |
| `FramePool.ReleaseRunKeepsRuns` | MP2/cont_frame_pool.C:348-358 | The as-written release keeps every sequence well formed. |
| `FramePool.ContinuationLength` | MP2/cont_frame_pool.C:64-67 | The run of ALLOCATED frames from k on, ending before the first frame that is FREE or HEAD. |
| `FramePool.SequenceLength` | MP2/cont_frame_pool.C:64-67 | The length of the sequence headed at st: the head and the ALLOCATED frames after it. It is 0 when st is not a head. |
| `FramePool.ReleaseSequence` | MP2/cont_frame_pool.C:64-67 | The intended release frees the sequence headed at st and adds its length to the free count. |
| `FramePool.IntendedGetFrames` | MP2/cont_frame_pool.C:59-62 | The intended allocation marks the first free window of exactly n frames as one sequence and removes n free frames. It returns None exactly when no such window exists. |
| `FramePool.ContinuationOfMarkedRun` | MP2/cont_frame_pool.C:59-67 | In a freshly marked sequence, the ALLOCATED frames run exactly to the sequence's end. |
| `FramePool.IntendedRoundTrip` | MP2/cont_frame_pool.C:59-67 | The intended release of an intended allocation finds a sequence of exactly n frames and restores the states before the allocation. |
| `FramePool.ReleaseSpillsIntoNeighbour` | MP2/cont_frame_pool.C:352 | For two adjacent single-frame sequences, the as-written release frees both, where the intended release frees only the first. |
| `FramePool.GetFramesTakesOneExtra` | MP2/cont_frame_pool.C:282-315 | On 8 free frames, a request for n = 2 finds a window of n + 1 = 3 frames at 0 and marking it leaves 5 free, while 8 - n = 6, which is what `ContFramePool.GetFrames` leaves in the counter. |
| `FramePool.AllFreeCount` | MP2/cont_frame_pool.C:208-213 | When every frame is free, the free count is the number of frames. |
| `FramePool.InitialStates` | MP2/cont_frame_pool.C:206-221 | The initial states are well formed. |
| `FramePool.InitialStatesCount` | MP2/cont_frame_pool.C:186-221 | A new pool has n - 1 free frames when it holds its own bitmap, and n otherwise. |
| `FramePool.ContFramePool.constructor` | MP2/cont_frame_pool.C:180-242 | With no info frame, frame 0 is HEAD, every other frame is FREE and nFreeFrames = n - 1. With an info frame, all frames are FREE and nFreeFrames = n. Either way the pool is appended at the list's tail and the other pools are unchanged. |
| `FramePool.ContFramePool.InitStates` | MP2/cont_frame_pool.C:206-221 | The constructor's bitmap set-up yields the initial states, with the exact free count. |
| `FramePool.ContFramePool.MarkAllFree` | MP2/cont_frame_pool.C:208-213 | Every frame of the pool becomes FREE, and the bitmap encodes it. |
| `FramePool.ContFramePool.GetState` | MP2/cont_frame_pool.C:152-166 | Returns field k of byte q, which is the code of the state of frame 4q + k. |
| `FramePool.ContFramePool.SetState` | MP2/cont_frame_pool.C:168-178 | Frame 4q + k takes the new state, every other frame keeps its state, and the bitmap still encodes all of them. |
| `FramePool.ContFramePool.IsFree` | MP2/cont_frame_pool.C:244-250 | True exactly when index j is a frame of the pool and that frame is FREE. |
| `FramePool.ContFramePool.Allocate` | MP2/cont_frame_pool.C:252-258 | A free frame becomes HEAD when head is set and ALLOCATED otherwise. Nothing else changes. |
| `FramePool.ContFramePool.Release` | MP2/cont_frame_pool.C:260-264 | An allocated frame becomes FREE. Nothing else changes. |
| `FramePool.ContFramePool.GetFrames` | MP2/cont_frame_pool.C:266-326 | On success at the first free window of n + 1 frames at i, marks it as one sequence headed at i, lowers nFreeFrames by n and returns base + i. Otherwise it returns 0 and changes nothing. The pool invariant is kept. |
| `FramePool.ContFramePool.FindWindow` | MP2/cont_frame_pool.C:278-304 | The scan finds a window exactly when one of n + 1 free frames exists, and it finds the first one. |
| `FramePool.ContFramePool.MarkWindow` | MP2/cont_frame_pool.C:306-314 | Frame i becomes HEAD and the next len - 1 frames ALLOCATED. Nothing else changes. |
| `FramePool.ContFramePool.MarkInaccessible` | MP2/cont_frame_pool.C:328-346 | Frames b .. b + n - 1 become one sequence headed at b, nFreeFrames drops by n and an exact counter stays exact. |
| `FramePool.ContFramePool.ReleaseFramesFromPool` | MP2/cont_frame_pool.C:348-358 | Frees the frames from f up to the first free frame, and adds their number to nFreeFrames. No frame before f changes, and the invariant and an exact counter are kept. |
| `FramePool.ContFramePool.FreeRun` | MP2/cont_frame_pool.C:350-357 | The release loop frees exactly the frames counted by RunLength. |
| `FramePool.PoolRegistry.constructor` | MP2/cont_frame_pool.C:139 | The list of pools starts empty. |
| `FramePool.PoolRegistry.Append` | MP2/cont_frame_pool.C:224-239 | The new pool is linked at the tail and no pool's state changes. |
| `FramePool.PoolRegistry.OwnerFrom` | MP2/cont_frame_pool.C:364-373 | The owner is the first pool before the last that contains f, and otherwise the last pool. |
| `FramePool.PoolRegistry.OwnerIs` | MP2/cont_frame_pool.C:364-373 | Any index meeting the characterisation of the owner is the owner. |
| `FramePool.PoolRegistry.OwnerContains` | mp2/cont_frame_pool.H:137-146 | When some pool contains f, the pool chosen contains it. |
| `FramePool.PoolRegistry.ReleaseFrames` | MP2/cont_frame_pool.C:360-379 | Releases from the owner, as written: its bitmap becomes ReleaseRun of the old one, its counter grows by the run's length, and its counter stays accurate if it was. Every other pool is unchanged, and all pools keep their invariant. |
| `FramePool.PoolRegistry.FindPool` | MP2/cont_frame_pool.C:364-373 | The list walk stops at the owner. |
| `Paging.MasksSplitAddress` | mp3/page_table.H:20-25 | The PDE, PTE and offset fields of a 32-bit address do not overlap and together make up the address. PHYSICAL_ADDRESS_MASK keeps the two index fields, and both indices are below 1024. |
| `Paging.PdeIndex` | mp3/page_table.C:125 | The directory index is below 1024. |
| `Paging.PteIndex` | mp3/page_table.C:126 | The table index is below 1024. |
| `Paging.PageOffset` | mp3/page_table.H:20-21 | The offset is below 4096. |
| `Paging.AddressFields` | mp3/page_table.H:22-25 | An address equals pde * 2^22 + pte * 2^12 + offset. |
| `Paging.FieldsOfAddress` | mp3/page_table.H:22-25 | An address built from three fields has exactly those fields. |
| `Paging.FrameAddress` | mp3/page_table.C:123 | `f << 12` is page aligned and names frame f. |
| `Paging.WithAttrs` | mp3/page_table.C:131-132 | Or-ing attributes into a page-aligned address keeps the frame and sets the low 12 bits to the attributes. |
| `Paging.MakeEntry` | mp3/page_table.C:145 | An entry made from frame f and attributes names f and carries those attributes. |
| `Paging.EntryFrame` | mp3/page_table.C:136 | The frame an entry names is a frame of the 32-bit space. |
| `Paging.ClearPresent` | mp4/page_table.H:135-136 | Clearing the present bit makes the entry not present and keeps its frame and its other bits. |
| `Paging.AttributePresence` | mp3/page_table.H:96-100 | An entry with attributes 011 is present and one with 010 is not. |
| `Paging.CauseCode` | mp3/page_table.H:27-36 | Each of the eight causes has the named constant U_W_P .. S_R_NP as its code. |
| `Paging.ErrorCause` | mp3/page_table.C:92-120 | The decoded cause is a protection violation exactly when bit 0 of the error code is set, a write exactly when bit 1 is, and a user access exactly when bit 2 is. |
| `Paging.ErrorCodeRoundTrip` | mp3/page_table.C:92-120 | Decoding an error code and naming the cause gives back `err & 7`. The protection bit is bit 0. |
| `Paging.CauseRoundTrip` | mp3/page_table.H:27-36 | Naming a cause and decoding its code gives back the cause, so the eight constants cover 0 .. 7 one to one. |
| `Paging.SetPagingBit` | mp3/page_table.C:85 | `cr0 \| 0x80000000` sets bit 31 and keeps bits 0 .. 30. |
| `Paging.EmptyTable` | mp3/page_table.C:140-143 | A table of 1024 not-present entries. |
| `Paging.Translate` | mp3/page_table.C:122-136 | The MMU's two-level walk, which the handler follows by hand. When it succeeds it reaches a word of a frame of memory. |
| `Paging.Hardware.Store` | mp3/page_table.C:129-145 | A store to a physical frame replaces that one word and changes no other word or frame. |
| `Paging.Hardware.LoadLogical` | mp4/page_table.C:123-125 | A load through a mapped logical address reads the word the walk reaches. |
| `Paging.Hardware.StoreLogical` | mp4/page_table.C:127-144 | A store through a mapped logical address replaces the word the walk reached, and nothing else. A load of the same address reads the stored word back when the store did not change its own mapping. |
| `Paging.ResolveFault` | mp3/page_table.C:120-147 | Handling a fault keeps the set of frames and the size of each. |
| `Paging.ResolveFaultMapsAddress` | mp3/page_table.H:118-135 | After a not-present fault is resolved, the faulting address reaches the data frame at its offset. |
| `Paging.ResolveFaultKeepsMappings` | mp3/page_table.C:129-145 | When the table frame is fresh, every address that was mapped before the fault reaches the same word afterwards. |
| `DirectPaging.IdentityTable` | mp3/page_table.C:36-44 | Entry i of the first table is present and names frame i, for all 1024 entries. |
| `DirectPaging.InitialDirectory` | mp3/page_table.C:46-54 | Entry 0 is present and names the table. Entries 1 .. 1023 are not present. |
| `DirectPaging.IdentityMapsFirst4MiB` | mp3/page_table.H:91-101 | With the initial tables loaded, every address below 4 MiB reaches itself. |
| `DirectPaging.InitialTablesFaultAbove4MiB` | mp3/page_table.H:100-101 | With the initial tables loaded, every address from 4 MiB on faults. |
| `DirectPaging.InitialTablesWf` | mp3/page_table.C:46-54 | The initial directory's present entries name frames of memory other than the directory. |
| `DirectPaging.ResolveFaultKeepsDirectoryWf` | mp3/page_table.C:129-145 | Handling a fault with a fresh table frame keeps that invariant. |
| `DirectPaging.PageTable.constructor` | mp3/page_table.C:29-57 | Memory afterwards is memory before, with the table frame holding the identity table and the directory frame the initial directory. |
| `DirectPaging.PageTable.FillIdentityTable` | mp3/page_table.C:36-44 | The first loop writes the identity table and nothing else. |
| `DirectPaging.PageTable.FillInitialDirectory` | mp3/page_table.C:46-54 | The directory stores write the initial directory and nothing else. |
| `DirectPaging.PageTable.Load` | mp3/page_table.C:60-67 | This becomes the current table, and CR3 holds its directory. |
| `DirectPaging.PageTable.CheckIfPtLoaded` | mp3/page_table.C:69-76 | True exactly when a table has been loaded and its directory is the one in CR3. False when no table has been loaded. |
| `DirectPaging.PageTable.EnablePaging` | mp3/page_table.C:78-87 | Halts, with CR0 unchanged, exactly when no table has been loaded or the current table is not the one in CR3. Otherwise it sets CR0's paging bit and keeps the other bits. |
| `DirectPaging.PageTable.HandleFault` | mp3/page_table.C:90-155 | Halts with memory unchanged exactly on a protection fault. Otherwise memory becomes ResolveFault of the old memory. |
| `RecursivePaging.PdeEntryAddress` | mp4/page_table.C:123 | `0xFFFFF000 + 4*pde` has directory index 1023, table index 1023 and offset 4*pde. |
| `RecursivePaging.TableWordAddress` | mp4/page_table.C:134-144 | `(0xFFC00000 \| pde << 12) + 4*i` has directory index 1023, table index pde and offset 4*i. |
| `RecursivePaging.WindowOrIsPlus` | mp4/page_table.C:134 | The `\|` of the table window is an addition, because the shifted index shares no bit with PT_LOOKUP. |
| `RecursivePaging.SelfMapped` | mp4/page_table.C:43-44 | With the directory's last entry naming the directory, the logical page 0xFFFFF000 reaches the directory itself. |
| `RecursivePaging.PdeAddress` | mp4/page_table.H:121-122 | The directory-entry window for an address depends only on its directory index. |
| `RecursivePaging.PteAddress` | mp4/page_table.H:124-125 | The table-entry window for an address depends only on its directory and table indices. |
| `RecursivePaging.DirectoryWindow` | mp4/page_table.C:123-128 | With the self map in place, the directory window for pde reaches word pde of the directory frame. |
| `RecursivePaging.TableWindow` | mp4/page_table.C:134-144 | With the self map in place, the table window reaches word i of the frame named by directory entry pde, and it faults when that entry is not present. |
| `RecursivePaging.WindowsAgreeWithWalk` | mp4/page_table.H:42-43 | Reading the two windows for an address and following the entries found there is the MMU's walk for that address. |
| `RecursivePaging.PartialIdentity` | mp4/page_table.C:36-40 | Entries 0 .. 1022 of the table as built are the identity entries. Entry 1023 keeps its old value. |
| `RecursivePaging.RecursiveDirectory` | mp4/page_table.C:42-55 | Entry 0 names the table and entry 1023 names the directory, both present. Entries 1 .. 1022 are 010. |
| `RecursivePaging.RecursiveDirectorySelfMapped` | mp4/page_table.C:43-44 | The directory as built is self-mapped. |
| `RecursivePaging.LastLowPageUnmapped` | mp4/page_table.C:36-40 | As built, address 0x3FF000 faults when the table frame's entry 1023 was not present. |
| `RecursivePaging.IntendedTablesMapFirst4MiB` | mp4/page_table.C:36-40 | With all 1024 table entries written, the recursive directory is self-mapped and maps every address below 4 MiB onto itself. |
| `RecursivePaging.ResolveFaultKeepsSelfMap` | mp4/page_table.C:113-146 | Handling a not-present fault keeps the self map. |
| `RecursivePaging.Unmap` | mp4/page_table.H:135-136 | Marking a page invalid keeps the set of frames and the size of each. |
| `RecursivePaging.UnmapUnmaps` | mp4/page_table.H:135-136 | After the page is marked invalid its address faults. Nothing changes when it was not mapped. |
| `RecursivePaging.UnmapKeepsSelfMap` | mp4/page_table.H:135-136 | Marking a page invalid keeps the self map, unless that page is the directory window itself. |
| `RecursivePaging.PageTable.constructor` | mp4/page_table.C:25-61 | Memory afterwards is memory before, with the table frame holding PartialIdentity and the directory frame RecursiveDirectory. The directory is self-mapped and the pool list is empty. |
| `RecursivePaging.PageTable.FillFirstTable` | mp4/page_table.C:35-40 | The loop writes entries 0 .. 1022 of the table and nothing else. |
| `RecursivePaging.PageTable.SetFixedEntries` | mp4/page_table.C:42-49 | Directory entry 1023 names the directory and entry 0 names the table. No other frame changes. |
| `RecursivePaging.PageTable.FillDirectory` | mp4/page_table.C:42-55 | The directory stores write RecursiveDirectory and nothing else. |
| `RecursivePaging.PageTable.Load` | mp4/page_table.C:64-69 | This becomes the current table, and CR3 holds its directory. |
| `RecursivePaging.PageTable.EnablePaging` | mp4/page_table.C:71-80 | Halts, with CR0 unchanged, exactly when no table has been loaded or the current table's directory differs from CR3. Otherwise it sets the paging bit and keeps the other bits. |
| `RecursivePaging.PageTable.HandleFault` | mp4/page_table.C:83-154 | Halts with memory unchanged exactly on a protection fault. Otherwise memory becomes ResolveFault of the old memory, although every access goes through the windows. |
| `RecursivePaging.PageTable.ResolveNotPresent` | mp4/page_table.C:113-146 | The handler's not-present path has exactly the effect ResolveFault describes. |
| `RecursivePaging.PageTable.EnsureTable` | mp4/page_table.C:123-143 | When the directory entry is not present, it is set present with the new table and that table is cleared. The self map is kept. In every case the entry is present afterwards. |
| `RecursivePaging.PageTable.SetTableEntry` | mp4/page_table.C:144 | The store through the table window writes entry pte of the table that entry pde names, and nothing else. |
| `RecursivePaging.PageTable.InstallTable` | mp4/page_table.C:125-130 | The two stores through the directory window make entry pde `tableFrame << 12 \| 3` and keep the self map. |
| `RecursivePaging.PageTable.ClearTable` | mp4/page_table.C:137-143 | The 1024 stores through the table window make the new table empty and change nothing else. |
| `RecursivePaging.PageTable.RegisterPool` | mp4/page_table.H:132-133 | The pool is appended to the list of registered pools. |
| `RecursivePaging.PageTable.FreePage` | mp4/page_table.H:135-136 | A mapped page is marked invalid and its frame is returned. For an unmapped page nothing changes and None is returned. |
| `VirtualMemory.FreshSlotsPartition` | mp4/vm_pool.C:58-67 | After construction, allocated entry 0 (the list page) and free entry 0 (the rest) split the pool. |
| `VirtualMemory.FirstFitFrom` | mp4/vm_pool.C:76-84 | Returns the first free entry at or after `from` with room for s bytes. None means no such entry. |
| `VirtualMemory.FirstFit` | mp4/vm_pool.C:76-84 | Returns the first free entry with room for s bytes, and None exactly when none has room. |
| `VirtualMemory.CarveTotal` | mp4/vm_pool.C:86-96 | Allocation keeps the sum of the live entries' sizes. |
| `VirtualMemory.CarveApart` | mp4/vm_pool.C:86-96 | After allocation no two non-empty live entries overlap. |
| `VirtualMemory.CarveKeepsPartition` | mp4/vm_pool.C:86-96 | Allocation keeps the pool split among its entries. |
| `VirtualMemory.IntendedAllocate` | mp4/vm_pool.C:86-98 | The intended result is the base of the entry just created. That region is legitimate afterwards. |
| `VirtualMemory.AllocateReturnsNextSlot` | mp4/vm_pool.C:91-98 | Allocating 100 bytes from a fresh pool returns the never-written slot's base 0, where the intended result is base + 4096. |
| `VirtualMemory.FirstMatch` | mp4/vm_pool.C:110-118 | Returns the first allocated entry whose base is a. None means there is none. |
| `VirtualMemory.VacateTotal` | mp4/vm_pool.C:126-133 | Release keeps the sum of the live entries' sizes. |
| `VirtualMemory.VacateApart` | mp4/vm_pool.C:126-133 | After a release no two non-empty live entries overlap. |
| `VirtualMemory.VacateKeepsPartition` | mp4/vm_pool.C:126-133 | Release keeps the pool split among its entries. |
| `VirtualMemory.LegitimateInPool` | mp4/vm_pool.C:142-156 | A legitimate address lies inside the pool. |
| `VirtualMemory.CarveLegitimate` | mp4/vm_pool.C:86-96 | After allocation, an address is legitimate exactly when it was already, or when it lies in the new region. |
| `VirtualMemory.VacateLegitimate` | mp4/vm_pool.C:131-133 | After a release, an address is legitimate exactly when it was and does not lie in the released region. |
| `VirtualMemory.VMPool.constructor` | mp4/vm_pool.C:46-70 | Registers the pool with its page table. Allocated entry 0 is (base, 4096), free entry 0 is (base + 4096, size - 4096), and both counts are 1. The pool invariant holds. |
| `VirtualMemory.FreshSlots` | mp4/vm_pool.C:58-67 | The new list page holds allocated entry 0 = (base, 4096) and free entry 0 = (base + 4096, size - 4096). Every other entry is (0, 0). |
| `VirtualMemory.VMPool.Allocate` | mp4/vm_pool.C:72-105 | With no fitting free entry, returns 0 and changes nothing. Otherwise it carves s bytes from the first fitting entry into a new allocated entry and returns the base of the slot after it, as written. The invariant is kept. |
| `VirtualMemory.VMPool.FindFree` | mp4/vm_pool.C:76-84 | The scan finds exactly the first free entry with room for s bytes. |
| `VirtualMemory.VMPool.TakeFree` | mp4/vm_pool.C:86-96 | The list page becomes Carve of the old one, with one more allocated entry. The invariant is kept. |
| `VirtualMemory.Carve` | mp4/vm_pool.C:86-96 | Allocated entry na becomes the first s bytes of free entry i, and free entry i shrinks to the bytes after them. No other entry changes. |
| `VirtualMemory.VMPool.Release` | mp4/vm_pool.C:107-140 | Halts, changing nothing, when no entry matches or the matching entry is empty. Otherwise it moves the entry to the free list, zeroes it and marks the page at the address invalid. The invariant is kept. |
| `VirtualMemory.VMPool.FindAllocated` | mp4/vm_pool.C:110-118 | The scan finds exactly the first allocated entry whose base is a. |
| `VirtualMemory.VMPool.MoveToFree` | mp4/vm_pool.C:126-133 | The list page becomes Vacate of the old one, with one more free entry. The invariant is kept. |
| `VirtualMemory.Vacate` | mp4/vm_pool.C:126-133 | Free entry nf becomes allocated entry i, which is zeroed. No other entry changes. |
| `VirtualMemory.VMPool.IsLegitimate` | mp4/vm_pool.C:142-156 | True exactly when some allocated entry covers the address. |
| `VirtualMemory.Legitimate` | mp4/vm_pool.C:142-156 | An address is legitimate exactly when one of the first na allocated entries is non-empty and covers it, so a zeroed entry never matches. |

## Left out

- Console output (`Console::puts`) and the printing `switch` over the error code are not modelled. An `assert(false)` of the source is either a precondition or a `halted` result.
- Register access (`read_cr2`, `write_cr3`, `read_cr0`, `write_cr0`) is not modelled: CR0, CR2 and CR3 are fields of `Hardware`, and raw pointer casts become frame numbers and word indices.
- `init_paging` and the static pool pointers of the page tables are not modelled. Frames that the source takes from `kernel_mem_pool` or `process_mem_pool` with `get_frames(1)` are parameters of the constructors and handlers, so a failed `get_frames` (result 0) is not followed.
- There is no TLB: a store through a window takes effect for the next translation.
- Bitwise masks and shifts on addresses and entries are written as the division, remainder and multiplication they compute on words in [0, 2^32). `Paging.MasksSplitAddress` states the masks themselves on `bv32`.
- Unsigned wrap-around of the frame pool's counters and frame numbers is not modelled. Counts, frame numbers and request sizes are unbounded naturals. The two cases where the source's arithmetic wraps for values the model admits are named under `FramePool.ContFramePool.GetFrames` and `FramePool.ContFramePool.FreeRun` below.
- `DirectPaging.PageTable.EnablePaging`, `DirectPaging.PageTable.CheckIfPtLoaded` and `RecursivePaging.PageTable.EnablePaging`: before any `load`, `current_page_table` is NULL (mp3/page_table.C:7, mp4/page_table.C:7), and the source dereferences it at mp3/page_table.C:71 and mp4/page_table.C:73. The model treats this case as "not loaded", so `enable_paging` halts.
- `VirtualMemory.VMPool`: addresses and sizes are unbounded naturals. The 32-bit sums `base_address + _size` (mp4/vm_pool.C:94) and `base_address + size` (mp4/vm_pool.C:148) do not wrap in the model, so a region that reaches past 2^32 covers addresses that the source's check would not.
- The window accesses of the recursive page table assume paging is enabled with the self-mapped directory in CR3. The model does not track whether `enable_paging` has run.
- `FramePool.ContFramePool.IsFree`: an index outside the pool reads as not free. The source reads past the bitmap there, because the inner loop of `get_frames` (MP2/cont_frame_pool.C:282) can reach `j >= n_frames`, so this guard decides a case that the source leaves to whatever memory follows the bitmap.
- `FramePool.ContFramePool.FreeRun`: the release loop also stops at the end of the pool. The loop at MP2/cont_frame_pool.C:352 stops only at a free frame, and would go on reading past the bitmap. A frame number below the pool's base gives a negative start, and the model then frees nothing. In the source, `i - base_frame_no` wraps to a huge index and reads far past the bitmap. `release_frames` reaches this case when no pool owns the frame and it falls back to the last pool (MP2/cont_frame_pool.C:365-376).
- `FramePool.ContFramePool.GetFrames` requires `nFreeFrames > 0`, as the source asserts at MP2/cont_frame_pool.C:270.
- `FramePool.ContFramePool.GetFrames`: the request `n` is an unbounded natural, while the source's `unsigned int _n_frames` makes `i + _n_frames` (MP2/cont_frame_pool.C:282, :308) and `nFreeFrames - _n_frames` (:315) wrap modulo 2^32. For a request near 2^32 the two differ. On states [FREE, HEAD, FREE, FREE] with `get_frames(0xFFFFFFFF)`, the source's search moves to i = 2, where `2 + 0xFFFFFFFF` wraps to 1, so the inner loop never runs. The source then returns base + 2, marks nothing and raises the counter by one. The model finds no window, returns 0 and changes nothing.
- `FramePool.PoolRegistry.ReleaseFrames` and `FramePool.PoolRegistry.FindPool` require at least one registered pool. With none, `head` is NULL and the walk at MP2/cont_frame_pool.C:364-365 dereferences it.
- `FramePool.ContFramePool.MarkInaccessible` requires the frames it marks to be free, the condition that `allocate` asserts for each of them. It also requires the range checks of MP2/cont_frame_pool.C:332-333.
- `FramePool.ContFramePool.constructor` requires `n > 0` when the pool holds its own bitmap. Otherwise the write to frame 0's state at MP2/cont_frame_pool.C:218 writes outside a zero-byte bitmap.
- `n_info_frames` is only stored. No frame is marked when an info frame is given (the TODO at MP2/cont_frame_pool.C:221), and the model does the same.
- `RecursivePaging.PageTable.RegisterPool` follows the header contract (mp4/page_table.H:85-86, 132-133), not the code at mp4/page_table.C:156-175, which dereferences a NULL list head. The list holds `object`s, since the page-table module cannot name `VMPool` without a module cycle. The capacity of the unsized `vmpool_list` array is not modelled.
- `RecursivePaging.PageTable.FreePage` follows the header contract (mp4/page_table.H:135-136), because the code at mp4/page_table.C:177-180 is `assert(false)`. It returns the frame it unmapped instead of releasing it, because nothing in the source says which frame pool that would be.
- `VirtualMemory.VMPool.constructor`: the call `allocate(4096)` at mp4/vm_pool.C:58 runs before the lists exist and depends on page faults to back them. The model therefore gives the pool its list page directly. Slots that the source never writes are (0, 0), and the pool must be at least 4096 bytes. The `frame_pool` field is only stored, so it is left out.
- `VirtualMemory.VMPool.Release`: when no allocated entry has the given base, the source uses an uninitialised index (mp4/vm_pool.C:110-120). The model halts and changes nothing. Release frees only the first page of the region, as the single `free_page` call does.
- `VirtualMemory.VMPool.Allocate` requires fewer than 256 allocated entries when a free region fits, and `VirtualMemory.VMPool.Release` requires fewer than 256 free entries. The source writes past the list's end otherwise. With no fitting region, `Allocate` returns 0 however full the list is, as mp4/vm_pool.C:100-104 does.
- The page-fault handler does not check `is_legitimate`, and neither does the model.
- The scheduler, the disk drivers and the file system of the later kernels are not part of this model.

## Findings

| source | as written | input that shows it | evidently intended | confidence | as-written member | corrected member |
|---|---|---|---|---|---|---|
| MP2/cont_frame_pool.C:282 | The search and marking loops run `j` from `i` to `i + _n_frames` inclusive. They take n + 1 frames but subtract only n from `nFreeFrames`. | A pool of 8 free frames with `get_frames(2)`: frames 0 .. 2 are marked, 5 frames stay free, and `nFreeFrames` is 6. | First fit on a window of exactly n frames, as the design comment at MP2/cont_frame_pool.C:59-62 says. | not executed | `FramePool.GetFramesTakesOneExtra` | `FramePool.IntendedRoundTrip` |
| MP2/cont_frame_pool.C:352 | The release loop stops only at a FREE frame, so it runs on through the next sequence's HEAD. | States [HEAD, HEAD, FREE]: releasing frame 0 frees frames 0 and 1. | Stop at a FREE or HEAD frame, as the design comment at MP2/cont_frame_pool.C:64-67 says, so only [FREE, HEAD, FREE] results. | not executed | `FramePool.ReleaseSpillsIntoNeighbour` | `FramePool.ReleaseSequence` |
| mp4/vm_pool.C:98 | `allocate` returns `allocated_list[no_of_allocated]` after the count is incremented, which is the slot past the new entry. | On a fresh pool, `allocate(100)` returns 0, the never-written slot 2, instead of base + 4096. | Return the base of the entry just created. | not executed | `VirtualMemory.AllocateReturnsNextSlot` | `VirtualMemory.IntendedAllocate` |
| mp4/page_table.C:36 | The loop that fills the first page table stops at `i < 1023`, so entry 1023 is never written. The mp3 version writes all 1024. | With the table frame's entry 1023 not present beforehand, address 0x3FF000 faults after construction instead of reaching itself. | Identity-map all of the first 4 MiB, as the mp3 constructor does. | not executed | `RecursivePaging.LastLowPageUnmapped` | `RecursivePaging.IntendedTablesMapFirst4MiB` |
