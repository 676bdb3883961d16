# Astral OS kernel: verified models

Models of the resource managers of the Astral OS kernel and proofs about them. Code that
works on mutable state is a class whose methods are proved against functions on values;
protocols are step systems; the lemmas say what the source is for. One module per file, with
shared definitions in `Common`; `dafny verify dfyconfig.toml` checks everything.

- Virtual memory: `Paging`, `FrameCost`, `Rights`, `Mmio`, `UserSpace`, `ElfLoader`, `ProgramBreak`.
  Physical memory is a map from frames to tables of 512 entries or pages of 4096 bytes. Every table
  has a ghost place (its root and the indices leading to it); all roots share the tables under
  entries 256..511. A mapping is a whole leaf entry, frame and permissions; `Rights` gives the
  permissions of the whole walk, `FrameCost` counts the frames that mapping a set of pages takes.
  Addresses are compared by page, because `PhysAddr::new` masks the low 12 bits.
- Allocators: `Heap` (headers live in the free memory itself), `FrameAllocator` (one caller),
  `FrameRace` (interleaved load and exchange steps), `SlabPages` and `SlabCache`.
- Protocols: `Virtqueue` (driver and device over sections 2.4.5 to 2.4.8 of VIRTIO 1.0), `RwLock`,
  `Barrier`, `Once`; threads interleave at single atomic operations, sequentially consistent.
- Fast forms and the simple ones they agree with: `BlockCache`, `Extents`, `BlockSearch`,
  `FileData`, `Paths`, `Vfs`, `RunQueues`, `Dispatch`, `LoadBalance`, `GapBuffers`, `Editor`,
  `Checksum`, `Ipv4`.

The frame supply, disk and driver outcomes, the process table, time stamps, CR3 and the
higher-half offset are parameters.

## Where the code does not do what its name or comments say

Each has a theorem that gives the exact condition under which the expected property holds, or
exactly what happens instead.

- `unmount` removes the mount before asking the driver, and a driver error skips clearing the
  path cache (`Vfs.StaleIff`, `Vfs.FailedUnmountIsStale`).
- Cache eviction ignores a failed write, and an access counter that wraps to 0 drops the entry, also
  on a write (`BlockCache.InsertedView`, `BlockCache.EvictionLosesWrite`, `BlockCache.WriteRefines`,
  `BlockCache.ReadRefines`, `BlockCache.WrapLosesWrite`).
- `allocate_contiguous_blocks` numbers bits from block 0 and `is_block_allocated` from block 128. No
  file ever sets the bits of the first 128 data blocks, so all files of at most 128 blocks share
  them, and a fragmented file can get one block twice (`BlockSearch.SmallFilesCoincide`,
  `BlockSearch.SecondFileApartIff`, `BlockSearch.TakenDistinct`, `BlockSearch.RepeatedBlock`,
  `FileData.SecondFileShows`, `FileData.ReadBackIff`, `FileData.WriteTwo`,
  `FileData.FillThenWrite`).
- Usable memory that does not start at a frame boundary is freed from the frame it starts in, which
  it does not fill (`FrameAllocator.FreedInsideIff`, `FrameAllocator.HalfOutside`).
- A free block header is written behind an allocation without aligning it
  (`Heap.AllocKeepsAlignedIff`, `Heap.RunKeepsAligned`, `Heap.OddHeader`).
- A page shared by two segments has the permissions of the first one only, and an executable segment
  over the stack replaces it silently (`ElfLoader.LoadedPermits`, `ElfLoader.SharedPageNotWritable`,
  `ElfLoader.StackReplacedIff`, `ElfLoader.OverStackTouches`).
- `balance_load` does not recompute the load, so it empties an overloaded CPU
  (`LoadBalance.Machine.BalanceLoad`, `LoadBalance.ThreeAndNoneOverloaded`).
- Queue sizes below 128 use ring slots modulo 128 and arrays of 128 elements that overlap
  (`Virtqueue.RingSlotAgrees`, `Virtqueue.DriverArraysApartIff`).
- `map_mmio` counts pages from the size alone (`Mmio.RangeCoveredIff`, `Mmio.LastByteNotCovered`).
- Loading a missing file keeps the old cursor, and `delete_char` does nothing at the end of a line
  (`Editor.Editor.Load`, `Editor.Editor.DeleteChar`).
- `parse` after `to_bytes` loses or gains payload when ihl is not 5 (`Ipv4.RoundTripIff`,
  `Ipv4.OptionsLosePayload`).
- A new slab of one 2048-byte object is full but stays on the partial list
  (`SlabCache.SizeClassCache.Alloc`).

## Model

| member | source | states |
|---|---|---|
| Paging.AddressWordRoundTrip | kernel/src/memory/paging.rs:42-57 | a stored entry word gives back the address masked to bits 12..51 and the kept flags; neither field leaks into the other |
| Paging.IndicesOfPage | kernel/src/memory/paging.rs:93-111 | the four table indices are the digits of the page number in base 512 |
| Paging.PathIdentifiesPage | kernel/src/memory/paging.rs:93-111 | two addresses walk the same four indices exactly when they lie in one page |
| Paging.PathSpellsPage | kernel/src/memory/paging.rs:93-111 | read from the highest level down the indices spell the page number, most significant digit first |
| Paging.TranslateIsFourReads | kernel/src/memory/paging.rs:399-427 | a translation is what four table reads give, at bits 39..47, 30..38, 21..29 and 12..20 of the address in this order |
| Paging.ReachesSpellsPlace | kernel/src/memory/paging.rs:170-246 | a table reached from a root sits at the place its walk spells: the tables form trees that share only the kernel half |
| Paging.SlotsAreSeparate | kernel/src/memory/paging.rs:170-246 | two walks end in one leaf slot only for the same page, and for different roots only in the shared upper half |
| Paging.LinkKeepsWellFormed | kernel/src/memory/paging.rs:178-230 | hanging a zeroed table into an empty slot, or rewriting the flags of a present one, keeps the tree invariant |
| Paging.LinkKeepsTranslations | kernel/src/memory/paging.rs:178-230 | creating an intermediate table changes no mapping, frame or permissions, through any root |
| Paging.LeafChangesLookup | kernel/src/memory/paging.rs:232-245 | writing a leaf changes a lookup exactly when the lookup ends in that slot |
| Paging.LeafChangesTranslations | kernel/src/memory/paging.rs:232-245 | writing a leaf changes the entry of its page and of no other, through every root that does not share the slot |
| Paging.WalkKeeps | kernel/src/memory/paging.rs:178-230 | getting or creating the three tables keeps the invariant and all translations, also when it runs out of memory halfway |
| Paging.WalkReaches | kernel/src/memory/paging.rs:178-230 | a completed walk ends at the leaf table of its path |
| Paging.WalkStaysBelow | kernel/src/memory/paging.rs:178-230 | a walk touches no table at or above the level it starts from other than its starting table |
| Paging.WalkCost | kernel/src/memory/paging.rs:178-230 | a walk consumes one frame per missing table and fails exactly when the supply is shorter |
| Paging.WalkStaysInside | kernel/src/memory/paging.rs:178-230 | a walk touches no table outside the subtree it starts in |
| Paging.WalkMissing | kernel/src/memory/paging.rs:178-230 | after a walk, any other walk from the same table lacks the smaller of what it lacked and what it does not share with this one |
| FrameCost.SharedTables | kernel/src/memory/paging.rs:178-230 | walks find the tables they share alike |
| FrameCost.LackingMore | kernel/src/memory/paging.rs:178-230 | of the tables that a further page lacked at first, the earlier pages have brought those they share with it and no others |
| FrameCost.CostMore | kernel/src/memory/paging.rs:178-230 | so a further page costs one frame and the tables its walk misses by now |
| FrameCost.SpentMore | kernel/src/memory/paging.rs:170-246 | mapping one more page keeps the account: what was taken is one frame per page and one per table that they lacked together |
| FrameCost.CostGrows | kernel/src/memory/paging.rs:170-246 | more pages never cost less |
| FrameCost.CostAtMost | kernel/src/memory/paging.rs:170-246 | a page costs at most four frames |
| Paging.LinkKeepsPlain | kernel/src/memory/paging.rs:178-230 | linking a table, or rewriting an entry with the intermediate flags, keeps every plain walk plain: present, writable, user and executable above the leaf |
| Paging.WalkKeepsPlain | kernel/src/memory/paging.rs:178-230 | so does a whole walk |
| Paging.ForcedWalkIsPlain | kernel/src/memory/paging.rs:262-306 | the walk of map_executable makes its own path plain |
| Rights.EffectiveSplits | kernel/src/memory/paging.rs:170-246 | what the processor grants is what the entries above grant and the leaf grants |
| Rights.PlainMeansLeaf | kernel/src/memory/paging.rs:170-246 | on a plain walk the leaf alone decides |
| Rights.PlainRights | kernel/src/memory/paging.rs:170-246 | below a root with a plain lower half every lower-half page has exactly the rights of its leaf |
| Rights.ForcedWalkWidensIff | kernel/src/memory/paging.rs:262-306 | the walk of map_executable leaves a mapped page exactly the rights of its leaf; it widens them unless the entries above granted all of these before |
| Paging.WalkForces | kernel/src/memory/paging.rs:262-306 | the walk of map_executable leaves only present entries without NO_EXECUTE on its way |
| Paging.LeafExecutable | kernel/src/memory/paging.rs:308-322 | an executable leaf at its end makes the whole path executable |
| Paging.MissingMeansUnmapped | kernel/src/memory/paging.rs:399-427 | a page whose path lacks a table has no translation |
| Paging.PhysicalMemory.AllocateFrame | kernel/src/memory/paging.rs:170-246 | the next frame of the supply leaves it and is in no tree |
| Paging.PhysicalMemory.Descend | kernel/src/memory/paging.rs:178-194 | one level of the walk is the function whose invariants the walk lemmas prove |
| Paging.PageTableManager.Walk | kernel/src/memory/paging.rs:178-230 | the three in-place levels compute the walk function |
| Paging.PageTableManager.Map | kernel/src/memory/paging.rs:170-246 | success maps exactly that page to that frame with those flags; a failure changes no mapping; AlreadyMapped exactly for a mapped page, OutOfMemory exactly when frames are short; the tables of that walk are new and no others, and plain lower halves stay plain |
| Paging.PageTableManager.MapExecutable | kernel/src/memory/paging.rs:249-323 | as Map, but it overwrites a mapped page and fails only for lack of frames; afterwards all four entries of the walk are present with NO_EXECUTE clear, and the three above the leaf have the intermediate flags |
| Paging.PageTableManager.Unmap | kernel/src/memory/paging.rs:357-396 | succeeds exactly for a mapped page, removes that page only and returns the frame that the four reads find; each error names the missing level; plain lower halves stay plain |
| Paging.PageTableManager.TranslateAddr | kernel/src/memory/paging.rs:399-427 | the four in-place reads give what the processor finds with bits 39..47, 30..38, 21..29 and 12..20 of the address, which is the abstract translation |
| Mmio.MapMmio | kernel/src/memory/paging.rs:328-354 | success maps every page of the range that was unmapped to consecutive frames, uncached and not executable, and keeps the mapped ones; it fails exactly if the free frames are fewer than the tables that the unmapped pages lack together, and then mapped a prefix; pages outside the range keep their entry through every root |
| Mmio.MapExtends | kernel/src/memory/paging.rs:334-350 | mapping one more page extends the mapped range by exactly that page |
| Mmio.DevicePage | kernel/src/memory/paging.rs:344-348 | a page that was unmapped is afterwards writable and uncached, not for users and not executable |
| Mmio.RangeCoveredIff | kernel/src/memory/paging.rs:330-335 | the page count, computed from the size alone, covers every byte exactly when the offset in the first page leaves room |
| Mmio.LastByteNotCovered | kernel/src/memory/paging.rs:330-335 | a range of 4096 bytes one byte into a page whose last byte is not covered |
| UserSpace.RunLowerCalls | kernel/src/arch/x86_64/usermode.rs:138-180 | any sequence of lower-half map, map_executable and unmap calls changes no translation through another root and no upper-half translation, although tables are shared; lower halves that were plain stay plain, so leaf permissions stay the effective ones |
| UserSpace.LowerSlotIsIsolated | kernel/src/arch/x86_64/usermode.rs:138-180 | a change confined to one lower-half slot is invisible through other roots and in the upper half |
| UserSpace.LowerCall | kernel/src/arch/x86_64/usermode.rs:138-180 | one lower-half call, whatever it returns, changes nothing through other roots or in the upper half |
| UserSpace.SharedEntryAgrees | kernel/src/arch/x86_64/usermode.rs:156-165 | two roots with the same top entry translate everything under it alike |
| UserSpace.NewRootKeeps | kernel/src/arch/x86_64/usermode.rs:141-171 | a new root with the copied upper half keeps the invariant, translates the upper half as the current root and nothing in the lower half |
| UserSpace.NewRootPlain | kernel/src/arch/x86_64/usermode.rs:141-171 | the lower half of a new root is plain, and the others stay as plain as they were |
| UserSpace.CopyKernelHalf | kernel/src/arch/x86_64/usermode.rs:161-165 | the copy loop leaves 256 empty entries and the 256 kernel entries |
| UserSpace.MapNewPage | kernel/src/arch/x86_64/usermode.rs:93-111 | a fresh zeroed frame appears at one page with the flags asked for and nothing else changes; OutOfMemory exactly when the supply is shorter than one frame and the missing tables, and exactly these frames are taken |
| UserSpace.AllocateUserStack | kernel/src/arch/x86_64/usermode.rs:88-126 | succeeds exactly if no stack page is mapped and the frames suffice for the sixteen pages and the tables they lack; then 16 pages, writable and not executable, are 16 different zeroed frames and the result is their 16-byte aligned end; only stack pages change, also on failure |
| UserSpace.StackStaysMapped | kernel/src/arch/x86_64/usermode.rs:93-111 | mapping the next stack page keeps the earlier ones mapped |
| UserSpace.StackGrows | kernel/src/arch/x86_64/usermode.rs:93-111 | a page in a frame that held no data joins the stack pages, all in different frames |
| UserSpace.StackCost | kernel/src/arch/x86_64/usermode.rs:88-126 | below an empty lower half the stack costs sixteen pages and three tables |
| Rights.StackRights | kernel/src/arch/x86_64/usermode.rs:93-111 | below a plain root a program may write its stack pages and not execute them |
| UserSpace.CreateUserAddressSpace | kernel/src/arch/x86_64/usermode.rs:138-180 | succeeds exactly with at least twenty free frames, and fails with OutOfMemory only; no old translation changes; the new space agrees with the current one on the upper half, has only the stack in the lower half, and that half is plain |
| ElfLoader.TrackPage | kernel/src/usermode/spawn.rs:170-210 | a page shared with an earlier segment reuses its frame and takes none; a new one is zeroed and gets the permissions of this segment; everything loaded so far stays visible; OutOfMemory only if the pages of all segments need more frames than there were |
| ElfLoader.MapSegment | kernel/src/usermode/spawn.rs:144-210 | all pages of a segment are tracked, its frames are listed in page order, and exactly their cost was taken |
| ElfLoader.CopySegment | kernel/src/usermode/spawn.rs:212-230 | the copy loop leaves the file bytes of the segment in the frames on top of what was loaded |
| ElfLoader.LoadSegment | kernel/src/usermode/spawn.rs:127-235 | one segment extends the visible image by its bytes; InvalidSegment only for file data outside the file, AlreadyMapped only for a conflict, OutOfMemory only for too few frames |
| ElfLoader.LoadSegments | kernel/src/usermode/spawn.rs:53-70 | succeeds if and only if all file data lies in the file, no page that was mapped before is first touched by a segment that is not executable, and the frames suffice for the distinct touched pages and the tables they lack together; each error names a condition that fails; after success byte i of every segment is the file byte at offset + i below filesz and 0 from there to memsz, for disjoint segments with filesz at most memsz; pages have the permissions of the first segment in them; the heap starts at the lowest page boundary a page above all segments; only pages of segments change and old data stays, also on failure |
| ElfLoader.LoadHeaders | kernel/src/usermode/spawn.rs:57-67 | the loop over the headers: the loader invariant, all file data in bounds, the frames taken, and what each error means |
| ElfLoader.ImageShowsSegments | kernel/src/usermode/spawn.rs:53-67 | the visible image of disjoint segments is their file bytes, each inside the file, then zeros |
| ElfLoader.NewPageIsFirst | kernel/src/usermode/spawn.rs:170-210 | a page not tracked yet is touched by no earlier segment |
| ElfLoader.PageKeepsSince | kernel/src/usermode/spawn.rs:170-210 | mapping one page keeps: only pages of segments differ, tracked frames are new and have the permissions of the first segment |
| ElfLoader.StoreKeepsSince | kernel/src/usermode/spawn.rs:212-230 | storing a file byte keeps old data and all permissions |
| ElfLoader.LoadedPermits | kernel/src/usermode/spawn.rs:152-207 | every page of a segment has exactly the write and execute permission of the first segment that touches it |
| ElfLoader.SegmentRights | kernel/src/usermode/spawn.rs:152-207 | below a plain root the processor grants a page of a segment exactly the rights of the first segment in it |
| ElfLoader.LoadedReplaces | kernel/src/usermode/spawn.rs:174-206 | a page that held data before keeps its frame if and only if no segment touches it |
| ElfLoader.StackSurvivesIff | kernel/src/usermode/spawn.rs:49-70 | the stack survives loading if and only if no segment touches a stack page |
| ElfLoader.LoadedWithoutConflict | kernel/src/usermode/spawn.rs:174-206 | a completed load met no page that was mapped before under a segment that is not executable |
| ElfLoader.StackReplacedIff | kernel/src/usermode/spawn.rs:49-70 | after a successful load a stack page was replaced if and only if an executable segment is the first to touch it, and no other segment can touch it |
| ElfLoader.OverStackTouches | kernel/src/usermode/spawn.rs:49-70 | a one-page segment at the base of the stack: it touches the first stack page, and conflicts with it unless it is executable |
| ElfLoader.SharedPageNotWritable | kernel/src/usermode/spawn.rs:152-207 | an executable segment at 0x400000 and a writable one at 0x400800: the page of the second is not writable |
| ElfLoader.ByteExtendsImage | kernel/src/usermode/spawn.rs:212-230 | one byte written through its frame is that byte at its virtual address and changes no other |
| ElfLoader.NewPageKeepsLoaded | kernel/src/usermode/spawn.rs:170-210 | a new zeroed page keeps all bytes shown before |
| ElfLoader.LoadedShowsImage | kernel/src/usermode/spawn.rs:53-70 | the loader invariant at the end is the visible image |
| ElfLoader.AllSpent | kernel/src/usermode/spawn.rs:170-210 | a completed load took exactly one frame for each distinct touched page and one for each table they lacked together |
| ElfLoader.DisjointImage | kernel/src/usermode/spawn.rs:127-235 | for disjoint segments with filesz at most memsz the image is the file byte below filesz and 0 from there to memsz |
| ElfLoader.OutsideImage | kernel/src/usermode/spawn.rs:127-235 | an address in no segment holds 0 |
| ElfLoader.UntrackedIsZero | kernel/src/usermode/spawn.rs:144-210 | a page that was never tracked holds no image byte |
| ProgramBreak.Process.SysBrk | kernel/src/usermode/syscall.rs:515-583 | query, range error, growth and shrinking: the break after each; growth gives zeroed pages in different new frames up to the rounded break and touches nothing below the old one; errors keep the break; NoMemory exactly if fewer frames are left than unmapped new pages and tables they lack together |
| ProgramBreak.Process.GrowHeap | kernel/src/usermode/syscall.rs:542-570 | the page loop maps every page up to where it got, zeroed and in frames of their own unless they were mapped before; it completes exactly if the frames suffice |
| ProgramBreak.Process.GrowPage | kernel/src/usermode/syscall.rs:551-570 | one round of the loop: the page is mapped and exactly the frames it needs are spent, or the pages up to it need more than there were |
| ProgramBreak.Process.SysSbrk | kernel/src/usermode/syscall.rs:587-608 | returns the old break and moves it by the rounded increment; InvalidArgument exactly outside the heap range, NoMemory exactly as for SysBrk; a target of 0 acts as a query; the pages change as in SysBrk |
| ProgramBreak.GrownByPage | kernel/src/usermode/syscall.rs:542-570 | one more page extends the grown range |
| ProgramBreak.FreshByPage | kernel/src/usermode/syscall.rs:551-570 | one more page keeps new pages zero and in different frames |
| ProgramBreak.SpentOnMapped | kernel/src/usermode/syscall.rs:551-570 | a page that is mapped already takes no frame |
| ProgramBreak.SpentOnNew | kernel/src/usermode/syscall.rs:551-570 | a new page takes one frame and one for each table that no earlier page brought |
| ProgramBreak.FourAPage | kernel/src/usermode/syscall.rs:542-570 | four frames for each page always suffice |
| ProgramBreak.HeapRights | kernel/src/usermode/syscall.rs:546-549 | below a plain root a program may write new heap pages and not execute them |
| Heap.AlignUpAligned | kernel/src/util.rs:3-6 | the result is a multiple of the alignment |
| Heap.AlignUpLeast | kernel/src/util.rs:3-6 | no smaller multiple is at or above the address |
| Heap.InitialIsGood | kernel/src/memory/heap.rs:66-72 | the one-block list satisfies the run invariant |
| Heap.AllocKeepsList | kernel/src/memory/heap.rs:84-128 | taking a block keeps the list sorted, in bounds and coalesced, and removes exactly the bytes taken with padding and absorbed remainder |
| Heap.RoundedIsLeast | kernel/src/memory/heap.rs:77-77 | the size of an allocation is the least multiple of the alignment that is at least the request and 16 |
| Heap.FitsIff | kernel/src/memory/heap.rs:84-96 | a block fits if and only if some aligned address in it has room, and the rounded start is the first |
| Heap.FirstFitIsLowest | kernel/src/memory/heap.rs:80-128 | first fit finds the lowest aligned address with room in the whole list |
| Heap.AllocTakes | kernel/src/memory/heap.rs:84-118 | exactly the bytes from the start of the block to the end of the allocation leave the list, or the whole block when at most 16 bytes would be left |
| Heap.DeallocKeepsCoalesced | kernel/src/memory/heap.rs:134-198 | inserting with both merges keeps the list sorted, in bounds and coalesced |
| Heap.DeallocAddsBytes | kernel/src/memory/heap.rs:134-198 | a byte is free afterwards exactly when it was free or belongs to the freed block |
| Heap.DeallocAddsTotal | kernel/src/memory/heap.rs:134-198 | the free total grows by the freed size |
| Heap.CanonicalList | kernel/src/memory/heap.rs:76-198 | two coalesced lists with the same free bytes are the same list |
| Heap.AllocThenFreeRestores | kernel/src/memory/heap.rs:76-198 | alloc then dealloc restores the list if and only if nothing was padded and no remainder was absorbed |
| Heap.FreeingCommutes | kernel/src/memory/heap.rs:134-198 | freeing two blocks in either order gives the same list |
| Heap.AllocKeepsGood | kernel/src/memory/heap.rs:76-131 | an allocation keeps free and live blocks disjoint, the counter equal to the live sizes and free plus allocated within the heap |
| Heap.DeallocKeepsGood | kernel/src/memory/heap.rs:134-198 | a matching deallocation keeps the same invariant |
| Heap.RunKeepsGood | kernel/src/memory/heap.rs:76-198 | so does every run of allocations and matching deallocations |
| Heap.AllocKeepsAlignedIff | kernel/src/memory/heap.rs:76-128 | an allocation keeps every free-block header 8-byte aligned if and only if it fails, leaves no remainder, or its rounded size is a multiple of 8 |
| Heap.DeallocKeepsAligned | kernel/src/memory/heap.rs:133-198 | freeing keeps all headers aligned |
| Heap.RunKeepsAligned | kernel/src/memory/heap.rs:76-198 | so does every run whose allocations have rounded sizes that are multiples of 8 |
| Heap.OddHeader | kernel/src/memory/heap.rs:76-128 | a 17-byte request of alignment 1 on a fresh heap at 0x1000 leaves a header at 0x1011 |
| Heap.Relink | kernel/src/memory/heap.rs:180-195 | redirecting one link in memory splices a block into the represented list |
| Heap.Unlink | kernel/src/memory/heap.rs:107-120 | redirecting one link in memory cuts blocks out of the represented list |
| Heap.TakenLinked | kernel/src/memory/heap.rs:96-120 | the header writes of an allocation leave memory representing the list after it |
| Heap.FreedLinked | kernel/src/memory/heap.rs:134-198 | the header writes of a deallocation, merges included, leave memory representing the list after it |
| Heap.LinkedListAllocator.constructor | kernel/src/memory/heap.rs:66-72 | the first header in memory represents one block of the whole heap |
| Heap.LinkedListAllocator.Search | kernel/src/memory/heap.rs:80-128 | the pointer walk finds the first fitting block and its predecessor |
| Heap.LinkedListAllocator.TakeBlock | kernel/src/memory/heap.rs:91-124 | the in-place unlinking realises the list function |
| Heap.LinkedListAllocator.AllocImpl | kernel/src/memory/heap.rs:76-131 | refines the step; the block has the least size that holds the request and a header in whole units of the alignment, at the lowest aligned address with that much room in one free block; it takes from that block everything up to its own end, or all of it when at most a header would be left; null exactly when no free block has room |
| Heap.LinkedListAllocator.SearchAbove | kernel/src/memory/heap.rs:141-151 | the pointer walk finds the insertion position |
| Heap.LinkedListAllocator.LinkIn | kernel/src/memory/heap.rs:153-195 | insertion and merging in place realise the list function |
| Heap.LinkedListAllocator.DeallocImpl | kernel/src/memory/heap.rs:134-198 | refines the abstract step for a live block |
| Heap.LinkedListAllocator.ClientStore | kernel/src/memory/heap.rs:76-198 | whatever a client stores inside its own block, the list kept in free memory survives |
| Virtqueue.AreasFitOnePage | kernel/src/drivers/virtio/queue.rs:78-99 | for every size up to 128 the three areas as size_requirements counts them are disjoint, aligned and fit one page, so new rejects no such size for its length |
| Virtqueue.DriverArraysApartIff | kernel/src/drivers/virtio/queue.rs:101-111 | the 128-element arrays the driver really writes lie apart if and only if the queue has 128 descriptors |
| Virtqueue.RingSlotAgrees | kernel/src/drivers/virtio/queue.rs:206-230 | the ring index modulo 128 agrees with the index modulo the queue size if and only if the size is 128 |
| Virtqueue.RingPush | kernel/src/drivers/virtio/queue.rs:205-212 | pushing into a ring with room overwrites no entry still outstanding, across the wrap of the index |
| Virtqueue.WindowHasRoom | kernel/src/drivers/virtio/queue.rs:205-212 | a head not yet offered always finds room: the outstanding entries are different heads below 128 |
| Virtqueue.SubmitChains | kernel/src/drivers/virtio/queue.rs:165-201 | a chain of held descriptors joins the partition of 0..127 into free, held and chained |
| Virtqueue.ReleaseChains | kernel/src/drivers/virtio/queue.rs:235-247 | releasing a chain frees exactly its descriptors and keeps the partition |
| Virtqueue.OthersStayLinked | kernel/src/drivers/virtio/queue.rs:183-201 | writing a new chain leaves every other chain linked in the table |
| Virtqueue.Queue.constructor | kernel/src/drivers/virtio/queue.rs:89-132 | for a queue of 128: all descriptors free, empty rings |
| Virtqueue.Queue.AllocDesc | kernel/src/drivers/virtio/queue.rs:134-142 | the lowest free descriptor becomes held; None exactly when none is free |
| Virtqueue.Queue.FreeDesc | kernel/src/drivers/virtio/queue.rs:144-148 | a held descriptor becomes free |
| Virtqueue.Queue.AddBuf | kernel/src/drivers/virtio/queue.rs:150-218 | which of the errors occurs, exactly; an error gives back all descriptors; success writes a chain that describes the buffers and publishes its head |
| Virtqueue.Queue.Publish | kernel/src/drivers/virtio/queue.rs:203-215 | the head becomes the next submitted one and the whole queue invariant holds again |
| Virtqueue.Queue.DeviceFetch | kernel/src/drivers/virtio/queue.rs:203-215 | a device reading the ring sees the submitted heads in order |
| Virtqueue.Queue.DeviceComplete | kernel/src/drivers/virtio/queue.rs:220-233 | a completion of a fetched head is the next used entry |
| Virtqueue.Queue.FreeChain | kernel/src/drivers/virtio/queue.rs:235-247 | the chain walk ends and frees exactly the chain |
| Virtqueue.Queue.GetUsed | kernel/src/drivers/virtio/queue.rs:220-251 | returns the completions in order and frees exactly the completed chain |
| RwLock.ReadStepKeepsInv | kernel/src/sync/mod.rs:136-188 | every step of a reader, the late back-off included, keeps the reader count and exclusion |
| RwLock.WriteStepKeepsInv | kernel/src/sync/mod.rs:156-204 | every step of a writer keeps them |
| RwLock.RunKeepsInv | kernel/src/sync/mod.rs:136-204 | so does every interleaving of any number of threads |
| RwLock.Exclusion | kernel/src/sync/mod.rs:136-204 | a write guard never coexists with a read guard or another write guard |
| RwLock.ReadGuardIsStable | kernel/src/sync/mod.rs:136-188 | while a read guard is kept the data does not change |
| RwLock.QuiescentIsFresh | kernel/src/sync/mod.rs:136-204 | when all threads are idle the lock is in its initial state |
| RwLock.SomeoneCanMove | kernel/src/sync/mod.rs:136-204 | the lock cannot hang: in every reachable state with a thread inside a call or holding a guard, such a thread has a step that changes the state |
| RwLock.OnlyGuardsReturn | kernel/src/sync/mod.rs:136-204 | a call comes back only with a guard, taken at its last check, and only a write guard changes the data |
| Barrier.RunKeepsInv | kernel/src/sync/mod.rs:426-440 | the barrier invariant holds in every run, over any number of rounds |
| Barrier.NoEarlyLeave | kernel/src/sync/mod.rs:426-440 | nobody has left more rounds than anybody else has arrived at |
| Barrier.RoundsStayTogether | kernel/src/sync/mod.rs:426-440 | no thread is more than one arrival ahead of another |
| Barrier.CountIsArrivals | kernel/src/sync/mod.rs:426-440 | the counter is the number of arrivals of the current round, or 0 while the generation is advanced |
| Barrier.NoArrivalWhileClosing | kernel/src/sync/mod.rs:433-436 | nobody can arrive between the last arrival and the new generation, so the reset loses none |
| Barrier.SomeoneCanMove | kernel/src/sync/mod.rs:426-440 | in every reachable state some thread has a step that changes the state |
| Barrier.WaiterLeavesIff | kernel/src/sync/mod.rs:434-439 | a waiting thread returns with its next step if its round was closed, although the generation wraps, and stays if not |
| Once.RunKeepsInv | kernel/src/sync/mod.rs:460-479 | the flag tells how far the one initialisation is, in every run |
| Once.OnceAndDone | kernel/src/sync/mod.rs:460-479 | the function is called at most once, and whoever returned finds it called and ended |
| FrameAllocator.Bitmap.Initialize | kernel/src/memory/frame.rs:49-82 | after init a frame is free exactly when it is usable in the memory map and not below 1 MiB; the used count is the usable frames below 1 MiB, the total ends at the highest usable address |
| FrameAllocator.RegionFrames | kernel/src/memory/frame.rs:60-63 | for a region that starts at a frame, the frames freed are those that lie wholly in it |
| FrameAllocator.FreedInsideIff | kernel/src/memory/frame.rs:60-63 | all frames freed lie wholly in the region if and only if it starts at a frame or none is freed |
| FrameAllocator.HalfOutside | kernel/src/memory/frame.rs:60-63 | a page of memory from 0x1800 frees frame 1, half of which lies outside |
| FrameAllocator.UsableBelowCounts | kernel/src/memory/frame.rs:78-81 | the count of low frames taken is the number of usable ones |
| FrameAllocator.Bitmap.FreeRegion | kernel/src/memory/frame.rs:57-67 | frees exactly the frames of one region |
| FrameAllocator.Bitmap.ReserveLow | kernel/src/memory/frame.rs:78-81 | takes back the first 256 frames and counts those that were free |
| FrameAllocator.Bitmap.FreeFrameInitial | kernel/src/memory/frame.rs:170-181 | clears that bit only |
| FrameAllocator.Bitmap.AllocateFrameAt | kernel/src/memory/frame.rs:137-150 | sets that bit only and counts it only if it was clear |
| FrameAllocator.Bitmap.Deallocate | kernel/src/memory/frame.rs:153-167 | clears that bit only and uncounts it only if it was set |
| FrameAllocator.Bitmap.TakeFromWord | kernel/src/memory/frame.rs:91-124 | the exchange loop takes the lowest clear bit after any number of spurious failures |
| FrameAllocator.Bitmap.Allocate | kernel/src/memory/frame.rs:85-134 | terminates through its wrap-around; None exactly when every bit is set; otherwise takes a free frame of the first open word from the search position |
| FrameRace.RunKeeps | kernel/src/memory/frame.rs:85-167 | in every interleaving owners and bits agree, and bits minus counter minus pending updates is constant |
| FrameRace.NoDoubleAllocation | kernel/src/memory/frame.rs:85-167 | a frame a thread is about to return has no other owner |
| FrameRace.CounterMatchesBits | kernel/src/memory/frame.rs:85-167 | when no update is pending the counter moved as much as the number of set bits |
| FrameRace.ExchangeTakesFree | kernel/src/memory/frame.rs:95-121 | a successful exchange took a frame whose bit was clear |
| FrameRace.OwedMove | kernel/src/memory/frame.rs:106-112 | a thread step changes the pending updates by what the thread owes |
| SlabPages.Totals | kernel/src/memory/slab.rs:55-66 | objects per slab for each size class: 126 down to 1 for 2048 bytes and none for 4096 |
| SlabPages.ObjectPlace | kernel/src/memory/slab.rs:57-92 | every object is aligned to its size, behind the header and inside its page |
| SlabPages.ObjectsDisjoint | kernel/src/memory/slab.rs:57-92 | different objects share no byte, across all slabs of the class |
| SlabPages.PopKeeps | kernel/src/memory/slab.rs:99-118 | taking the head of the embedded list keeps free-list length plus count equal to the total |
| SlabPages.PushKeeps | kernel/src/memory/slab.rs:121-137 | so does putting back an object that is not free |
| SlabCache.LiveApart | kernel/src/memory/slab.rs:181-218 | live objects are aligned, placed and pairwise disjoint |
| SlabCache.TakeKeeps | kernel/src/memory/slab.rs:99-118 | an object taken from a slab was not live, is live now, and no other object changes |
| SlabCache.GiveKeeps | kernel/src/memory/slab.rs:121-137 | freeing makes exactly that object not live |
| SlabCache.StoreKeeps | kernel/src/memory/slab.rs:99-137 | whatever a client stores anywhere inside a live object, the free lists survive |
| SlabCache.RelinkChains | kernel/src/memory/slab.rs:253-314 | moving a slab between the linked lists leaves both lists linked and every slab otherwise unchanged |
| SlabCache.ToFullKeeps | kernel/src/memory/slab.rs:253-282 | moving a full slab to the full list keeps the cache invariant and the live objects |
| SlabCache.ToPartialKeeps | kernel/src/memory/slab.rs:285-314 | moving the one slab that got room back keeps them |
| SlabCache.DownIsAll | kernel/src/memory/slab.rs:81-92 | the initial free list holds every object of the page once |
| SlabCache.NewKeeps | kernel/src/memory/slab.rs:63-96 | adding a new slab keeps the invariant and the live objects |
| SlabCache.SizeClassCache.NewSlab | kernel/src/memory/slab.rs:50-96 | fails exactly when no object fits; otherwise the page is the first partial slab with all objects free |
| SlabCache.SizeClassCache.TakeObject | kernel/src/memory/slab.rs:99-118 | the embedded pop realises the step; None exactly when the slab is full |
| SlabCache.SizeClassCache.Unhook | kernel/src/memory/slab.rs:254-268 | the search with prev and current takes the slab out of its linked list |
| SlabCache.SizeClassCache.MoveToFull | kernel/src/memory/slab.rs:253-282 | keeps the invariant, the slabs and the live objects |
| SlabCache.SizeClassCache.MoveToPartial | kernel/src/memory/slab.rs:285-314 | keeps them and restores that full-list slabs are full |
| SlabCache.SizeClassCache.TakePartial | kernel/src/memory/slab.rs:183-200 | finds the first partial slab with a free object; failure means no slab has one |
| SlabCache.SizeClassCache.Alloc | kernel/src/memory/slab.rs:181-218 | the returned object is new; a slab is added exactly when no slab had a free object; None exactly when also no page or no room; a new slab stays on the partial list |
| SlabCache.SizeClassCache.Free | kernel/src/memory/slab.rs:221-250 | exactly that object stops being live; a pointer into no slab changes nothing |
| SlabCache.SizeClassCache.GiveBack | kernel/src/memory/slab.rs:121-137 | the embedded push realises the step |
| GapBuffers.GapBuffer.constructor | kernel/src/apps/editor.rs:28-39 | holds the given bytes |
| GapBuffers.GapBuffer.MoveGap | kernel/src/apps/editor.rs:50-76 | the overlapping copies move the gap and keep the content |
| GapBuffers.MovedLeft | kernel/src/apps/editor.rs:53-64 | copying the text before the gap to its end keeps what lies outside the gap |
| GapBuffers.MovedRight | kernel/src/apps/editor.rs:65-75 | copying the text after the gap to its start keeps what lies outside the gap |
| GapBuffers.GapBuffer.EnsureGap | kernel/src/apps/editor.rs:79-99 | growth keeps content and gap position and gives at least the gap asked for |
| GapBuffers.GapBuffer.Insert | kernel/src/apps/editor.rs:102-107 | inserts one byte at the position, at the end if it is beyond |
| GapBuffers.GapBuffer.InsertStr | kernel/src/apps/editor.rs:110-115 | inserts a string at the position |
| GapBuffers.GapBuffer.Delete | kernel/src/apps/editor.rs:118-124 | removes the byte at the position if there is one |
| GapBuffers.GapBuffer.DeleteRange | kernel/src/apps/editor.rs:127-134 | removes the part of the range inside the content |
| GapBuffers.GapBuffer.Get | kernel/src/apps/editor.rs:137-149 | reads the content across the gap |
| GapBuffers.GapBuffer.ToBytes | kernel/src/apps/editor.rs:152-157 | returns the content |
| Editor.InsertInLine | kernel/src/apps/editor.rs:384-390 | a byte inserted in a line is that byte inserted at the offset of the joined document |
| Editor.DeleteInLine | kernel/src/apps/editor.rs:426-433 | a byte removed from a line is that byte removed from the joined document |
| Editor.SplitLine | kernel/src/apps/editor.rs:392-407 | splitting a line inserts a newline at the offset |
| Editor.JoinLines | kernel/src/apps/editor.rs:416-423 | joining with the previous line removes the newline before the offset |
| Editor.JoinSplit | kernel/src/apps/editor.rs:232-286 | joining the split lines gives the bytes back |
| Editor.SplitJoin | kernel/src/apps/editor.rs:232-286 | splitting the joined lines gives the lines back |
| Editor.LoadLines | kernel/src/apps/editor.rs:234-251 | the loading loop builds the split of the file |
| Editor.Editor.Load | kernel/src/apps/editor.rs:232-263 | the document is the file and the cursor its start; a missing file leaves one empty line and the old cursor, which is valid exactly if it was the origin |
| Editor.Editor.ToBytes | kernel/src/apps/editor.rs:272-278 | the saving loop produces exactly the document, so load then save gives the same bytes |
| Editor.Editor.Save | kernel/src/apps/editor.rs:266-286 | hands the document to the file system exactly when a file name is set, and clears the modified mark exactly on success |
| Editor.Editor.InsertChar | kernel/src/apps/editor.rs:384-390 | inserts the byte at the cursor offset and moves the cursor behind it; the lines stay the split of the document exactly if it is no newline |
| Editor.Editor.InsertNewline | kernel/src/apps/editor.rs:392-407 | inserts a newline at the cursor offset and moves behind it |
| Editor.Editor.Backspace | kernel/src/apps/editor.rs:409-424 | removes the byte before the cursor, a newline included; nothing at the start |
| Editor.Editor.DeleteChar | kernel/src/apps/editor.rs:426-433 | removes the byte at the cursor unless it is a newline or the end |
| Editor.Editor.MoveLeft | kernel/src/apps/editor.rs:351-353 | keeps the cursor valid and steps back one byte within the line |
| Editor.Editor.MoveRight | kernel/src/apps/editor.rs:355-360 | keeps the cursor valid and steps on within the line |
| Editor.Editor.MoveUp | kernel/src/apps/editor.rs:362-367 | one line up, the column clamped to the length of that line; in the first line nothing moves |
| Editor.Editor.MoveDown | kernel/src/apps/editor.rs:369-374 | one line down, the column clamped to the length of that line; in the last line nothing moves |
| BlockCache.InsertedView | kernel/src/fs/psychicfs.rs:334-363 | an insertion changes no other block if and only if the evicted entry was saved |
| BlockCache.InsertedInv | kernel/src/fs/psychicfs.rs:334-363 | at most one live entry per block, and clean entries equal the disk, after every insertion |
| BlockCache.HitView | kernel/src/fs/psychicfs.rs:291-331 | a hit shows the entry and changes no other block |
| BlockCache.WriteRefines | kernel/src/fs/psychicfs.rs:316-331 | the block reads as written if and only if its access count did not wrap or the disk held the data; other blocks change only by an unsaved eviction |
| BlockCache.ReadRefines | kernel/src/fs/psychicfs.rs:291-313 | a hit changes its block if and only if the count wraps and the disk lacks the data, and no other; a miss with a saved victim changes none |
| BlockCache.WrapView | kernel/src/fs/psychicfs.rs:291-331 | a wrapping access makes the block fall back to the disk and changes no other |
| BlockCache.EvictionLosesWrite | kernel/src/fs/psychicfs.rs:334-363 | a full cache of unsaved writes in which a failed write-back loses one |
| BlockCache.FlushKeepsView | kernel/src/fs/psychicfs.rs:366-378 | flushing an entry changes no block |
| BlockCache.CleanIsDisk | kernel/src/fs/psychicfs.rs:366-378 | without dirty entries the raw disk is what readers see |
| BlockCache.WrapLosesWrite | kernel/src/fs/psychicfs.rs:291-313 | a run from an empty cache, one write and reads up to the counter limit, after which one more read loses the write |
| BlockCache.StepRefines | kernel/src/fs/psychicfs.rs:291-378 | one read, write or flush of the cache is one on a plain disk |
| BlockCache.FlushedKeeps | kernel/src/fs/psychicfs.rs:366-378 | flushing slot by slot changes no block and leaves the slots clean |
| BlockCache.FlushStepShowsDisk | kernel/src/fs/psychicfs.rs:366-378 | after a flush the raw disk is the plain disk |
| BlockCache.RunRefines | kernel/src/fs/psychicfs.rs:291-378 | so is every run of them with successful disk operations and no counter wrap |
| BlockCache.Cache.Victim | kernel/src/fs/psychicfs.rs:335-347 | picks an empty slot, else one with the oldest access |
| BlockCache.Cache.Insert | kernel/src/fs/psychicfs.rs:334-363 | evicts and fills one slot |
| BlockCache.Cache.CachedRead | kernel/src/fs/psychicfs.rs:291-313 | returns the logical contents of the block, with the exact effect of a hit and of a miss on every block |
| BlockCache.Cache.CachedWrite | kernel/src/fs/psychicfs.rs:316-331 | the block reads as written unless its count wrapped and the disk differs; other blocks keep their contents on a hit or a saved eviction |
| BlockCache.Cache.FlushCache | kernel/src/fs/psychicfs.rs:366-378 | true exactly when every dirty entry was written; then the raw disk is the logical contents |
| Extents.TileCovers | kernel/src/fs/psychicfs.rs:55-70 | in a tiled inode an extent covers exactly its own stretch of logical blocks |
| Extents.LookupIsIndex | kernel/src/fs/psychicfs.rs:148-157 | the search indexes the concatenation of the runs, and fails exactly past its end |
| Extents.ExtendLast | kernel/src/fs/psychicfs.rs:176-186 | lengthening the last extent appends the run to the tiling |
| Extents.AppendExtent | kernel/src/fs/psychicfs.rs:188-200 | a run in the first unused slot extends the tiling without gap or overlap |
| Extents.Inode.GetPhysicalBlock | kernel/src/fs/psychicfs.rs:148-157 | the loop over the extents is that index |
| Extents.Inode.AddExtent | kernel/src/fs/psychicfs.rs:160-204 | an accepted run is appended to the blocks and the tiling stays; refused exactly when all slots are used and the run does not continue the last |
| Extents.Inode.ClearExtents | kernel/src/fs/psychicfs.rs:207-214 | no blocks |
| BlockSearch.FindContiguous | kernel/src/fs/psychicfs.rs:877-926 | the one-pass scan finds the lowest run of free blocks, or none exactly if there is none |
| BlockSearch.FreeAllIs | kernel/src/fs/psychicfs.rs:811-844 | freeing the extents of a file makes exactly its data blocks free |
| BlockSearch.SearchRepeats | kernel/src/fs/psychicfs.rs:929-945 | after a run was reserved the same search returns the same run if and only if it has at most 128 blocks or starts at or above 8192 |
| BlockSearch.TakenLength | kernel/src/fs/psychicfs.rs:988-1024 | the layout has the blocks needed, all in the data area |
| BlockSearch.TakenIff | kernel/src/fs/psychicfs.rs:988-1024 | a layout exists if and only if some block is free |
| BlockSearch.NextRunStep | kernel/src/fs/psychicfs.rs:990-1023 | the run taken next, its place, and that a single block is never continued |
| BlockSearch.TakenDistinct | kernel/src/fs/psychicfs.rs:988-1024 | the blocks of a file differ if and only if one run, or the first free block and one run elsewhere, can hold it; otherwise its first two blocks coincide |
| BlockSearch.SmallFilesCoincide | kernel/src/fs/psychicfs.rs:877-945 | on every disk the file system wrote itself, any file of at most 128 blocks gets the first data blocks, whatever other files there are |
| BlockSearch.ReservedKeepsLow | kernel/src/fs/psychicfs.rs:929-945 | reserving a layout never sets the bits of the first 128 data blocks |
| BlockSearch.FirstFile | kernel/src/fs/psychicfs.rs:929-1024 | on an empty disk the first file is one run from the first data block, and what it reserves is that run numbered from block 0 |
| BlockSearch.SecondFileApartIff | kernel/src/fs/psychicfs.rs:877-945 | on an empty disk the second file keeps clear of the first if and only if it is longer than 128 blocks and fits in one run behind the bits the first one set |
| BlockSearch.RepeatedBlock | kernel/src/fs/psychicfs.rs:988-1024 | on a formatted disk: a file of 8064 blocks, then one of 129 blocks that gets the first data block twice |
| FileData.WriteAllHolds | kernel/src/fs/psychicfs.rs:1028-1047 | a block holds the last chunk written to it |
| FileData.ReadBackIff | kernel/src/fs/psychicfs.rs:947-1094 | what was written is read back if and only if logical blocks that share a physical one hold the same sector |
| FileData.WriteStores | kernel/src/fs/psychicfs.rs:1028-1061 | a completed write stores the data as stated for FsWrite |
| FileData.OtherFileKept | kernel/src/fs/psychicfs.rs:1028-1047 | a file that has none of the written blocks keeps its contents |
| FileData.SecondFileShows | kernel/src/fs/psychicfs.rs:947-1094 | after two writes of at most 128 blocks each, the first file reads as the second as far as that one reaches |
| FileData.FirstFileKept | kernel/src/fs/psychicfs.rs:947-1094 | a second file whose layout is apart from that of the first leaves the contents of the first alone |
| FileData.WriteTwo | kernel/src/fs/psychicfs.rs:947-1061 | two new files written with FsWrite: the first is still read back if its blocks differ and the layouts are apart; on a disk the file system wrote itself, with at most 128 blocks each, the first reads as the second |
| FileData.StripedLost | kernel/src/fs/psychicfs.rs:947-1094 | 129 blocks stored on a disk that a file of 8064 blocks fills are not what was written |
| FileData.FillThenWrite | kernel/src/fs/psychicfs.rs:947-1061 | those two writes with FsWrite on a formatted disk: both succeed, and the second file is not read back |
| FileData.FileSystem.FreeExtents | kernel/src/fs/psychicfs.rs:979-985 | clears the bits of the old blocks, as FreeAllIs describes |
| FileData.FileSystem.AllocateContiguous | kernel/src/fs/psychicfs.rs:929-945 | sets the bits numbered like the blocks |
| FileData.FileSystem.AllocateBlocks | kernel/src/fs/psychicfs.rs:988-1024 | succeeds if and only if there is a layout of at most four runs, and then the inode holds its blocks in order and the bitmap is the one with exactly the runs of the layout reserved; bits of the first 128 data blocks stay clear |
| FileData.FileSystem.WriteBlocks | kernel/src/fs/psychicfs.rs:1028-1047 | every chunk goes to its block; false exactly when the disk fails |
| FileData.FileSystem.ReplaceContents | kernel/src/fs/psychicfs.rs:968-1061 | the part of FsWrite for an existing inode, with its exact success condition, the blocks it looks up afterwards and the bitmap it leaves |
| FileData.FileSystem.FsWrite | kernel/src/fs/psychicfs.rs:947-1061 | exactly when it succeeds; then logical block l is block l of the layout, the bitmap has the runs of the layout reserved, and the data is read back if and only if shared blocks agree, always for one contiguous run; no other block changes, and no file that has none of the chosen blocks; a failure keeps every existing inode |
| FileData.FileSystem.PlaceData | kernel/src/fs/psychicfs.rs:988-1047 | allocation and writing succeed exactly when a layout exists and the disk accepts all sectors; then logical block l is block l of the layout and the bitmap is the reserved one |
| FileData.FileSystem.FsRead | kernel/src/fs/psychicfs.rs:1063-1094 | returns the bytes the extents and the disk define |
| Paths.NormalizePath | kernel/src/fs/vfs.rs:588-613 | the stack loop computes the normal form, whose components follow the four laws below |
| Paths.AppendName | kernel/src/fs/vfs.rs:594-601 | a slash and a name append that name to the components of any path |
| Paths.AppendParent | kernel/src/fs/vfs.rs:598-598 | a slash and two dots take the last component away, and stay at the root |
| Paths.AppendNothing | kernel/src/fs/vfs.rs:597-597 | a slash and one dot, or a slash alone, change no component |
| Paths.LeadingSlash | kernel/src/fs/vfs.rs:594-601 | a leading slash changes no component |
| Paths.NormalizeIdempotent | kernel/src/fs/vfs.rs:588-613 | a normal form is its own normal form and has the components of the path |
| Paths.ComponentsOfRender | kernel/src/fs/vfs.rs:588-613 | splitting a rendered path gives its components back |
| Paths.UnderIsPrefix | kernel/src/fs/vfs.rs:368-369 | on normal forms the string test is the prefix test on components, except that the root matches only itself |
| Vfs.FirstIsLongest | kernel/src/fs/vfs.rs:306-327 | the first match in order of path length has the most components |
| Vfs.ResolveIsLongest | kernel/src/fs/vfs.rs:351-398 | resolution is longest-component-prefix resolution, and fails exactly when no mount is above the path |
| Vfs.TargetRebuildsPath | kernel/src/fs/vfs.rs:368-395 | mount path and relative path name the resolved path, letter for letter exactly when the mount is neither the root nor the path |
| Vfs.InsertedSorted | kernel/src/fs/vfs.rs:321-324 | adding a mount keeps mounts different and sorted by length |
| Vfs.StaleIff | kernel/src/fs/vfs.rs:334-348 | keeping the cache while a mount goes is right if and only if no cached path was resolved to it |
| Vfs.FailedUnmountIsStale | kernel/src/fs/vfs.rs:339-341 | an unmount whose driver fails and which leaves a wrong cache entry |
| Vfs.VfsManager.MountAt | kernel/src/fs/vfs.rs:306-331 | succeeds exactly for a new path and a willing driver, and clears the cache |
| Vfs.VfsManager.Unmount | kernel/src/fs/vfs.rs:334-348 | removes the mount even if the driver fails; then the cache stays right exactly under the condition of StaleIff |
| Vfs.VfsManager.CacheInsert | kernel/src/fs/vfs.rs:401-418 | the recent list stays free of duplicates, equal to the cached keys and at most 256 long; the oldest entry goes |
| Vfs.VfsManager.ResolvePath | kernel/src/fs/vfs.rs:351-398 | the cached answer is the uncached one |
| RunQueues.LowestBit | kernel/src/process/scheduler.rs:131-135 | without high bits the lowest set bit is the first class with a bit |
| RunQueues.RemovedIs | kernel/src/process/scheduler.rs:58-63 | removal takes out exactly that process and keeps the queue free of duplicates |
| RunQueues.RemovedInOrder | kernel/src/process/scheduler.rs:58-63 | the other processes keep their order |
| RunQueues.CpuScheduler.Enqueue | kernel/src/process/scheduler.rs:108-112 | bits stay set exactly for non-empty queues, queues stay free of duplicates |
| RunQueues.CpuScheduler.Dequeue | kernel/src/process/scheduler.rs:115-122 | the process leaves all queues and the same holds |
| RunQueues.CpuScheduler.PickNext | kernel/src/process/scheduler.rs:125-154 | the bitmap search equals the linear search for the best class; Dream only when idle |
| RunQueues.CpuScheduler.TotalLoad | kernel/src/process/scheduler.rs:157-159 | the sum of the queue lengths |
| Dispatch.Scheduler.Schedule | kernel/src/process/scheduler.rs:225-286 | one tick is the transition that the lemmas below describe in terms of the queues and the table; the queue invariant is kept |
| Dispatch.TickKeepsProcesses | kernel/src/process/scheduler.rs:225-286 | a tick loses no known process that was queued or able to run |
| Dispatch.TimeLeft | kernel/src/process/scheduler.rs:229-246 | a running process with time left goes on and only its slice changes |
| Dispatch.DispatchesIff | kernel/src/process/scheduler.rs:225-270 | a context switch happens if and only if the time is up, the best class that wants to run may, and the first in its line is in the table |
| Dispatch.DispatchIs | kernel/src/process/scheduler.rs:248-270 | it takes the first in line of the best class that wants to run, with the slice of that process; every other line, with the current process at the end of its own class, stays as it is |
| Dispatch.NoDreamWhileOthersWait | kernel/src/process/scheduler.rs:125-154 | while a process of another class is queued, no Dream process is dispatched |
| Dispatch.PreemptedWaits | kernel/src/process/scheduler.rs:248-256 | a preempted process waits at the end of the queue of its own class |
| Dispatch.DreamWaitsForOthers | kernel/src/process/scheduler.rs:125-154 | while another class is queued a dispatch takes the head of the best such class and leaves the Dream queue alone |
| Dispatch.DreamDispatched | kernel/src/process/scheduler.rs:225-286 | with only Dream processes the first one is dispatched at an exactly known tick, at most the 103rd, and nothing before |
| LoadBalance.MovedKeepsPairs | kernel/src/process/scheduler.rs:364-394 | moving a process to another CPU keeps the queued pairs of process and class |
| LoadBalance.Machine.LeastLoaded | kernel/src/process/scheduler.rs:370-385 | the least loaded CPU other than the given one |
| LoadBalance.Machine.MoveOne | kernel/src/process/scheduler.rs:364-394 | the head of the class goes to the least loaded other CPU |
| LoadBalance.Machine.Drain | kernel/src/process/scheduler.rs:358-397 | an overloaded CPU is emptied, because its load is not recomputed; the others only gain |
| LoadBalance.Machine.BalanceLoad | kernel/src/process/scheduler.rs:332-399 | terminates and keeps the queued pairs; does nothing without an overloaded CPU and otherwise leaves some CPU with nothing |
| LoadBalance.ThreeAndNoneOverloaded | kernel/src/process/scheduler.rs:338-358 | two CPUs with three processes and none: the first counts as overloaded |
| LoadBalance.TwoCpusOneSided | kernel/src/process/scheduler.rs:332-399 | of two CPUs the other one then has everything |
| Checksum.FoldIsResidue | kernel/src/network/ip.rs:171-174 | adding a word with the carry folded in is addition modulo 65535 that is 0 only for sum 0, at most 0xFFFF |
| Checksum.CalculateChecksum | kernel/src/network/ip.rs:159-177 | the loop computes the complement of that residue of the plain sum, odd lengths included |
| Checksum.AppendWord | kernel/src/network/ip.rs:162-169 | two more bytes add one word, the first byte high |
| Checksum.OddByteIsPadded | kernel/src/network/ip.rs:163-167 | a last single byte counts as if a zero byte followed |
| Checksum.ZeroCheckIff | kernel/src/network/ip.rs:159-177 | the checksum is 0 exactly for a positive sum divisible by 65535 |
| Checksum.PatchedChecks | kernel/src/network/ip.rs:148-151 | data with its checksum written at an even offset checks to 0 |
| Ipv4.ToBytes | kernel/src/network/ip.rs:131-157 | the emitted header checks to 0 and the payload follows |
| Ipv4.ParsedFormat | kernel/src/network/ip.rs:77-110 | parse reads the header fields at the places of section 3.1 of RFC 791 and refuses exactly what is too short or not of version 4 |
| Ipv4.EmittedFormat | kernel/src/network/ip.rs:131-157 | to_bytes writes the fields that fit at these places |
| Ipv4.RoundTripIff | kernel/src/network/ip.rs:77-157 | parse undoes to_bytes up to the checksum if and only if all fields fit and the header has no options |
| Ipv4.OptionsLosePayload | kernel/src/network/ip.rs:77-157 | a packet with ihl 6 that is parsed back without its first four payload bytes |
| Ipv4.ParsedFits | kernel/src/network/ip.rs:77-110 | a parsed packet has fields that fit and its payload starts after ihl words |
| Checksum.EchoReply | kernel/src/network/mod.rs:148-168 | answered exactly for an echo request of 8 bytes or more; same bytes but type and checksum; checks to 0 |

## Left out

- Inline assembly, TLB flushes, MSRs, port and device access, start-up of CPUs, context switches: no visible semantics here.
- Huge pages: `map` and `translate` do not look at the huge bit, and the model has no huge entries.
- Memory order weaker than sequential consistency in `RwLock`, `Barrier`, `Once` and the frame allocator.
- The link between the frame bitmap and the page tables: paging takes frames from a supply of unused ones.
- ELF header parsing and the table of program headers: the loader starts from a list of headers; kernel stacks and the process record are not modelled.
- ElfLoader.LoadSegments: requires segments in the lower half without address overflow; the loader itself does not test this.
- Mmio.MapMmio: requires that the range ends within the 52-bit physical and 64-bit virtual address space, where the source would wrap.
- Virtqueue.Queue.constructor: a queue of 128; new returns an error exactly for sizes that are no power of two or above 128.
- Virtqueue.Queue.AddBuf: queue size 128 only, the size at which ring slots agree.
- Inode and superblock bytes on disk, file names with embedded NUL, `free_blocks` statistics, prefetch prediction, `fs_delete`: inodes are records kept by name.
- Vfs.VfsManager.MountAt: file system ids are unbounded where the source's counter wraps at 2^64; the library sort is modelled as stable insertion into a sorted list.
- The VFS operations above `resolve_path` (open, read, write, stat), which pass their result on to a driver.
- `add_to_scheduler` with affinity, `yield_cpu`, `set_priority`, and the write-only `active` flag and statistics of the scheduler.
- SlabCache.SizeClassCache.Alloc: one caller at a time; the lock-free retries of the slab free list are not interleaved.
- SlabCache.SizeClassCache.Free: a caller frees live objects or pointers into no slab, as the unsafe function demands.
- `SlabAllocator` size-class lookup and `Semaphore`, `Condvar`, `IrqSpinlock`: easy members or dependent on timing.
- Editor key and command dispatch, including the `G` and `g` keys, which do not clamp the column.
- TCP, ARP, UDP, GUI, shells, IPC, security scores, reality branching.
