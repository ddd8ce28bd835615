# A verified model of WalnutOS

WalnutOS is a small 32-bit kernel. This project models six of its components in Dafny and proves what each of
them is for, over all inputs, all runs and all interleavings:

* the **buddy allocator** (`Sizes`, `BuddyArena`, `BuddyTheorems`, `BuddyCells`, `BuddyRefinement`,
  `BuddyAllocator`, `BuddyDoubleFree`). `Arena` is a region cut into power-of-two blocks, some live and some listed; the theorems about
  runs are proved on it. `Cells` is how the kernel stores it: list heads and page records with links and a packed
  byte. The class `Allocator` is the code over arrays, and each of its methods is proved to be one step on the arena;
* the **AHCI command slots** (`AhciProtocol`, `AhciSteps`, `AhciTheorems`, `AhciErrors`, `AhciDriver`, `AhciRefinement`):
  callers, interrupt handler and device as a step relation with one step for each register access, what becomes of a
  device error, the driver's own words and pointers as a class, and the agreement of the two;
* the **WNFS storage stack** (`DiskLayout`, `DiskSteps`, `FileWrites`, `FileCreation`, `BlockAllocation`,
  `BlockSearch`, `WriteStages`, `BufferCache`, `CacheRuns`, `Refusals`, `Wnfs`, `Vfs`, `Sessions`): a disk whose transfers may be
  refused and which keeps the history of its contents, the write-back sector cache, the file operations over it,
  file handles, and whole runs of many handles over one file system. While no write has been refused the theorems are about contents; after one, the disk and what readers
  see may differ, and the theorems say that every mixture of the two is still a consistent disk;
* the **page tables** (`PageEntries`, `PageMap`, `PageTables`), whose tables come from the modelled allocator;
* the **circular buffer** (`CircularBuffer`) and the **decimal printer and parser** (`Decimal`).

`Bits` and `Options` hold what these share. The number of pages, lists, slots and ring places is a parameter. Masks are
natural numbers with explicit bitwise operators, cut to the width of the variable where the code cuts them; 32-bit
wrap-around is written out.

## Where the code falls short

In several places the code does not do what its surroundings rely on. There the operations below use the evident
intent, the changed line carries a comment that starts with `Repaired:`, and the code as it stands is kept as a function
or predicate of its own, with a lemma that says exactly when it is right or an input for which it is wrong.

| place | as written | right exactly when |
|---|---|---|
| `src/kernel/alloc.cc:144` | popping clears `next` of the new head, not `prev` | the list had one element (`PopAsWritten`) |
| `src/kernel/alloc.cc:176-186` | removal leaves the successor pointing back | the block is the last of its list (`RemoveAsWritten`) |
| `src/kernel/alloc.cc:201-210` | the buddy's order is not compared | the orders are equal (`MergeAsWritten`; a run of four calls leads to the bad merge) |
| `src/kernel/alloc.cc:52` | the list index is compared with the number of blocks | the index is a list, or rejected: the size is at most 1 MiB or above 2 GiB (`BoundAsWritten`) |
| `src/kernel/alloc.hh:29-32` | nine lists for 64 pages: kalloc can give away a block that reaches past the last page | the size is at most the region's 256 KiB (`Kalloc`, `AllocateInside`); larger sizes are rejected only above 1 MiB with the repaired comparison, above 2 GiB as written (`BoundOfRegion`; `AllocatePastRegion` is an input) |
| `src/kernel/alloc.cc:106-129` | the record of a freed block that was merged into its lower buddy keeps a clear flag, so a second free of it passes the assertions | the block starts the one it was merged into (`Kfree`, `SecondFree`); otherwise the page can be given away twice (`ListedTwice` and `FreedTwice` are an input) |
| `src/klib/ahci/ahci.cc:20-24` | PxIS is cleared after the error bits were read, so an error that arrives in between is erased and its callers poll on | the error does not arrive there (`SignalAttended`, `ErrorServed`, `ErrorErased`; `LostError` is an input) |
| `src/wnfs/wnfs.cc:298-301` | a write behind the end of the file raises the size over bytes that nobody wrote | the position is at most the size (`GrownFile`; `UnwrittenShows`), as it is for every handle, whose cursor is never behind the end (`FileHandle.Write`) |
| `src/wnfs/wnfs.cc:366-370` | marking starts at bit 0 of the byte | the run starts at bit 0 (`MarkAsWritten`, `SameBlockTwice`) |
| `src/wnfs/wnfs.cc:337-345` | a zero byte counts 16, a broken run is carried on | at most two sectors are asked for, as the kernel does, or more than 8184, which it never finds (`SearchSafeExactly`) |
| `src/wnfs/wnfs.cc:337-343` | a byte that cannot continue a run is not looked at for one of its own | a run of two is found if and only if there is a hit (`SearchOfTwo`; `MissedRun` is an input) |
| `src/wnfs/wnfs.cc:216-218` | the byte count of a read | see `CountAsWritten` |
| `src/wnfs/wnfs.cc:190`, `src/wnfs/wnfs.cc:248` | block 9 passes the guard | the position is outside bytes 4608 to 5119 (`GuardAsWritten`) |
| `src/klib/circular_buffer.hh:66` | the write end is not wrapped | not (read end 0 and write end at the last place) (`FullAsWrittenRight`, `PushAsWrittenLoses`) |

Erased errors, writes behind the end, missed runs and blocks past the region are kept as they are, with these conditions; the
second of two frees of a block is outside what `Kfree` requires, unless it halts. Nine lists over 64 pages are modelled as a parameter: `m` for the
pages, the number of lists separately; a block of an order above `m` is cut off at the end of the region.

`src/klib/console.cc:47-50` scrolls the page but leaves the cursor below it; a numeral is printed right exactly when it
ends on the page, and the cursor is then on the page exactly when the cell behind it is (`PutNumber`).

Four more are modelled as they are, with their exact conditions: releasing a buffer flips its free bit, so it is right
only while the buffer has one reference (`src/wnfs/cache.hh:115`, `GrabTwice`); so is acknowledging a slot, only while it is
outstanding (`src/klib/ahci/ahci.cc:363`, `Driver.Acknowledge`); the outstanding mask has 16 bits
(`src/klib/ahci/ahci.hh:167`, `IssueMaskBits`); the parser misses some overflows (`src/klib/strings.hh:55-58`, `ParseRight`).
The page-table code masks addresses with 256-byte, not 4-KiB, granularity (`src/klib/pagetables.hh:46-48`, `MapAnywhere`).
Block 0 starts in the last list with stored order 0 (`src/kernel/alloc.cc:24-30`); that is kept and shown harmless.

## Model

| member | source | states |
|---|---|---|
| Sizes.RoundUpPow2 | src/kernel/alloc.cc:242-251 | the bit smearing gives the power of two whose exponent is the width of `num - 1`; zero and anything above 2^31 wrap to zero |
| Sizes.RoundedIsLeast | src/kernel/alloc.cc:242-251 | that power is at least `num` and the least such |
| Sizes.Log2 | src/kernel/alloc.cc:253-260 | the byte counter that starts at 255 ends at the exponent of the highest bit; zero gives 255 |
| Sizes.ListIndexLeast | src/kernel/alloc.cc:42-49 | a block of order `k` holds `size` bytes if and only if `k` is at or above the list index |
| Sizes.BoundAsWritten | src/kernel/alloc.cc:49-54 | with the comparison as written, the index is rejected or a valid list if and only if the size is at most 1 MiB or above 2 GiB |
| Sizes.IndexInRegion | src/kernel/alloc.cc:42-49 | the index is an order of a region of 2^m pages if and only if the region could hold the size |
| Sizes.BoundOfRegion | src/kernel/alloc.hh:29-32 | on 64 pages the sizes that are neither rejected nor fit are those above 256 KiB, up to 1 MiB with the repaired comparison and up to 2 GiB as written |
| BuddyArena.AlignedIsModulus | src/kernel/alloc.cc:188-192 | halving `k` times without remainder is divisibility by 2^k |
| BuddyArena.BuddyPair | src/kernel/alloc.cc:188-199 | the buddy is never the block itself, the buddy of the buddy is the block, the smaller of the two is aligned to the next order and the larger is its upper half |
| BuddyArena.BuddyPages | src/kernel/alloc.cc:188-199 | two buddies are disjoint and together exactly their parent block |
| BuddyArena.BuddyInRegion | src/kernel/alloc.cc:194-197 | inside a region of 2^m pages the buddy is inside if and only if the order is below m |
| BuddyArena.AllocateFrom | src/kernel/alloc.cc:56-68 | the first list at or above the index that is not empty decides the allocation |
| BuddyTheorems.EveryPageOwnedOnce | src/kernel/alloc.cc:15-31 | in a tiled region every page lies in exactly one block |
| BuddyTheorems.BuddyStartsBlock | src/kernel/alloc.cc:201-210 | the buddy's first page starts a block of the same or a smaller order, so its record is meaningful |
| BuddyTheorems.SplitHolding | src/kernel/alloc.cc:75-88 | halving the held block keeps tiling, lists and coalescing |
| BuddyTheorems.MergeHolding | src/kernel/alloc.cc:114-126 | joining the held block with its free buddy leaves a held block of the next order, the other live blocks unchanged |
| BuddyTheorems.AllocateCorrect | src/kernel/alloc.cc:41-97 | allocation fails if and only if every free block is too small; otherwise the block has the requested order, is aligned, becomes live, its pages inside the region were free and are exactly what the free pages lose, and the other live blocks stay |
| BuddyTheorems.AllocateInside | src/kernel/alloc.cc:75-93 | the block lies inside the region, and was wholly free, if and only if its order is at most the region's |
| BuddyTheorems.AllocatePastRegion | src/kernel/alloc.hh:29-32 | on 64 pages and nine lists a fresh allocator gives 128 pages away |
| BuddyTheorems.AllocateCount | src/kernel/alloc.cc:75-93 | free pages drop by exactly 2^k, or to none when the block is larger than the region |
| BuddyTheorems.ReleaseCorrect | src/kernel/alloc.cc:102-130 | freeing gives back exactly the block's pages, keeps every other live block, and leaves no two free buddies of one order |
| BuddyTheorems.SecondFree | src/kernel/alloc.cc:106-109 | a second free right after the first names no live block, and names the first page of a block, which is free, if and only if the block starts the one it was merged into |
| BuddyTheorems.EveryRun | src/kernel/alloc.cc:41-130 | after any sequence of calls that free only live blocks, from the constructor's state, the region is tiled by live and listed blocks, every page in exactly one, free if and only if that block is listed |
| BuddyTheorems.NothingLive | src/kernel/alloc.cc:99-126 | with nothing live the region is one free block |
| BuddyTheorems.FreeingAllRestores | src/kernel/alloc.cc:102-130 | freeing all live blocks in any order restores the one block |
| BuddyTheorems.LiveBlocksPersist | src/kernel/alloc.cc:41-130 | a live block stays live, with its order, through any calls that free only live blocks, and not it |
| BuddyCells.PackingBytes | src/kernel/alloc.cc:221-240 | the free flag is the lowest bit of the byte, the order the seven bits above, and each store changes only its part |
| BuddyCells.PackingLaws | src/kernel/alloc.cc:221-240 | order and free flag share a byte without disturbing each other |
| BuddyCells.PopLinked | src/kernel/alloc.cc:132-153 | popping keeps every list a well-formed doubly linked chain, the popped one shorter by its head |
| BuddyCells.PushLinked | src/kernel/alloc.cc:155-174 | pushing keeps every list, the pushed one longer by the new head |
| BuddyCells.RemoveLinked | src/kernel/alloc.cc:176-186 | removal closes the gap and keeps every list |
| BuddyCells.PopAsWritten | src/kernel/alloc.cc:143-145 | the code as written keeps the lists if and only if the popped list had one element |
| BuddyCells.RemoveAsWritten | src/kernel/alloc.cc:176-186 | the code as written keeps the lists if and only if the removed block was the last of its list |
| BuddyRefinement.BuddyTest | src/kernel/alloc.cc:201-210 | flag and order at the buddy's first page decide whether the buddy is a free block of the same order, although records inside blocks are stale |
| BuddyRefinement.SplitRepresents | src/kernel/alloc.cc:84-87 | pushing the upper half on the records is the halving step on the arena |
| BuddyRefinement.MergeRepresents | src/kernel/alloc.cc:122-125 | removing the buddy and raising the order on the records is the joining step on the arena |
| BuddyRefinement.PushRepresents | src/kernel/alloc.cc:128-129 | the final push on the records lists the block in the arena |
| BuddyRefinement.MergeAsWritten | src/kernel/alloc.cc:201-210 | merging on the flag alone keeps the region tiled if and only if the orders are equal |
| BuddyRefinement.FragmentedReachable | src/kernel/alloc.cc:41-130 | a run of four calls on four pages reaches a state where the orders differ |
| BuddyRefinement.MergeAsWrittenOverlaps | src/kernel/alloc.cc:114-126 | there, merging as written makes a live page belong to two blocks |
| BuddyAllocator.AddressRoundTrip | src/kernel/alloc.cc:212-219 | any address inside page `idx` maps back to `idx` |
| BuddyAllocator.AddrToIndexInverse | src/kernel/alloc.cc:216-219 | an index that is not null leads back to the address rounded down to its page |
| BuddyAllocator.BuddyIndexMeaning | src/kernel/alloc.cc:188-199 | the modulus and add-or-subtract on 32-bit addresses finds the buddy, or null if and only if it lies beyond the region |
| BuddyAllocator.Allocator.constructor | src/kernel/alloc.cc:19-31 | 2^m pages that the arrays represent as one free block in the last list, with nothing live |
| BuddyAllocator.Allocator.PopFreeList | src/kernel/alloc.cc:132-153 | null on an empty list, otherwise its head, which leaves the list |
| BuddyAllocator.Allocator.RemoveFromList | src/kernel/alloc.cc:176-186 | the arrays afterwards are those that RemoveLinked is about |
| BuddyAllocator.Allocator.Kalloc | src/kernel/alloc.cc:41-97 | null, changing nothing, if and only if every free block is smaller than the size; otherwise the address 0x20000 + 4096 h of a page h that no live block started, where now a block of the least order that holds the size does, and the live blocks are the same but for it; it is the arena's allocation for the size's list index; the block ends inside the managed addresses if and only if the size is at most theirs |
| BuddyAllocator.Allocator.SplitBlock | src/kernel/alloc.cc:76-91 | the split loop on the arrays is the arena's splitting down to the requested order |
| BuddyAllocator.Allocator.Kfree | src/kernel/alloc.cc:102-130 | halts, changing nothing, if and only if the pointer is not the address 0x20000 + 4096 h of a live block; otherwise exactly that block stops being live and the arrays represent the arena with it released, and freeing the pointer again is refused if and only if it still starts a block |
| BuddyAllocator.Allocator.Coalesce | src/kernel/alloc.cc:106-129 | the merge loop and the final push on the arrays are the arena's release; the loop ends because the order rises |
| BuddyDoubleFree.ListedTwice | src/kernel/alloc.cc:99-129 | two pages are taken and freed, the lower one first; listing the upper one again, as a second free does, breaks the lists, and then both pages are given away as one block or the upper one by itself |
| BuddyDoubleFree.FreedTwice | src/kernel/alloc.cc:99-129 | after those four calls on the arrays, the second free of the upper page, at 0x21000, passes every assertion though the page is not live and starts no block |
| AhciTheorems.StepKeeps | src/klib/ahci/ahci.cc:18-60 | every step of caller, handler and device keeps the invariant |
| AhciTheorems.NoCompletionLost | src/klib/ahci/ahci.cc:18-34 | under every interleaving, an outstanding command whose PxSACT bit is gone was finished and has an interrupt pending or coming, or a handler that will still see it |
| AhciTheorems.AcknowledgedOnce | src/klib/ahci/ahci.cc:362-402 | under every interleaving, each command is acknowledged at most once: issued equals acknowledged plus outstanding for each slot, callers wait exactly while outstanding, a delivered success means finished and a failure means a device error, free slots and outstanding commands add up, and a status pointer names only the call that is running |
| AhciTheorems.QuietMeansServed | src/klib/ahci/ahci.cc:372-402 | when PxSACT is empty and no interrupt is pending, every caller has a status and every slot is free |
| AhciTheorems.DeviceHasCommand | src/klib/ahci/ahci.cc:42-57 | under every interleaving, a command in the mask that is not finished has its PxSACT bit and is in PxCI or with the device; the engine runs outside the handler, and the start bit is set again only when the engine has stopped with no command left |
| AhciTheorems.HandlerEnds | src/klib/ahci/ahci.cc:18-60 | each access of the handler lowers a bounded rank, except in the poll for the command engine, which the device can end at any time and then stays ended; nothing else moves the handler |
| AhciTheorems.HandlerServes | src/klib/ahci/ahci.cc:24-39 | a slot already cleared in PxSACT when the handler runs is out of the mask when it returns |
| AhciTheorems.ReadingFirstLoses | src/klib/ahci/ahci.cc:24-27 | reading PxSACT before clearing PxIS would lose a command finished in between |
| AhciErrors.FatalHandlerFailsAll | src/klib/ahci/ahci.cc:18-60 | a handler entered with the fatal bit set, or that has seen an error, returns with an empty mask, whatever the device does meanwhile, and every caller still polling then has a status |
| AhciErrors.ReadsDecide | src/klib/ahci/ahci.cc:20-22 | each of the two reads finds an error if and only if its bit is set then |
| AhciErrors.SignalAttended | src/klib/ahci/ahci.cc:20-24 | a fatal error has a pending interrupt that will find it, or a handler on it, if and only if it does not arrive between the read of PxIS and the clear |
| AhciErrors.ErrorServed | src/klib/ahci/ahci.cc:18-60 | under every interleaving before and after, such an error keeps that attention until a handler has returned with an empty mask; once no interrupt is pending, every call made before has its status |
| AhciErrors.ErrorErased | src/klib/ahci/ahci.cc:20-24 | an error that arrives between the read and the clear leaves the state exactly as if it had not been signalled, with no interrupt; a non-fatal one leaves its bit in PxTFD but no interrupt |
| AhciErrors.LostError | src/klib/ahci/ahci.cc:20-24 | a run from the start, after which a command is outstanding and its caller polls on, though the error bits are clear and no interrupt is pending or coming |
| AhciDriver.Driver.Begin | src/klib/ahci/ahci.cc:381-391 | the status starts at TryAgain, the slot points at it, the slot's bit is set and one slot fewer is free |
| AhciDriver.Driver.IssueNcq | src/klib/ahci/ahci.cc:316-322 | the slot's bit is set, no other changes, and free slots plus population count stay constant |
| AhciDriver.Driver.Acknowledge | src/klib/ahci/ahci.cc:362-370 | exactly the slot's bit flips, its status is delivered and its pointer cleared, every other status and pointer stays; the counts still add up if and only if the slot was outstanding |
| AhciDriver.Driver.HandleInterrupt | src/klib/ahci/ahci.cc:18-40 | slots finished in PxSACT get success; with one of the bits 27 to 30 of PxIS or bit 0 of PxTFD set, all others in the mask get failure and the mask is empty, and with all of them clear they stay as they are; each slot once, and nothing else is touched |
| AhciDriver.ErrorBits | src/klib/ahci/ahci.cc:20-22 | the test for an error holds if and only if one of those five bits is set |
| AhciDriver.Driver.AckFinished | src/klib/ahci/ahci.cc:27-33 | the shifting loop acknowledges exactly the outstanding slots whose PxSACT bit is clear |
| AhciDriver.Driver.HandleErrorInterrupt | src/klib/ahci/ahci.cc:42-47 | every outstanding slot fails and the mask is empty |
| AhciDriver.IssueMaskBits | src/klib/ahci/ahci.hh:166-168 | stored in 16 bits, the mask remembers the slot if and only if it is below 16 |
| AhciRefinement.StepKeepsExpected | src/klib/ahci/ahci.cc:27-47 | once PxSACT is read, no step of handler or device changes how the handler will leave a slot |
| AhciRefinement.HandlerMatchesDriver | src/klib/ahci/ahci.cc:18-47 | the interleaved handler leaves mask bit, status and pointer of every slot as HandleInterrupt on the driver's words does, whatever the device does meanwhile |
| AhciRefinement.StepKeepsIssued | src/klib/ahci/ahci.cc:381-391 | no statement of the masked block and no step of the device changes how the caller will leave a slot |
| AhciRefinement.IssueMatchesDriver | src/klib/ahci/ahci.cc:381-391 | the interleaved masked block leaves every slot and the count of free slots as Begin on the driver's words does |
| DiskLayout.PutU32RoundTrip | src/wnfs/inode.hh:10-18 | a little-endian field reads back and its store disturbs no other byte or word |
| DiskLayout.InodeWords | src/wnfs/inode.hh:10-18 | the layout in numbers: inode bitmap in sector 82, inodes of 128 bytes from sector 84, the size in the first word, the nine block words from byte 16 |
| DiskLayout.ContentOnDisk | src/wnfs/wnfs.cc:165-229 | byte p of a file is byte p mod 512 of the first or second sector of the block that the word at byte 16 + 4 (p / 512) of its inode names, and the size is the inode's first word |
| DiskSteps.MarkStep | src/wnfs/wnfs.cc:364-372 | marking more sectors keeps the disk consistent |
| DiskSteps.PointStep | src/wnfs/wnfs.cc:265-268 | pointing a null slot at marked, unowned sectors keeps the disk consistent, every block apart, and changes exactly that slot of the inode |
| DiskSteps.SizeStep | src/wnfs/wnfs.cc:298-301 | storing a size up to the limit keeps the disk consistent and the inode's pointers |
| DiskSteps.DataOthers | src/wnfs/wnfs.cc:290-296 | writing a file's sector changes no other file |
| FileWrites.PointKeeps | src/wnfs/wnfs.cc:265-268 | pointing a null slot at a fresh block changes neither the file's bytes nor any other file |
| FileWrites.GrowOthers | src/wnfs/wnfs.cc:298-301 | raising the size changes no other file |
| FileWrites.DataWrote | src/wnfs/wnfs.cc:281-296 | after the data sector the file holds the new bytes over the old, cut at the old size, wherever the write starts |
| FileWrites.SizeWrote | src/wnfs/wnfs.cc:298-308 | after the size follows, the size covers the data, the data is in its place and every other byte of the file's sectors as it was; a file written no further than its end is the old one with the data over it |
| FileWrites.GrownFile | src/wnfs/wnfs.cc:298-301 | after a write that grows the file, every byte below the new size was in the old file or in the data if and only if the write started no further than the end; what lies between is what the disk held there, and every byte has a sector if and only if every slot before the written one has a block |
| FileWrites.UnwrittenShows | src/wnfs/wnfs.cc:298-301 | for every byte there is a disk with the same files on which a write behind the end, in the file's last sector, takes that byte into the file |
| WriteStages.AllocationPrepares | src/wnfs/wnfs.cc:257-270 | the block that allocation found can be attached to the null slot |
| WriteStages.DataWrite | src/wnfs/wnfs.cc:272-296 | once the data sector is on the disk, with or without the inode, a crash finds the old bytes or the new ones over them up to the old size, wherever the write starts |
| WriteStages.FinalWrite | src/wnfs/wnfs.cc:298-310 | once the inode follows, the write is finished: size, data and the rest of the file's sectors are as SizeWrote says, with exactly the new content when it started no further than the end |
| FileCreation.InitStep | src/wnfs/wnfs.cc:113-134 | rewriting an unused inode shows in no file |
| FileCreation.UseStep | src/wnfs/wnfs.cc:138-143 | setting the bit of a blank inode makes an empty file and changes no other |
| FileCreation.FindClearBit | src/wnfs/wnfs.cc:112-119 | the lowest clear bit of the bitmap, or that there is none |
| FileCreation.InitInode | src/wnfs/wnfs.cc:129-140 | size, reserved word and creation time zero, all twelve block words null, time stamp and name stored, nothing outside the inode touched |
| FileCreation.SetName | src/wnfs/inode.hh:23-36 | names up to 63 bytes are stored with their length; longer ones change nothing |
| BlockAllocation.FindRun | src/wnfs/wnfs.cc:325-360 | a run found is wholly free; for two sectors it is the place of the first hit, and there is none if and only if there is no hit; with no run found and at most eight sectors asked for, no byte of the bitmap is empty |
| BlockAllocation.MarkRunMarks | src/wnfs/wnfs.cc:364-370 | marking a run sets exactly its bits |
| BlockAllocation.RunsDisjoint | src/wnfs/wnfs.cc:314-377 | runs handed out over any history are pairwise disjoint |
| BlockAllocation.MarkAsWritten | src/wnfs/wnfs.cc:364-370 | as written, the returned run is marked if and only if it starts at bit 0 of its byte |
| BlockSearch.SameBlockTwice | src/wnfs/wnfs.cc:325-376 | with the first block taken, the code as written marks nothing new, so it hands out the same block again |
| BlockSearch.SearchOfTwo | src/wnfs/wnfs.cc:325-360 | for two sectors the search as written succeeds if and only if some byte is a hit, and returns the place of the first |
| BlockSearch.HitIsFree | src/wnfs/wnfs.cc:325-360 | a hit is the place of two free sectors |
| BlockSearch.SearchSafeExactly | src/wnfs/wnfs.cc:325-360 | every run the search as written returns is free, on every bitmap, if and only if at most two sectors are asked for or more than 8184 |
| BlockSearch.MissedRun | src/wnfs/wnfs.cc:337-343 | a bitmap with a free run that the search for two sectors does not find |
| BlockSearch.EmptyDiskFills | src/wnfs/wnfs.cc:325-376 | from an empty bitmap blocks are found one behind the other, and the search fails only when all 2048 are used |
| BufferCache.FlipBit | src/wnfs/cache.hh:114-115 | releasing flips one bit: the buffer becomes free if and only if it was held |
| BufferCache.GrabRelease | src/wnfs/cache.hh:37-41 | one grab and one release restore the mask |
| BufferCache.GrabTwice | src/wnfs/cache.hh:114-126 | with two references the first release frees the buffer and the second leaves it held |
| BufferCache.BufCache.ReadBufSector | src/wnfs/cache.hh:61-88 | a held buffer with the sector, which stays cached once; readers of any sector see what they saw, or what the disk has once it has refused a write; it fails only if the disk refuses, the sector does not exist or all buffers are held |
| BufferCache.BufCache.Load | src/wnfs/cache.hh:71-83 | evicting a free buffer loses nothing while the disk has refused no write, and otherwise shows the disk again |
| BufferCache.BufCache.Store | src/wnfs/cache.hh:21-27 | a store through a reference shows to readers of its sector and of no other |
| BufferCache.BufCache.Flush | src/wnfs/cache.hh:90-94 | the disk gets the sector, or refuses and does not; the buffer is clean and readers see what they saw whatever the disk answers |
| BufferCache.BufCache.ReleaseBuffer | src/wnfs/cache.hh:114-122 | a held buffer becomes free, a dirty one is written first with the outcome ignored, readers see what they saw |
| CacheRuns.UseOnce | src/wnfs/cache.hh:50-126 | a reference taken, read or written, and dropped does to what readers see what an uncached disk would, or nothing, while other buffers are held and dirty; without refusals and with a free buffer it happens |
| CacheRuns.Replay | src/wnfs/cache.hh:50-126 | any run of such uses, with whatever evictions and refused reads, answers and leaves what the same run without a cache would, until a write is refused; with no buffer held the disk itself ends so |
| Wnfs.FileSystem.CreateFile | src/wnfs/wnfs.cc:99-163 | the lowest unused inode becomes an empty named file and no other file changes, stated also in bits and bytes of the raw sectors; at every moment of the disk a set bit means an initialised inode; no buffer stays held on any way out; whatever was refused before, the disk and what readers see stay consistent |
| Wnfs.FileSystem.AllocateSectors | src/wnfs/wnfs.cc:314-377 | the run was wholly free, lies in the sectors 2132 to 6227, and sector 74, bit by bit, gains exactly its bits; for two sectors it is the first hit, and fails without refusals if and only if there is none |
| Wnfs.FileSystem.WriteToFile | src/wnfs/wnfs.cc:231-311 | the rest of one sector is written over the file, growing it as needed; at every moment the disk holds the old content, the old size with new bytes, or the finished write, and other files never change; the finished write is in its place from any position, in raw sectors and words, and is the new content of the file when it starts no further than the end, as a handle's does (GrownFile says what is there otherwise); no buffer stays held; whatever was refused before, the disk and what readers see stay consistent |
| Wnfs.FileSystem.ReadFromFile | src/wnfs/wnfs.cc:165-229 | exactly the file's bytes from the position, as many as buffer, file and sector allow, stated also on the raw sectors: size, block word and bytes by their numbers; each error exactly in its case; the disk is not written |
| Wnfs.AnswerOnDisk | src/wnfs/wnfs.cc:165-229 | an answer in terms of files is the one in raw sectors |
| Wnfs.WrittenOnDisk | src/wnfs/wnfs.cc:231-311 | a finished write in terms of files is the one in raw sectors: the data in the sector that the inode's word names, that word kept if it was not zero, the size word raised |
| Wnfs.CreatedOnDisk | src/wnfs/wnfs.cc:99-163 | a new file in raw sectors: the lowest clear bit of sector 82 set, the inode's words and name |
| Wnfs.FileSystem.Metadata | src/wnfs/wnfs.cc:379-396 | the first word of the inode, in use or not, for every 32-bit number whose sector the disk has; without refusals it fails only if the disk does not |
| Wnfs.Endure | src/wnfs/wnfs.cc:99-396 | any calls on any files, in any order, with any refusals of the disk: no buffer stays held, inodes in use stay in use, and the disk and what readers see both stay consistent |
| Refusals.AttachSound | src/wnfs/wnfs.cc:257-270 | marking a run on the disk and attaching it for readers keeps every mixture of disk and cache consistent |
| Refusals.UseSound | src/wnfs/wnfs.cc:134-143 | so does setting the bit once the disk has the blank inode |
| Refusals.EvictSound | src/wnfs/cache.hh:71-83 | so does evicting any buffers |
| Wnfs.CountAsWritten | src/wnfs/wnfs.cc:213-220 | the exact condition under which the byte count as written is right |
| Wnfs.CountAsWrittenExample | src/wnfs/wnfs.cc:213-220 | eleven bytes are returned from a file of ten |
| Wnfs.GuardAsWritten | src/wnfs/wnfs.cc:247-251 | the guard as written lets through exactly the positions of block 9 |
| Vfs.FileHandle.Write | src/kernel/vfs/vfs.cc:86-96 | the file's bytes before the cursor, what was taken of the buffer, and the bytes behind; the cursor moves behind what was taken; this is the abstract file's write and changes no other file; failure leaves file and cursor; without refusals it fails only at the largest size or when no block is found |
| Vfs.FileHandle.Read | src/kernel/vfs/vfs.cc:98-108 | returns the file's bytes from the cursor on, as many as file, sector and buffer allow, and moves the cursor behind them; end of file only at the end |
| Vfs.FileHandle.Seek | src/kernel/vfs/vfs.cc:110-125 | inside the file the cursor goes to the place, otherwise to the file's size, and says so; on an error it stays |
| Vfs.SeekEndAppends | src/kernel/vfs/vfs.cc:86-125 | a seek to the end or past it followed by a write appends what the write takes |
| Vfs.Create | src/kernel/vfs/vfs.cc:14-30 | a handle at the start of a new empty file with the name; every other file keeps its bytes; without refusals it fails only when every inode is used |
| Vfs.Open | src/kernel/vfs/vfs.cc:32-52 | a handle at the start of any inode whose sector the disk has, its bit not looked at; if it is in use, at the start of the file, which is unchanged |
| Vfs.StaysDense | src/wnfs/wnfs.cc:99-163 | a call that touches one file keeps a sector behind every byte of all files, and the bytes of the others |
| Vfs.RunHoldsLastWritten | src/kernel/vfs/vfs.cc:86-125 | over any run whose writes start below the largest size the cursor stays inside the file and every byte is the one last written there |
| Vfs.WriteSeekRead | src/kernel/vfs/vfs.cc:86-125 | writing, seeking back and reading returns what was written |
| Vfs.ExplainedRun | src/kernel/vfs/vfs.cc:86-125 | answers that the abstract file explains come from a run of the calls that did not fail |
| Vfs.Replay | src/kernel/vfs/vfs.cc:86-125 | any calls on a handle refine the abstract file, answer by answer, and change no other file; a crash at any moment finds the file of one of the calls, before it, after it, or with its data up to the old size, and every other file |
| Vfs.Call | src/kernel/vfs/vfs.cc:86-125 | one call, as the caller sees it, is the abstract file's; every crash image during it is one of the file's before, after, or with the data up to the old size; without refusals a write fails only at the largest size or when no block is found, a read only at the end, a seek never |
| Sessions.BlankDisk | src/wnfs/wnfs.cc:99-163 | a disk with a clear inode bitmap is consistent and has no files, whatever its other sectors hold |
| Sessions.Serve | src/kernel/vfs/vfs.cc:14-125 | any creates, opens and calls on any handles, several on one file, are answered as by a map from inodes to bytes with a cursor for each handle, from whatever files the disk holds, until a write is refused; without refusals a create fails only when every inode is used, an open only without a file, and a call only for its own reason |
| Sessions.AnswerKeeps | src/kernel/vfs/vfs.cc:14-125 | an answer changes no file and no cursor but those it names, shrinks no file, and leaves every cursor inside its file |
| Sessions.SessionGrows | src/kernel/vfs/vfs.cc:14-125 | so over any run files stay and do not shrink and handles stay usable |
| Sessions.ReadThroughOther | src/kernel/vfs/vfs.cc:86-125 | what one handle wrote, another on the same file reads back |
| PageEntries.EntryFields | src/klib/pagetables.hh:46-55 | an entry leads back to its address if and only if that is a multiple of 256; it is present when permissions or address say so |
| PageEntries.EntryBits | src/klib/pagetables.hh:51-55 | the stored word has exactly the bits of the address and of the permissions |
| PageEntries.SamePage | src/klib/pagetables.hh:79-82 | two addresses meet in both indices if and only if they lie in one page |
| PageMap.MapPage | src/klib/pagetables.hh:132-155 | a mapping changes the translation of exactly its page, to the target without its last byte |
| PageMap.MappedAligned | src/klib/pagetables.hh:46-55 | for a page-aligned target that is the target |
| PageMap.MapAnywhere | src/klib/pagetables.hh:46-55 | va_to_pa gives the target back if and only if it is a multiple of 256 |
| PageMap.AddTable | src/kernel/pagetables.cc:22-43 | a fresh cleared table changes no translation |
| PageTables.PageDirectory.AddPageTable | src/kernel/pagetables.cc:79-85 | a slot takes a table if and only if its word is below 256, and then has the bits of the table's address and the bits 0 and 1 |
| PageTables.PageDirectory.Lookup | src/kernel/pagetables.cc:69-77 | the word at the page's place in the table of its slot, without its last byte, or none without a table |
| PageTables.PageDirectory.NeedTable | src/kernel/pagetables.cc:22-43 | succeeds if and only if a page is free; the new table is a frame that was no table before, cleared, in that slot |
| PageTables.PageDirectory.TryMap | src/kernel/pagetables.cc:17-46 | on success word `va >> 12 & 0x3FF` of the table in slot `va >> 22` has exactly the bits of the target and of the permissions, and no other word changes, but for a fresh table's; the page translates to the target, itself when page-aligned, and every other page as before, also when a table was allocated; va_to_pa finds the target, page 0 for the other pages under a fresh table, and else what it found before; it fails, changing nothing, if and only if a table is needed and no page is free |
| PageTables.PageDirectory.SetupIdentity | src/kernel/kernel.cc:96-108 | every page below 4 MiB maps to itself; the words of pages 1 to 1023 have the page's address and the bits present and writable, that of page 0 is zero; slots 0 and 1019 have their tables, present and writable, and no other slot changes |
| CircularBuffer.QueueLength | src/klib/circular_buffer.hh:64-76 | at most `size - 1` elements, full and empty exactly as the two tests say, the front where the read end points |
| CircularBuffer.PushedQueue | src/klib/circular_buffer.hh:20-28 | storing at the write end and advancing it appends |
| CircularBuffer.PoppedQueue | src/klib/circular_buffer.hh:30-37 | advancing the read end removes the oldest |
| CircularBuffer.FullAsWrittenRight | src/klib/circular_buffer.hh:66 | the test as written is right in every state but one |
| CircularBuffer.PushAsWrittenLoses | src/klib/circular_buffer.hh:20-28 | in that state a push loses the whole queue |
| CircularBuffer.Ring.Push | src/klib/circular_buffer.hh:20-28 | appends, or refuses exactly at `size - 1` elements |
| CircularBuffer.Ring.Pop | src/klib/circular_buffer.hh:30-37 | removes and returns the oldest element, nothing if and only if empty |
| CircularBuffer.Ring.Front | src/klib/circular_buffer.hh:52-57 | the oldest element, which stays |
| CircularBuffer.Ring.Len | src/klib/circular_buffer.hh:70-76 | the number of queued elements |
| CircularBuffer.EveryInterleavingIsFifo | src/klib/circular_buffer.hh:20-37 | under any interleaving of interrupt pushes with an interruptible pop, from the empty ring, popped followed by queued is exactly what was pushed, and a push is refused exactly at `size - 1` elements |
| Decimal.PrintedValue | src/klib/console.cc:104-113 | the numeral has digits only, the value printed, and no leading zero |
| Decimal.NumDigits | src/klib/console.cc:136-143 | the length of the numeral, at most ten |
| Decimal.Console.PutCharBack | src/klib/console.cc:56-67 | one cell is written and the cursor moves back, except at the first cell |
| Decimal.Console.Move | src/klib/console.cc:38-54 | for any amount, the cursor gets that many cells on if and only if it crosses at most one row end, or goes back exactly to the start of the row above; behind the last row the page scrolls and the cursor stays below it |
| Decimal.Console.PutNumber | src/klib/console.cc:104-113 | the numeral appears at the cursor, character by character, and no other cell changes; the cursor ends behind it, or one further when it started in the first cell; if that is no longer on the page, the page has scrolled and the cursor is below it |
| Decimal.IntoU32 | src/klib/strings.hh:41-64 | the loop in 32-bit arithmetic answers as it should if and only if the string is not one of those ParseRight names, and the number modulo 2^32 for those |
| Decimal.ParseRight | src/klib/strings.hh:41-64 | the parser answers the number, or nothing, as it should if and only if the string is not ten digits with a first digit of 5 to 9 outside 8589934592 to 8999999999, for which it answers the number modulo 2^32 |
| Decimal.FiveBillion | src/klib/strings.hh:55-58 | 5000000000 is taken for 705032704 |
| Decimal.PrintParse | src/klib/strings.hh:41-64 | every 32-bit number printed and parsed comes back |

## Left out

- Buddy allocator: the fault when a pointer above the region is freed, and the console output of the methods.
- BuddyAllocator.Allocator.Kfree: requires that a pointer which passes the assertions is the start of a live block; any other one names a page inside a block, whose record is stale, as after the double free of BuddyDoubleFree.
- Wnfs.FileSystem.ReadFromFile: requires an inode that is in use, as does WriteToFile; the code does not look at the bit, and the pointers of any other inode may name any sector. Once the disk has refused a write, nothing is claimed about the bytes returned.
- Wnfs.FileSystem.WriteToFile: once the disk has refused a write, claims consistency and released buffers, not contents, because the cache then forgets what the disk never got.
- Wnfs.FileSystem.AllocateSectors: for more than two sectors, no exact condition for failure.
- Vfs.FileHandle.Write: as WriteToFile, once the disk has refused a write.
- BufferCache.BufCache.ReadBufSector: requires a sector other than 0xFFFFFFFF, which the code takes for the mark of an empty buffer; no caller can ask for it.
- BufferCache.BufCache.Load: a buffer is one sector of an array of eight, not 512 bytes of a flat array of 4096.
- Decimal.Console.PutNumber: requires that the numeral ends on the page; otherwise the code writes behind the page. The colour of the cells is left out.
- PageTables.PageDirectory.TryMap: the kfree on its error path is dead, because the slot was just seen empty.
- AhciTheorems.AcknowledgedOnce: speaks of the delivered status; the return value of read_or_write is always Ok whatever was delivered (`src/klib/ahci/ahci.cc:401`). The file that defines IOError is not part of this model; its values TryAgain and DeviceError are taken as different from each other and from zero.
- AHCI bring-up: constructor, PCI discovery, issue_meta and await_basic, FIS and PRDT packing, and the values of the command words.
- WNFS after refused transfers: the disk of the model reports a refused transfer to its caller, while read_or_write always returns Ok (`src/klib/ahci/ahci.cc:401`), so the theorems about refusals are about a driver that reports.
- Sessions.Serve: does not say in terms of the files when no block is found.
- Disk timing and partial sector writes: a sector transfer happens whole or not at all.
- The second buffer cache in `src/klib/ahci/cache.hh`, ext2, tags and format_disk, sector_of_position, indirect blocks.
- Enabling paging, cr3 and the translation cache of the processor.
- Port I/O, interrupt controllers, keyboard, shell, the list and wrapper templates, and `str::Split`.
