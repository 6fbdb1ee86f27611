# Serra: a verified model of its memory, disk and boot cores

Serra is a boot manager. This project models, in Dafny, the parts of it in which a mistake in index arithmetic,
pointer surgery or buffer juggling would be fatal and hard to see, and proves what each of them is for.

* **Page tables at boot.** `PageWalk` writes the x86-64 four-level page walk down from section 4.5 of volume 3A of
  the Intel SDM. `Paging.Loader.InitializePageEntries` is the four nested loops of the boot loader, and is proved
  against that walk: which addresses are translated afterwards, to what, by an entry with which bits, and that every
  other translation is as it was. It is also proved how much it allocates: as many pages in a row as tables are missing before the call, so that
  it works if and only if the allocator can give that many. `PageTree` keeps the reachable tables a tree of distinct
  pages, `PagingTables` counts the missing ones, `UsableMemory` and `Allocations` are the bump allocator that they come
  from, `BootTables` and `Boot` thread everything from the first allocation to the identity-mapped address space.
* **The memory map on its way to the kernel.** `MemoryMap` sorts the firmware's map in place and clips it, `MapPieces`
  says what of it comes through and what is lost, `Handover` trims it and models the kernel's checks of what it is given.
* **The kernel's block allocator.** `MmBlocks`, `MmLists`, `MmState`, `MmSetup` and `Mm`: powers of two that tile the
  data areas, descriptors at scaled slots in a reserved prefix, each of them on a size list and on a position list.
* **Disk reads of any byte range.** `Disk` over `DiskAreas` and `RawMemory`: whole-sector reads by firmware calls that
  may fail, and the in-place handling of partly wanted first and last sectors.
* **FAT files.** `FatSectors` translates logical sectors to physical ones, `FatVolume` has the places of clusters and
  table entries, by the file system's rules and in the code's 32 bits, `Fat` follows a cluster chain, and `FatChain`
  says what this means for a file that is a list of linked clusters.
* **CRC-32 and the GPT header.** `CrcTable` and `Crc` relate the table to the bit-serial definition and prove which
  errors are always detected, `Gpt` draws the consequence for the header check of section 5.3.2 of the UEFI
  Specification, and `GptLayout` says of a header as it stands on the disk, byte by byte, if it is accepted.
* **Terminal and number formatting.** `Terminal` and `Strings`.

Objects that the C code updates in place are classes with `modifies` clauses, arrays are arrays, loops are loops.
Firmware calls are a device that is a sequence of bytes together with an arbitrary choice of calls that fail. `Panic`
is a result that ends everything (`Panicked`). Descriptor memory of the block allocator is a map from addresses to
nodes. Preconditions are what the C code needs of its callers; where it needs more than it says, this is listed under
"Left out".

Some results say exactly when the code meets its purpose, because it does not always do so:

* `MapPieces.UsableListExactly` and `MapPieces.NoUnderflowExactly`: an entry that is clipped to less than nothing
  becomes a huge one (`MemoryMap.SmallEntryUnderflows` and `EmptyEntryUnderflows` are inputs).
* `MapPieces.SurvivesExactly`: of maps of whole pages, the last entry that begins at or below an address decides about
  it, so that free memory behind the end of a later, shorter entry is lost (`MapPieces.ReservedPageHides` is an input).
  Where no entries overlap, nothing is lost (`MapPieces.NothingIsLost`).
* `Disk.ReadableExactly`: the bounds check compares a sector of the device with the size of the partition
  (`Disk.PartitionEndRefused` is an input).
* `RawMemory.KernelMemmoveExactly`, `Disk.ShownExactly` and `Disk.DeliversExactly`: the kernel's Memmove leaves areas
  that are 64 bytes or more apart to a forward copy, even if they overlap. A read in place that starts inside a sector,
  with 64 bytes or more of that sector wanted, therefore succeeds and returns the bytes that follow that sector over and
  over; this is right only for contents that repeat themselves so (`Disk.SpoiledRead` is a read that is not).
* `FatSectors.SufficesExactly` and `FatVolume.ServedExactly`: larger physical sectors are read in too small a number
  when a read does not start on one (`FatSectors.OddStartIsNotServed` is an input).
* `FatVolume.ReservedBitsExactly`: the reserved bits of a FAT32 entry are ignored at the end of a chain, but not where
  its cluster and its own entry are looked for (`FatVolume.ReservedBitMisleads` and `ReservedBitMisleadsTable` are
  inputs, one for each).
* `Handover.NeighboursExactly`: the kernel's check for overlapping entries is right unless one of them wraps around
  64 bits (`Handover.WrapHidesOverlap` is an input).
* `Boot.FramebufferExactly`: the size of the framebuffer is rounded up in 32 bits (`Boot.LargestFramebufferIsMissed` is
  an input).

What the kernel's allocator needs of the map beyond what the kernel checks, `KernelMaps.BootMapExactly` proves of every
map from this boot loader. `Handover.HandedOverExactly` says of any map and offset when exactly the memory above the offset is handed over; the one
case in which it is not (`Handover.GapOffsetKeepsBelow`) never comes about at boot, as `Boot.HandoverSharesNothing` shows.

## Model

| member | source | states |
|---|---|---|
| PageEntry.TableEntry | Boot/Legacy/Stage3/Memory/Memory.h:60-80 | an entry made for a table makes the processor go on to that table, and reads back as its address |
| PageEntry.SmallLeafEntry | Boot/Legacy/Stage3/Memory/Paging/Paging.c:307-310 | a 4 KiB entry, with or without the PAT bit, translates to the page it was made for |
| PageEntry.LargeLeafEntry | Boot/Legacy/Stage3/Memory/Paging/Paging.c:278-283 | a 2 MiB entry, with or without its PAT bit at another place, translates to the page it was made for |
| PageEntry.LeafWord | Boot/Legacy/Stage3/Memory/Paging/Paging.c:278-310 | a leaf entry is its address plus the flags, bit 7 if the page has 2 MiB, and the PAT bit if it is asked for |
| PageEntry.LeafTakenApart | Boot/Legacy/Stage3/Memory/Paging/Paging.c:278-310 | such an entry has its PAT bit, 12 or 7 by its size, if and only if it was asked for, and all other bits outside the address are those of the flags |
| PageTree.TablesAreDistinct | Boot/Legacy/Stage3/Memory/Paging/Paging.c:228-318 | no page serves two places of the table tree |
| PageTree.WriteLeafWalk | Boot/Legacy/Stage3/Memory/Paging/Paging.c:274-312 | storing a leaf makes it the leaf of the addresses of its slot, and of no other address |
| PageTree.RelinkTable | Boot/Legacy/Stage3/Memory/Paging/Paging.c:233-242 | rewriting the entry of an existing table changes the leaf of no address |
| PageTree.LinkTable | Boot/Legacy/Stage3/Memory/Paging/Paging.c:235-242 | hanging a zeroed page into an empty entry keeps the tree and changes the leaf of no address |
| PageTree.MayWriteAll | Boot/Legacy/Stage3/Memory/Paging/Paging.c:233-242 | if the entries of all tables and the leaf of an address are writable, a write to it goes through |
| UsableMemory.PageAlign | Boot/Legacy/Stage3/Memory/Paging/Paging.c:23-31 | the least page boundary not below an address |
| UsableMemory.AllocateSound | Boot/Legacy/Stage3/Memory/Paging/Paging.c:84-149 | a block is page-aligned, not below the start, inside one usable entry, and, if the start is aligned, ends at 4 GiB at the latest |
| UsableMemory.NoSpaceExactly | Boot/Legacy/Stage3/Memory/Paging/Paging.c:107-141 | 0 comes back exactly when every entry from the located one on was looked at and none fits |
| UsableMemory.AllocatedExactly | Boot/Legacy/Stage3/Memory/Paging/Paging.c:107-141 | a block is found exactly when an entry fits before one exceeds the 32-bit limit |
| UsableMemory.ThreadedBlocks | Boot/Legacy/Stage3/Memory/Paging/Paging.c:66-80 | any number of calls, each starting where the last one ended, yields aligned blocks inside single entries, each above all earlier ones |
| Allocations.PagesSplit | Boot/Legacy/Stage3/Memory/Paging/Paging.c:66-80 | taking a number of pages one after the other can be done in two goes: the second carries on where the first ended, or the failure stays |
| Allocations.RoomIsFound | Boot/Legacy/Stage3/Memory/Paging/Paging.c:84-149 | where one entry has so much room left below 4 GiB, a block is found, whatever smaller entries lie before it, and the rest of the room is left behind it |
| Allocations.RoomForPages | Boot/Legacy/Stage3/Memory/Paging/Paging.c:84-149 | room for so many pages is enough to take them one after the other |
| Allocations.AllocateLowest | Boot/Legacy/Stage3/Memory/Paging/Paging.c:84-149 | from an aligned start a block is found if and only if there is a page boundary with so much behind it in one entry and below 4 GiB, and then it is at the lowest one |
| Paging.Loader.ClearMemory | Boot/Legacy/Stage3/Memory/Paging/Paging.c:121-123 | the pages of the block are zero, all others as before |
| Paging.Loader.LocateEntry | Boot/Legacy/Stage3/Memory/Paging/Paging.c:89-102 | the last entry that begins at or below the start, or the first entry and its base |
| Paging.Loader.AllocateFromMmap | Boot/Legacy/Stage3/Memory/Paging/Paging.c:84-149 | the first fit from the located entry on, 0, or a panic; only the block is cleared |
| Paging.Loader.EnsureTable | Boot/Legacy/Stage3/Memory/Paging/Paging.c:233-242 | an entry leads to a table of the next level; tree, translations and earlier tables are kept; a page is taken exactly if there was no table, and only the lack of that page makes it fail |
| Paging.Loader.FillPte | Boot/Legacy/Stage3/Memory/Paging/Paging.c:302-312 | the part of the range under one page table is mapped, and no page is taken for it |
| Paging.Loader.FillPml2 | Boot/Legacy/Stage3/Memory/Paging/Paging.c:269-314 | the part of the range under one page directory is mapped, by large or small pages; as many pages are taken as fewer tables are missing, and a failure is that of the next one |
| Paging.Loader.FillPml3 | Boot/Legacy/Stage3/Memory/Paging/Paging.c:246-316 | the part of the range under one PML3 is mapped; as many pages are taken as fewer tables are missing, and a failure is that of the next one |
| Paging.Loader.InitializePageEntries | Boot/Legacy/Stage3/Memory/Paging/Paging.c:202-324 | a panic for misaligned addresses; otherwise the result is that of taking as many pages in a row as tables of the range were missing, so it fails if and only if the allocator does; then for every address: inside the range the hardware walk finds the entry that is phys + (va - virt), to the page, plus flags, size bit and PAT bit as asked for, and translates by it; outside it finds the entry it found before; the tables stay a tree, those of the range have come to it and no others, from usable memory, and all of their entries have the same flags if those before had |
| PagingTables.TableHung | Boot/Legacy/Stage3/Memory/Paging/Paging.c:233-242 | storing the entry of a new or an old table makes a table of its place, and of no other place |
| PagingTables.WalkHasTable | Boot/Legacy/Stage3/Memory/Paging/Paging.c:228-318 | an address that is translated has a table at every level down to its page |
| PagingTables.NothingMissing | Boot/Legacy/Stage3/Memory/Paging/Paging.c:228-318 | once the whole range is mapped, none of its tables is missing |
| PagingTables.AllIsTaken | Boot/Legacy/Stage3/Memory/Paging/Paging.c:235-242 | a run that ends with nothing missing, or with no page for what is missing, is the taking of as many pages as were missing at its start |
| Boot.AreaIsReached | Boot/Legacy/Stage3/Bootloader.c:1157-1168 | the page after the rounded range makes up for rounding start and size separately |
| Boot.RoundingAloneIsNotEnough | Boot/Legacy/Stage3/Bootloader.c:1157-1168 | without that page the end of some areas would be missed |
| Boot.ReachedExactly | Boot/Legacy/Stage3/Bootloader.c:1157-1168 | counted in 2 MiB: an area is mapped from the page it begins in, for as many as its size asks for, and one more |
| Boot.FramebufferExactly | Boot/Legacy/Stage3/Bootloader.c:1203-1214 | all of the framebuffer is mapped if and only if its size, rounded up, fits 32 bits |
| Boot.LargestFramebufferIsMissed | Boot/Legacy/Stage3/Bootloader.c:1193-1214 | not so for the largest size that two 16-bit factors can give |
| BootTables.AreaTableCount | Boot/Legacy/Stage3/Bootloader.c:1143-1219 | an area needs one PML3 for each 512 GiB and one PML2 for each GiB that it has a part of |
| BootTables.TablesAreFew | Boot/Legacy/Stage3/Bootloader.c:1143-1219 | several areas need no more tables than all of them on their own |
| Boot.Stage3.IdentityMapArea | Boot/Legacy/Stage3/Bootloader.c:1150-1171 | one more area is mapped to itself, by present and writable entries with the PAT bit as asked for, and nothing else changes; it works if and only if the allocator has a page for every table that the areas before have not needed |
| Boot.Stage3.IdentityMapAll | Boot/Legacy/Stage3/Bootloader.c:1143-1222 | low memory, every usable entry and the framebuffer are mapped to themselves, with the PAT bit where the framebuffer is and nowhere else, and no other address is mapped; it works if and only if the allocator has a page for every table that they need, shared ones counted once |
| Boot.Stage3.FirstOffset | Boot/Legacy/Stage3/Bootloader.c:1041-1052 | the base of the first entry that begins at or above 1 MiB, or 1 MiB if there is none |
| Boot.StartIsAligned | Boot/Legacy/Stage3/Bootloader.c:1041-1052 | that is the lowest such base, it is page-aligned, and 1 MiB is used only if every entry begins below it |
| Boot.Stage3.Take | Boot/Legacy/Stage3/Bootloader.c:1058-1111 | none exactly if the allocation fails or its block ends at 4 GiB, which is 0 in 32 bits; otherwise that block, aligned, inside an entry, above all before it, and the offset is its end |
| Boot.Stage3.TakeFirstBlocks | Boot/Legacy/Stage3/Bootloader.c:1041-1111 | kernel file, stack and a zeroed PML4, one above the other inside usable entries, exactly if these three allocations can be made |
| Boot.Stage3.Run | Boot/Legacy/Stage3/Bootloader.c:1041-1407 | it gets to its end exactly if kernel file, stack, PML4, one page for each page table and kernel area can be allocated one after the other; then all of them have the sizes asked for and lie one above the other inside usable entries, page tables between PML4 and kernel, and the address space is identity-mapped, with all entries writable |
| Boot.RoomForLayout | Boot/Legacy/Stage3/Bootloader.c:1041-1407 | all of these allocations can be made if one entry has room for their sum below 4 GiB |
| Boot.EnoughMemory | Boot/Legacy/Stage3/Bootloader.c:1041-1407 | so the stage works on every machine with a usable entry at or above 1 MiB that is large enough for them below 4 GiB, page tables counted area by area |
| Boot.OneGigabyteIsEnough | Boot/Legacy/Stage3/Bootloader.c:1041-1407 | one such machine: 1 GiB from 1 MiB on |
| Boot.UsableMemoryIsMapped | Boot/Legacy/Stage3/Bootloader.c:1150-1219 | every byte of usable memory, low memory and framebuffer translates to itself and can be written; its entry has the PAT bit if and only if the mapping of the framebuffer reaches it |
| Boot.LowMemoryIsMapped | Boot/Legacy/Stage3/Bootloader.c:1141-1143 | every address below 16 MiB translates to itself and can be written |
| Boot.NothingElseIsMapped | Boot/Legacy/Stage3/Bootloader.c:1143-1222 | whatever is translated translates to itself and belongs to a mapped area |
| Boot.HandoverSharesNothing | Boot/Legacy/Stage3/Bootloader.c:1611-1662 | the map given to the kernel has no byte in common with kernel file, stack, loaded kernel or page tables |
| Handover.HandedOverExactly | Boot/Legacy/Stage3/Bootloader.c:1611-1662 | what is handed over is the usable memory from the offset up if and only if the offset cuts an entry or nothing lies below it |
| Handover.GapOffsetKeepsBelow | Boot/Legacy/Stage3/Bootloader.c:1611-1662 | with an offset between two entries the lower one is handed over as well |
| Handover.MapTable.constructor | Boot/Legacy/Stage3/Bootloader.c:380-381 | the table holds the usable entries, all of them published |
| Handover.MapTable.DiscardBefore | Boot/Legacy/Stage3/Bootloader.c:1633-1654 | the table holds the new entry and those after it, and that many are published |
| Handover.MapTable.Trim | Boot/Legacy/Stage3/Bootloader.c:1611-1662 | the published table is the trimmed map |
| Handover.CheckMap | Common/Kernel/Entry.c:230-289 | each of the six verdicts is given exactly when its condition is the first one to fail, in 64-bit arithmetic that may wrap |
| Handover.CheckEntries | Common/Kernel/Entry.c:257-289 | the verdict on the first bad entry tells misaligned from too small; without one the total modulo 2^64 decides |
| Handover.NeighboursExactly | Common/Kernel/Entry.c:240-251 | the comparison of neighbours proves them disjoint if and only if it passes and no entry but the last wraps around 64 bits |
| Handover.WrapHidesOverlap | Common/Kernel/Entry.c:240-251 | two overlapping entries, one of them up to the end of the address space, that pass |
| Handover.AcceptedDisjoint | Common/Kernel/Entry.c:240-251 | entries compared with their neighbours only are disjoint from all others |
| Handover.HandedOverChecks | Common/Kernel/Entry.c:240-282 | the trimmed map passes the kernel's checks, but for a first entry that became too small |
| KernelMaps.KernelMapExactly | Common/Kernel/Entry.c:230-289 | a map has what the allocator needs if and only if it passes the checks of its entries, no entry begins at 0 or wraps, and none is larger than 2^63 |
| KernelMaps.BootMapExactly | Boot/Legacy/Stage3/Bootloader.c:1611-1662 | a map that the boot stage hands over after its last block has all of that if and only if this block has left at least 128 KiB of its entry |
| MemoryMap.SwapDown | Boot/Legacy/Stage3/Bootloader.c:350 | two neighbours have changed places |
| MemoryMap.SinkDown | Boot/Legacy/Stage3/Bootloader.c:343-358 | the sorted part has grown by one, and the map is a permutation of what it was |
| MemoryMap.SortMap | Boot/Legacy/Stage3/Bootloader.c:341-360 | the map is sorted by base and a permutation of the firmware's, with as many usable entries |
| MemoryMap.BuildUsable | Boot/Legacy/Stage3/Bootloader.c:380-472 | the slots written are the clipped list, and the count is their number; no slot past the buffer is written |
| MemoryMap.MakeUsableMap | Boot/Legacy/Stage3/Bootloader.c:341-472 | sorting and clipping together, over the array that comes in |
| MemoryMap.ClipIsGood | Boot/Legacy/Stage3/Bootloader.c:386-472 | without underflow the list is sorted, disjoint, page-aligned, of at least 128 KiB each, inside type-1 entries and apart from all others |
| MemoryMap.UnderflowSpoils | Boot/Legacy/Stage3/Bootloader.c:453-464 | with an underflow an element reaches past the end of memory |
| MemoryMap.SmallEntryUnderflows | Boot/Legacy/Stage3/Bootloader.c:436-455 | an entry inside one page becomes almost all of the address space |
| MemoryMap.EmptyEntryUnderflows | Boot/Legacy/Stage3/Bootloader.c:436-455 | and so does an empty entry that lies inside a page |
| MemoryMap.WholePagesDoNotUnderflow | Boot/Legacy/Stage3/Bootloader.c:386-472 | maps of whole pages with no address in three entries never underflow |
| MapPieces.ClipIsPieces | Boot/Legacy/Stage3/Bootloader.c:386-472 | the loop, which carries on from what it has taken, keeps of each type-1 entry what lies above everything reserved before it and below the next entry, if that is at least 128 KiB |
| MapPieces.UsableListExactly | Boot/Legacy/Stage3/Bootloader.c:386-472 | the list is sound if and only if no clipped entry underflows, and then it is complete: it is all of these pieces |
| MapPieces.NoUnderflowExactly | Boot/Legacy/Stage3/Bootloader.c:386-472 | nothing underflows if and only if of no type-1 entry that reaches past all that is reserved before it the piece, aligned to pages, ends before it starts |
| MapPieces.SurvivesExactly | Boot/Legacy/Stage3/Bootloader.c:386-472 | of a map of whole pages, an address is in the list if and only if it is free, the last entry that begins at or below it covers it, and the piece of that entry is large enough |
| MapPieces.BehindIsLost | Boot/Legacy/Stage3/Bootloader.c:420-428 | memory behind the end of the last entry that begins before it is not in the list |
| MapPieces.ReservedPageHides | Boot/Legacy/Stage3/Bootloader.c:420-470 | a reserved page in the middle of a free entry takes all that is behind it away |
| MapPieces.NothingIsLost | Boot/Legacy/Stage3/Bootloader.c:386-472 | if no entries overlap, the list is exactly the type-1 entries of at least 128 KiB, in order |
| MapPieces.FirmwareMapIsUsable | Boot/Legacy/Stage3/Bootloader.c:386-472 | from maps of whole pages with no address in three entries the usable map comes out that the rest of the boot stage needs, with exactly the memory that survives |
| MmBlocks.SlotInReserved | Common/Kernel/Memory/Mm.c:99-100 | a descriptor lies wholly in the reserved prefix, in a slot of its own size |
| MmBlocks.ReservedLeast | Common/Kernel/Memory/Mm.c:60-67 | what is set aside is the least number of whole pages with 64 bytes for each page of the entry |
| MmBlocks.SlotOrder | Common/Kernel/Memory/Mm.c:99-100 | blocks further up have descriptors further up, across all entries; slots never collide |
| MmBlocks.SplitTiled | Common/Kernel/Memory/Mm.c:459-476 | halving a block keeps the exact tiling of all data areas |
| MmLists.PushLists | Common/Kernel/Memory/Mm.c:171-206 | linking a node in keeps size lists and position list well-formed and over the same nodes |
| MmLists.PopLists | Common/Kernel/Memory/Mm.c:212-262 | unlinking the top node of a level keeps them so |
| MmLists.PopUndoesPush | Common/Kernel/Memory/Mm.c:171-252 | unlinking a node that has just been linked in restores every node as it was |
| MmSetup.Log2Unique | Common/Kernel/Memory/Mm.c:82-90 | the logarithm is the only level with 2^l <= space < 2^(l+1) |
| MmSetup.PiecesDecrease | Common/Kernel/Memory/Mm.c:77-128 | the greedy split fills the space exactly by strictly decreasing powers of two of at least a page |
| MmState.DescriptorsAscend | Common/Kernel/Memory/Mm.c:99-123 | along the position list both blocks and descriptors ascend strictly |
| MmState.OneBlockPerByte | Common/Kernel/Memory/Mm.c:402-482 | every data byte is in one block, free or handed out, and in one only |
| MmState.BlocksAvoidDescriptors | Common/Kernel/Memory/Mm.c:60-75 | no block reaches into the descriptors of any entry |
| MmState.FreeBytes | Common/Kernel/Memory/Mm.c:60-128 | of blocks that tile the data areas: a byte of an entry is in one unless it is among the first ones, one for every 64 of the entry, in whole pages |
| MmState.NoneFreeExactly | Common/Kernel/Memory/Mm.c:696-714 | no list that is looked at has a block if and only if every free block is smaller than what is asked for |
| MmState.GrantedIsBestFit | Common/Kernel/Memory/Mm.c:696-721 | what is granted is a page, or less than twice what was asked for, at the upper end of a free block that no large enough one is smaller than |
| Mm.MemoryManager.constructor | Common/Kernel/Memory/Mm.c:1-20 | empty lists, and arbitrary contents of the memory that will hold descriptors |
| Mm.MemoryManager.Logarithm | Common/Kernel/Memory/Mm.c:82-90 | the shifting loop computes the base-two logarithm |
| Mm.MemoryManager.FillEntry | Common/Kernel/Memory/Mm.c:77-128 | the blocks of the greedy split are free, linked and tile the entry's data area |
| Mm.MemoryManager.Initialize | Common/Kernel/Memory/Mm.c:26-140 | on every accepted map initialisation succeeds, whatever memory held before, with nothing handed out, and of every entry all bytes in free blocks but the first ones, one for every 64 of it, in whole pages |
| Mm.MemoryManager.PushBlock | Common/Kernel/Memory/Mm.c:171-206 | a handed-out block becomes free, at its place by address and on top of its level; everything stays consistent |
| Mm.MemoryManager.PopBlock | Common/Kernel/Memory/Mm.c:212-262 | the top block of a level is handed out, or NULL exactly when there is none |
| Mm.MemoryManager.DivideBlock | Common/Kernel/Memory/Mm.c:402-482 | fails exactly on senseless arguments; otherwise only that block is divided, and the topmost piece is on top of the target level |
| Mm.MemoryManager.PieceLevels | Common/Kernel/Memory/Mm.c:429-438 | every level below the block's down to the target, and the target once more |
| Mm.MemoryManager.PushPieces | Common/Kernel/Memory/Mm.c:457-476 | the pieces replace the block in tiling and lists |
| Mm.MemoryManager.BlockLevel | Common/Kernel/Memory/Mm.c:671-675 | the smallest level that fits and is at least a page |
| Mm.MemoryManager.MakeAvailable | Common/Kernel/Memory/Mm.c:696-714 | unless all lists from the level up are empty, the level has a block, the highest piece of the smallest free one |
| Mm.MemoryManager.Allocate | Common/Kernel/Memory/Mm.c:653-721 | NULL exactly when every free block is smaller than what is asked for; otherwise an aligned block of the smallest fitting size, in a data area, not handed out before, from the upper end of the smallest free one that is large enough |
| Mm.MemoryManager.AllocateAll | Common/Kernel/Memory/Mm.c:653-721 | over any run of allocations the blocks handed out are pairwise disjoint, large enough and in data areas, and each NULL comes exactly when at that time nothing large enough is free |
| RawMemory.ForwardIsOverlay | Boot/Legacy/Shared/Memory/Memory.c:97-99 | copying forwards does no harm to areas that are apart or move downwards |
| RawMemory.ForwardRepeats | Boot/Legacy/Shared/Memory/Memory.c:97-99 | in any other overlap the cells between source and destination come out again and again, to the end |
| RawMemory.Memcpy | Boot/Legacy/Shared/Memory/Memory.c:87-101 | the forward copy; the destination holds what the source held for areas apart or moved downwards |
| RawMemory.Memmove | Boot/Legacy/Shared/Memory/Memory.c:128-158 | the same for any overlap |
| RawMemory.KernelMemmove | Common/Kernel/Memory/Memory.c:188-232 | what the source held, for all areas that move downwards, are less than 64 bytes apart, or do not overlap |
| RawMemory.KernelMemmoveExactly | Common/Kernel/Memory/Memory.c:188-232 | and for no others, if the contents may be anything |
| RawMemory.Memset | Boot/Legacy/Shared/Memory/Memory.c:187-203 | the area holds the value, the rest is as before |
| RawMemory.Memswap | Boot/Legacy/Shared/Memory/Memory.c:231-246 | two areas that are apart have exchanged their contents |
| Disk.Machine.CallInt13 | Common/Kernel/Disk/Bios/Bios.c:213-227 | the firmware call as it is assumed: it fails by choice or past the end of the device, otherwise the sectors are in the transfer buffer |
| Disk.Machine.CopyOut | Common/Kernel/Disk/Bios/Bios.c:229-243 | what was read so far grows by the chunk, and the comparison of its first bytes never fails |
| Disk.Machine.ReadChunk | Common/Kernel/Disk/Bios/Bios.c:206-252 | one round: fails with the firmware call only, otherwise a chunk more is in place |
| Disk.Machine.ReadSectorsBios | Common/Kernel/Disk/Bios/Bios.c:156-271 | on success the sectors are in place; nothing but destination and transfer buffer changes; it succeeds when the arguments are in range and no call fails |
| Disk.Machine.ReadChunks | Common/Kernel/Disk/Bios/Bios.c:194-253 | the chunk loop covers all sectors, in chunks that fit the transfer buffer |
| Disk.Machine.ReadSectorsEfi | Common/Kernel/Disk/Efi/Efi.c:258-318 | the same by one call to the firmware, which wants aligned buffers |
| Disk.Machine.ReadSectors | Common/Kernel/Disk/Disk.c:184-200 | dispatch by volume, with the properties common to both ways |
| Disk.Machine.ReadByCopy | Common/Kernel/Disk/Disk.c:415-474 | the wanted bytes by way of an allocated and aligned buffer |
| Disk.Machine.ReadTail | Common/Kernel/Disk/Disk.c:307-329 | the last sector's wanted bytes are at the end of the buffer |
| Disk.Machine.MoveHeld | Common/Kernel/Disk/Disk.c:353-354 | bytes held at one place are held at the other, if the areas can be moved; if not, the first of them are held there over and over; nothing else changes |
| Disk.Machine.ReadBody | Common/Kernel/Disk/Disk.c:337-354 | the middle sectors are in place, or the first bytes of them over and over if they cannot be moved there; the end is still intact |
| Disk.Machine.ReadHead | Common/Kernel/Disk/Disk.c:368-393 | the first sector's wanted bytes are in place, and all behind them is as it was, what the read overwrote restored |
| Disk.Machine.JoinFront | Common/Kernel/Disk/Disk.c:379-393 | the move to the front and the copy from the saved bytes leave no gap and lose nothing |
| Disk.Machine.ReadInPlace | Common/Kernel/Disk/Disk.c:290-412 | the whole read with the caller's buffer as scratch space: every byte of its result, with the move of the middle part right or not |
| Disk.Machine.ReadDisk | Common/Kernel/Disk/Disk.c:214-476 | on success the range lies in the volume's number of sectors, and every byte of the buffer is known: those from the offset on, of a partition counted from its first sector, or their echo if the read is in place and its move does not fit the kernel's Memmove; only buffer, scratch and transfer area change; it succeeds when in bounds, nothing fails and the buffers it may need can be allocated |
| DiskAreas.EchoExactly | Common/Kernel/Disk/Disk.c:348-354 | a slice with the first d bytes of a part of it over and over is the slice itself if and only if that part repeats itself every d bytes |
| Disk.ShownExactly | Common/Kernel/Disk/Disk.c:214-476 | for each content of the device: what a successful read returns is the slice if and only if its move keeps the bytes, or the whole sectors behind the first one happen to repeat themselves at its distance |
| Disk.DeliversExactly | Common/Kernel/Disk/Disk.c:214-476 | what a successful read returns is the slice for every content of the device if and only if Memmove is right for all areas, the read is not in place, or it starts at a sector or within the last 63 bytes of one |
| Disk.SpoiledRead | Common/Kernel/Disk/Disk.c:214-476 | 2000 bytes from byte 100 on, with sectors of 512 bytes: the read succeeds, and what it returns is wrong if bytes 512 and 924 of the device differ |
| Disk.BodyMoveExactly | Common/Kernel/Disk/Disk.c:348-354 | the move of a read in place is one that the kernel's Memmove makes rightly if and only if the range starts within the last 63 bytes of a sector |
| Disk.BoundsExactly | Common/Kernel/Disk/Disk.c:245-264 | the bounds check asks that the range end, counted on the device, fits the volume's number of sectors |
| Disk.ReadableExactly | Common/Kernel/Disk/Fs/Fs.c:597-598 | a volume can be read to its end if and only if it is no partition, starts at sector 0, or is empty |
| Disk.PartitionEndRefused | Common/Kernel/Disk/Fs/Fs.c:665-666 | the last byte of a partition at sector 2048 is refused |
| FatSectors.SamePlace | Boot/Legacy/Shared/Disk/Disk.c:109-125 | the translation of sectors keeps the place on the device |
| FatSectors.PlaceIs | Boot/Legacy/Shared/Disk/Disk.c:109-125 | a sector in reach of 32 bits is read from where it is |
| FatSectors.SufficesExactly | Boot/Legacy/Shared/Disk/Disk.c:118-125 | enough physical sectors are read if and only if the read does not reach into one more of them than its length asks for |
| FatSectors.OddStartIsNotServed | Boot/Legacy/Shared/Disk/Disk.c:118-125 | two 512-byte sectors from an odd one on, in 1024-byte sectors, are not |
| FatSectors.ReadsStayOnDevice | Boot/Legacy/Shared/Disk/Disk.c:109-136 | what lies on the device is read without leaving it |
| FatVolume.ReservedBitsExactly | Boot/Legacy/Shared/Disk/Disk.c:176-187 | reserved bits never change where a chain ends; with them, a data sector is found if and only if they make a multiple of 16 with the sectors per cluster, and an entry of the table if and only if they do with the size of an entry |
| FatVolume.ReservedBitMisleads | Boot/Legacy/Shared/Disk/Disk.c:457-465 | with one sector per cluster they lead to other data |
| FatVolume.ReservedBitMisleadsTable | Boot/Legacy/Shared/Disk/Disk.c:176-187 | with 16 sectors per cluster the data is right, but the next entry is looked for 200000h sectors further on |
| FatVolume.DataSectorIs | Boot/Legacy/Shared/Disk/Disk.c:457-481 | for clusters that meet the condition, in reach of 32 bits, the sector computed is the cluster's own |
| FatVolume.EntryInSector | Boot/Legacy/Shared/Disk/Disk.c:176-187 | an entry of the table is found, whole, in the one sector that is read for it |
| FatVolume.EntryReadIs | Boot/Legacy/Shared/Disk/Disk.c:174-214 | where the condition for the table is met, the entry read is the cluster's own |
| FatVolume.ServedExactly | Boot/Legacy/Shared/Disk/Disk.c:461-484 | all clusters of a volume are read completely if and only if the first ones are, as many as there are logical sectors in a physical one |
| FatVolume.AlignedIsServed | Boot/Legacy/Shared/Disk/Disk.c:461-484 | they are if clusters and chunks start at physical sectors, or clusters have one sector |
| FatVolume.SmallClustersAreServed | Boot/Legacy/Shared/Disk/Disk.c:461-484 | they are also for clusters of two 512-byte sectors on sectors of 2048 bytes |
| Fat.Reader.ReadSector | Boot/Legacy/Shared/Disk/Disk.c:40-75 | the firmware call as it is assumed: all of the sectors, or the carry flag |
| Fat.Reader.Translate | Boot/Legacy/Shared/Disk/Disk.c:109-125 | the number of sectors and the offset fit 16 bits; the sector is computed modulo 2^32 |
| Fat.Reader.ReadFatSector | Boot/Legacy/Shared/Disk/Disk.c:101-144 | for every sector number: without a carry the bytes at the place computed are in place, if enough was read; that place is the sector's own if its number fits 32 bits; nothing else changes |
| Fat.Reader.GetFatEntry | Boot/Legacy/Shared/Disk/Disk.c:174-214 | the entry that stands at the place computed, for every number, or 0 when it cannot be read; the cluster's own where the condition on reserved bits is met |
| Fat.Reader.ReadChunk | Boot/Legacy/Shared/Disk/Disk.c:460-491 | the sectors of a cluster that are asked for, if the cluster is found and enough is read; in any case nothing else changes |
| Fat.Reader.ReadCluster | Boot/Legacy/Shared/Disk/Disk.c:460-505 | for every cluster number: it reads up to the end of the file, or a whole cluster more, and only to the file's place; for a cluster that is found and read completely, its bytes follow those already read |
| Fat.Reader.ReadFile | Boot/Legacy/Shared/Disk/Disk.c:435-520 | whatever the table holds, cycles and senseless numbers included, it ends, and writes only to the file's place; for every chain along which sectors are found and read in large enough numbers, on success memory holds the first bytes of the chain's clusters, as many as the size asks for or there are; it succeeds if such a chain is intact and no call fails |
| FatChain.EndsRightly | Boot/Legacy/Shared/Disk/Disk.c:437-457 | no number of a cluster ends a chain, and every end mark of FAT16 and FAT32 does |
| FatChain.LinkIsEntry | Boot/Legacy/Shared/Disk/Disk.c:176-210 | the entry of a cluster is made of these two or four bytes of the table |
| FatChain.PlainlyInReach | Boot/Legacy/Shared/Disk/Disk.c:457-484 | on a device with sectors of the volume's own size every cluster is found and read completely that lies on it, by numbers of 32 bits |
| FatChain.ChainIsFollowed | Boot/Legacy/Shared/Disk/Disk.c:435-520 | along clusters that the table links, enough for the file or followed by an end mark, the reader meets these clusters and what it collects are their contents in order |
| FatChain.FileIsRead | Boot/Legacy/Shared/Disk/Disk.c:435-520 | so a successful read leaves the first bytes of these contents in memory, as many as are wanted or there are |
| CrcTable.PolynomialIsReflected | Common/Kernel/Disk/Fs/Crc32.c:11-13 | the constant of the bit steps is 04C11DB7h with its bits reversed |
| CrcTable.TableIsEightSteps | Common/Kernel/Disk/Fs/Crc32.c:19-66 | each of the 256 entries is what eight bit steps make of its index |
| Crc.TableStep | Common/Kernel/Disk/Fs/Crc32.c:81-88 | one table step is eight bit steps, in every state and for every byte |
| Crc.FeedByte | Common/Kernel/Disk/Fs/Crc32.c:81-88 | eight message bits fed one by one are eight steps after the byte has gone into the register |
| Crc.NextCrc | Common/Kernel/Disk/Fs/Crc32.c:83-86 | the round of the loop |
| Crc.CalculateCrc32 | Common/Kernel/Disk/Fs/Crc32.c:72-94 | the result is the checksum that is defined bit by bit over the whole message |
| Crc.CheckValue | Common/Kernel/Disk/Fs/Crc32.c:6-16 | the checksum of the digits 1 to 9 is CBF43926h, as for other implementations of this CRC |
| Crc.BurstDetected | Common/Kernel/Disk/Fs/Crc32.c:72-94 | messages that differ within 32 consecutive bits only have different checksums |
| Crc.FourByteErrorDetected | Common/Kernel/Disk/Fs/Crc32.c:72-94 | buffers that differ within four consecutive bytes only have different checksums |
| Gpt.HeaderChecksum | Common/Kernel/Disk/Fs/Fs.c:337-341 | the checksum with its own field zeroed, and the header as it was |
| Gpt.ValidateGptHeader | Common/Kernel/Disk/Fs/Fs.c:305-404 | accepts exactly the headers that meet all conditions, and leaves the sector as it was |
| GptLayout.HeaderExactly | Common/Kernel/Disk/Fs/Fs.c:305-404 | of all headers, field by field: accepted are those with the eight characters of the signature, revision 1.0 or later, a size from 92 bytes to the sector's, the right checksum lowest byte first, own place 1, backup in the last sector, entries between them, at least one, of at least 128 bytes and a multiple of 8, and zeros behind; each condition that is not met alone rejects |
| GptLayout.UsualHeaderIsAccepted | Common/Kernel/Disk/Fs/Fs.c:305-404 | headers of 92 bytes with entries of 128 bytes times a power of two are accepted |
| Gpt.AlterationRejected | Common/Kernel/Disk/Fs/Fs.c:331-346 | an accepted header altered within four consecutive bytes is rejected, if its size is left alone and the checksum is not altered together with its neighbours |
| Terminal.TextInReadingOrder | Boot/Legacy/Shared/Graphics/Graphics.c:126-177 | plain text stands in reading order from the cursor on, whatever wraps, and what was there before it stays |
| Terminal.EveryCharacter | Boot/Legacy/Shared/Graphics/Graphics.c:126-276 | null, backspace, vertical tab, form feed and carriage return do nothing; a newline leads to the start of the next row, a tab four cells on; any other character fills its cell and leads one cell on; new rows are blank, and no other cell changes |
| Terminal.Screen.constructor | Boot/Legacy/Shared/Graphics/Graphics.c:32-41 | the framebuffer, whatever it holds, is the canvas so far |
| Terminal.Screen.ClearTerminal | Boot/Legacy/Shared/Graphics/Graphics.c:54-64 | all of the framebuffer is zero |
| Terminal.Screen.Scroll | Boot/Legacy/Shared/Graphics/Graphics.c:87-107 | the rows but the first, and an empty one |
| Terminal.Screen.UpdateTerminal | Boot/Legacy/Shared/Graphics/Graphics.c:126-177 | the window follows the cursor of the unbounded canvas |
| Terminal.Screen.PutcharAt | Boot/Legacy/Shared/Graphics/Graphics.c:194-202 | one cell is changed, and it is inside the framebuffer |
| Terminal.Screen.Putchar | Boot/Legacy/Shared/Graphics/Graphics.c:222-276 | the framebuffer is the last rows of the canvas that the character has been put on, and the cursor is in bounds |
| Terminal.Screen.Print | Boot/Legacy/Shared/Graphics/Graphics.c:293-308 | the same for any text |
| Strings.NumeralsAreUnique | Common/Kernel/Libraries/String.c:190-202 | a number has one numeral only, without leading zeros |
| Strings.NumeralExactly | Common/Kernel/Libraries/String.c:170-215 | the written string is the numeral that parses back to the number, and no other one does |
| Strings.NumeralIsNumeral | Common/Kernel/Libraries/String.c:170-215 | it has only digits of the base and no zero in front |
| Strings.DigitCount | Common/Kernel/Libraries/String.c:195-202 | a 64-bit number has at most 64 digits in any base |
| Strings.Strlen | Common/Kernel/Libraries/String.c:27-40 | the place of the first null character |
| Strings.Strrev | Common/Kernel/Libraries/String.c:105-136 | the string is reversed in place, and nothing behind it changes |
| Strings.WriteDigits | Common/Kernel/Libraries/String.c:192-208 | the digits, lowest first |
| Strings.Itoa | Common/Kernel/Libraries/String.c:170-215 | the numeral of that base that parses back to the number, and its null character, an empty string for other bases, and nothing past index 64 |
| Strings.DigitsOfTheirOwn | Common/Kernel/Libraries/String.c:190-202 | BEEFh, 35 in base 36, 5 in base 2 and 907 in base 10 are written BEEF, Z, 101 and 907 |

## Left out

- Mm.MemoryManager.PushBlock: freeing is not modelled. FreeBlock, MergeBlock and Free search neighbours at power-of-two distances and compare distances between nodes with block sizes, so that full coalescing does not hold as written.
- Mm.MemoryManager.Initialize: entries are assumed not to begin at address 0, not to wrap around, and to be no larger than 2^63; the kernel does not check this, but maps from this boot loader have it (KernelMaps.BootMapExactly). The limits 12 and 63 are constants here, not computed.
- Mm.MemoryManager.Allocate: sizes above 2^63 are not modelled; the C loop would shift by 64.
- Paging.Loader.AllocateFromMmap: only whole pages are cleared; physical addresses have at most 52 bits.
- Paging.Loader.EnsureTable: when no memory is left for a table the C code goes on with a table at FFFFF000h; the model ends there.
- Paging.Loader.InitializePageEntries: Flags has to contain Present and no address or size bits, the range has to end below 2^48, and 4 KiB pages may not be asked for where 2 MiB pages already are.
- Boot.Stage3.Run: reading and loading the kernel's segments is not part of this model, nor are the hardware steps (A20, control registers, MSRs).
- Boot.Stage3.IdentityMapAll: usable entries have to lie below 2^48. The framebuffer gets the PAT bit whether or not the processor supports it, as in the code; the comment there says otherwise.
- MapPieces.SurvivesExactly: maps with entries that are not whole pages are covered by ClipIsPieces only, which does not say it address by address.
- Handover.CheckMap: the NULL check of the table and the checks of other parts of the information table are left out.
- RawMemory.KernelMemmove: the kernel's Memcpy is taken to copy byte by byte from the front, as its `rep movsb` form does; the SSE and AVX forms are assembly and not modelled.
- Disk.Machine.ReadDisk: 64-bit offsets do not wrap, and a volume's sector size is that of its device. Sector sizes above FE00h, with which the chunk loop would not end, are excluded.
- MemoryMap.BuildUsable: the count of type-1 entries and the position in the list are 8 bits in the C code; there are at most 255 type-1 entries.
- Disk.Machine.ReadSectorsEfi: the presence of handles, protocols and media is part of whether the call fails.
- Fat.Reader.ReadFile: of chains on which it reads other sectors than those of the chain, or too few, the contents are left out; when that is so is what ReservedBitsExactly and SufficesExactly say. There is at least one sector per cluster, and the destination has room for one chunk more than the file.
- Fat.Reader.ReadFatSector: one of the sector sizes divides the other, and a logical sector has more than 128 bytes; with fewer the 8-bit chunk size of the file reader would be 0.
- Gpt.AlterationRejected: alterations of the size field are not covered, since they change how many bytes the checksum covers.
- Terminal.Screen.UpdateTerminal: lines are at most FFFCh cells long, so that a tab does not wrap the 16-bit column.
- FindDirectory: it moves on along the chain once per sector, so that searches of whole chains do not hold.
- SseMemcpy, SseMemset, the assembly stubs and the transition to the kernel.
- The EFI memory-map builder, graphics modes, kernel consoles, Message and vPrintf.
- MBR validation, the listing of partitions, partition entries and the backup GPT header.
