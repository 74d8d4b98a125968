# A hobby kernel's memory manager and ext2 writer, modelled in Dafny

The repository is a small x86-64 kernel. This project models the parts of it that keep data
structures consistent over time and proves what they keep:

* **Virtual memory** (`src/paging.c`, page-fault branch of `src/interrupts.c`): the page bitmap
  with its "next free" hint, and the four-level page tables whose own pages come from that
  bitmap. Physical memory is a sequence of frames of 512 entries, so the higher-half offset of
  `phys_to_virt` drops out.
* **The ext2 writer** (`src/ext2.c` over the `read`/`write` loops of `src/ata.c`): superblock and
  group descriptors kept both in memory and on disk, bitmaps, the inode table, files of up to
  twelve direct blocks, and directory blocks with their records packed into bytes.
* **Smaller loops**: the keyboard ring buffer shared with the interrupt handler, the `mem*`
  routines, and the two decimal printers.

In the first two parts every operation appears twice: as a function on values (`PageTables.MapPage`,
`Ext2Files.WriteFile`, ...), and as a method that works the way the C code does, on arrays,
buffers and fields, and is proved to compute that function. The theorems are about the
functions, so they hold of the methods.

| file | content |
|---|---|
| `Bits.dfy` | shifts and bitwise operators on numbers, packed bitmaps, least elements |
| `PhysicalPages.dfy` | the page allocator as a set of free pages and two counters |
| `PageTables.dfy` | the tree of tables, the walk of an address, the operations |
| `VirtualMemory.dfy`, `VirtualMemoryRuns.dfy` | what mapping, unmapping and faults mean, one call and all runs |
| `HugePages.dfy` | map_page where the way of the address meets a huge page; the whole of map_page |
| `PageWalk.dfy` | walking and mapping level by level; addresses inside a page of any size |
| `AccessRights.dfy` | who may use a page after map_page |
| `Paging.dfy` | the class `Kernel`: paging.c in place; the boot memory map |
| `Memory.dfy` | memcpy, memmove, memset, memcmp |
| `Ata.dfy` | the drive as an array of 512-byte sectors |
| `Ext2Layout.dfy` | the on-disk structures and their bytes |
| `Ext2State.dfy` | the file system as a value, where things are, the primitive updates |
| `Ext2Inv.dfy`, `Ext2Steps.dfy` | the invariant and what each step does to it |
| `Ext2Files.dfy` | writing, reading and printing files |
| `Ext2Records.dfy`, `Ext2Dirs.dfy` | directory blocks and directories |
| `Ext2Ops.dfy` | creating and deleting files, runs of operations |
| `Ext2Marks.dfy`, `Ext2Leak.dfy` | which numbers and blocks the operations take; the blocks of deleted files |
| `Ext2Hidden.dfy` | entries that a listing does not show, and what becomes of them |
| `Ext2Formatted.dfy` | small formatted disks: the invariant and all that creating a file asks for hold on them |
| `Ext2.dfy` | the class `FileSystem`: ext2.c in place |
| `Ext2Mount.dfy` | mounting a drive; creating, writing, listing and reading a file on it |
| `Keyboard.dfy`, `Decimal.dfy` | the ring buffer and decoder; the decimal printers |

## What the theorems say where the code does not do the obvious

The model follows the code. Where a promise one would expect fails, the exact condition is proved:

* `map_page` maps what it is asked to exactly when no huge page is on the way of the address and
  the allocator has at least as many free pages as that way lacks tables (`MapPageAlways`). If it
  does not, no translation changes, and the pages it took are linked into the tree. It never looks
  at `page_size`: on a 2 MiB page it writes its entry into that page's own first frame and maps
  nothing; on a 1 GiB page it takes a word of the page for an entry, and if that word looks absent
  the page it allocates is lost, linked nowhere. This holds of huge pages whose memory holds no
  page table, which a caller can look up before the call (`HugeApart`). `TwoMegabytesFails` and
  `GigabyteFails` give a consistent machine for each case.
* The flags given to `map_page` reach the last entry, but links that were there are never widened:
  a page is open to users exactly when the flags say so and all older links on its way do
  (`MapRights`).
* `free_page` keeps the counters right exactly when the page is outstanding or beyond the bitmap
  (`ReleaseCounts`), and `total_pages` counts the usable pages exactly when no two entries of the
  memory map overlap (`CountedIffDisjoint`). It keeps the tables intact exactly when the page is
  beyond the bitmap, or is neither page 0 nor a table (`FreeKeepsTree`).
* A string is read back in full exactly when it has at most 12288 bytes (`ReadBackIff`). Longer
  ones are refused, except within a kilobyte of 2^32, where the 32-bit block count wraps to 0 and
  only the length is stored.
* A file created in an exactly tiled directory is listed exactly when some record has enough slack
  for its name (`CreateFileLists`; `FullHides` gives a directory where it is not). The comment at
  `src/ext2.c:396` says the entry is added at the beginning of a new block; it is, but
  `create_file` left its length 0, which the listing takes for the end of the block.
* The next file that finds no slack is written over such an entry, which is then gone
  (`SecondCreate`). If more than four bytes of the old name stick out behind the new entry, they
  are listed as a record (`LeftoverShown`). `FullReplaces` is a directory where the first of two
  files is lost like this.
* `delete_file` gives no block back, and no other operation does: over every run the blocks of a
  deleted file stay marked and are never given to a file again (`DeletedForGood`).
* Inode `n` lives in slot `n % N` of its group's table but has bit `(n - 1) % N`; `SlotBijection`
  proves this is still one slot for each inode number.

## Model

| member | source | states |
|---|---|---|
| `Bits.AndShl1` | src/paging.c:70 | the C test `a & (1 << k)` is nonzero exactly when bit k is set |
| `Bits.Set1` | src/paging.c:71 | `byte or (1 << k)` sets bit k, changes no other bit and stays a byte |
| `Bits.Clear1` | src/paging.c:96 | `byte & ~(1 << k)` clears bit k and changes no other bit |
| `Bits.MarkUsed` | src/ext2.c:535-544 | setting bit i % 8 of byte i / 8 marks item i used and leaves every other item's mark |
| `Bits.MarkFree` | src/paging.c:93-96 | clearing bit i % 8 of byte i / 8 marks item i free and leaves every other item's mark |
| `Bits.AllOnes` | src/paging.c:34 | a bitmap filled with 0xFF has no free item |
| `Bits.BitmapIsNumber` | src/ext2.c:663-672 | a bitmap's bytes are one little-endian number, and item i is its bit i |
| `Bits.MarkBack` | src/paging.c:93-96 | setting a clear bit and clearing it again gives the bitmap back, and the other way round |
| `PhysicalPages.AllocateCounts` | src/paging.c:65-84 | handing out a page: 0 exactly when none is free, else a free page leaves the free set; total stays the number of usable pages and used the number of those not free |
| `PhysicalPages.ReleaseCounts` | src/paging.c:86-102 | free_page keeps the counters right exactly when the page is beyond the bitmap or is usable and not free already; a double free breaks them |
| `PhysicalPages.FreeCountPrinted` | src/paging.c:254-257 | the printed difference total_pages - used_pages is the number of clear bits |
| `PhysicalPages.RunsCount` | src/paging.c:65-102 | over every run of allocations and valid frees, used_pages is the number of pages handed out and not returned, and those are the usable pages that are not free |
| `PhysicalPages.RunsBalance` | src/paging.c:65-102 | over every run, double frees and frees of unusable pages included, total_pages stays and used_pages is moved by the allocations served less the frees inside the bitmap, in 64 bits |
| `PhysicalPages.StepFree` | src/paging.c:65-102 | which pages are free after one call: allocate_page takes the lowest and no other, free_page adds its page if the bitmap has it |
| `PageTables.SamePageIndices` | src/paging.c:110-113 | two addresses agree in bits 47..12 exactly when all four 9-bit table indices agree |
| `PageTables.LookupAlong` | src/paging.c:205-238 | the walk of an address in terms of the tables on its way: where the way ends decides between unmapped, 1 GiB, 2 MiB and 4 KiB |
| `PageTables.LinkMoves` | src/paging.c:120-126 | after a zeroed table is linked at an empty entry, there is exactly one new table position and every other table is where it was |
| `PageTables.LinkKeepsLookup` | src/paging.c:120-126 | linking a zeroed table at an absent entry changes the translation of no address |
| `PageTables.DescendKeeps` | src/paging.c:115-163 | one level of map_page: the tables stay a tree outside the free pages, no translation changes, and the only page taken, the lowest free one, is zeroed and linked at the new position by an entry that keeps its other bits |
| `PageTables.LeafChangesOnePage` | src/paging.c:165-172 | writing a last-level entry changes the translation of exactly the addresses of that page |
| `VirtualMemory.LookupSamePage` | src/paging.c:205-238 | addresses that agree in bits 47..12 are translated through the same entry |
| `VirtualMemory.DescendStep` | src/paging.c:115-163 | level d of map_page on a way without huge pages, after the levels above: pages taken so far are tables on the way of the address, their number is the number of tables it lacked, nothing is translated differently |
| `VirtualMemory.MapPageCorrect` | src/paging.c:104-175 | on a way without huge pages: with enough free pages for the missing tables exactly the page of v changes, to the frame and flags asked for, and exactly that many pages are used; otherwise no translation changes; the tables stay a tree and every page taken is linked into it on the way of v; memory is as it was but for the pages taken, which are zero, the new links and the last entry, and these keep every bit that frame and flags do not name |
| `PageWalk.TranslateIsWalk` | src/paging.c:205-238 | the four levels and three offsets of get_physical_address are one recursion: each level takes nine bits, and an entry maps all the bytes it spans |
| `PageWalk.MapIsWalk` | src/paging.c:104-172 | map_page is one recursion over the levels on every machine, consistent or not: follow, or clear and link a page; at the end write four fields of the entry |
| `PageWalk.MappedInOrder` | src/paging.c:212-237 | in a page of 4 KiB, 2 MiB or 1 GiB every address of the aligned region has the same entry, distances are kept, and the region's first byte is the first of the frame the entry names |
| `HugePages.HugePageSwallowsMapping` | src/paging.c:147-172 | on a 2 MiB page map_page writes present, rw, user and address of one word of the page's own first frame and nothing else; no address is translated differently unless its walk reads that word |
| `HugePages.GigaPageSwallowsMapping` | src/paging.c:129-172 | on a 1 GiB page it takes a word of the page for an entry: all it does, for a word that looks present, an absent one, and an absent one with no page free |
| `HugePages.HugePageUnnoticed` | src/paging.c:129-172 | whatever the huge page overlaps, tables included, map_page on it changes the translation of no address whose walk does not read the one word it writes there |
| `HugePages.TablesUntouched` | src/paging.c:205-238 | writes outside the tables move no table and change no translation |
| `HugePages.MapPageAlways` | src/paging.c:104-175 | on every way that meets no huge page overlapping a table: v's page is mapped as asked for exactly when no huge page is on its way and there are enough pages; no other translation ever changes; the tables stay a tree; every page taken is linked into it exactly unless a 1 GiB page's absent word swallowed it |
| `HugePages.TwoMegabytesFails` | src/paging.c:147-172 | a consistent machine with free pages on which map_page maps nothing and overwrites memory of a 2 MiB page |
| `HugePages.GigabyteFails` | src/paging.c:147-172 | one on which it maps nothing and loses a page in a 1 GiB page |
| `AccessRights.MapRights` | src/paging.c:115-172 | after a successful map_page a user may use the page exactly when the flags ask for it and every table that was already there let users in; likewise for writing |
| `VirtualMemoryRuns.MapTranslates` | src/paging.c:104-238 | for every address w and every physical address: after map_page w is translated to the frame that bits 51..12 name at offset w % 4096 exactly if w shares v's page and map_page could map it, and as before in every other case |
| `VirtualMemoryRuns.UnmapPageCorrect` | src/paging.c:177-203 | unmap_page removes exactly a 4 KiB mapping of v's page, leaves 2 MiB and 1 GiB mappings alone, and neither moves nor frees a table |
| `VirtualMemoryRuns.UnmapWrites` | src/paging.c:177-200 | on every machine unmap_page writes only the last entry of the way, which is no longer present and loses its address and no other bit |
| `VirtualMemoryRuns.MapThenUnmap` | src/paging.c:104-203 | mapping an unmapped page and unmapping it again restores the translation of every address, whether or not the mapping found enough pages |
| `VirtualMemoryRuns.EmptyTables` | src/paging.c:13-26 | an empty top table outside the free pages satisfies what the theorems ask of the tables and maps nothing |
| `VirtualMemoryRuns.FaultTakes` | src/interrupts.c:165-178 | a page fault takes the lowest free page, never page 0, and maps the page of CR2 to it with the flags 7, on whatever way |
| `VirtualMemoryRuns.FaultTranslates` | src/interrupts.c:158-179 | a fault puts the page of the faulting address on the lowest free page, at the same offset, exactly when no huge page is on its way and the missing tables leave a page over; no other translation ever changes; it halts exactly when no page was free |
| `VirtualMemoryRuns.FaultMaps` | src/interrupts.c:158-179 | a fault that maps leaves the page of CR2 alone on its frame, which is no table and is mapped nowhere else |
| `VirtualMemoryRuns.FaultFails` | src/interrupts.c:158-179 | any other fault changes no translation and disturbs no private page; it halts exactly when no page was free |
| `VirtualMemoryRuns.CallKeepsTree` | src/paging.c:65-203 | each call, within what it asks of its caller, keeps the tables a tree of pages the allocator cannot hand out |
| `VirtualMemoryRuns.RunsKeepTree` | src/paging.c:65-203 | the same over every run of allocate_page, free_page of any page but page 0 and the tables, map_page, unmap_page and page faults, huge pages included as long as they overlap no table |
| `VirtualMemoryRuns.OneParent` | src/paging.c:104-163 | the tree in terms of frames: the top table has no parent entry, every other table exactly one, and no table's page is free |
| `VirtualMemoryRuns.FreeKeepsTree` | src/paging.c:86-102 | free_page keeps the tables a tree of pages the allocator cannot hand out exactly when the page is beyond the bitmap, or is neither page 0 nor a table |
| `VirtualMemoryRuns.RunsKeepCounts` | src/paging.c:65-175 | over every run with valid frees, table pages included, the counters count and their difference is the number of free pages |
| `VirtualMemoryRuns.MapKeepsPrivate` | src/paging.c:104-175 | mapping a frame that is neither free nor another page's private frame leaves every other demand-mapped page alone on its frame |
| `VirtualMemoryRuns.FreeKeepsPrivate` | src/paging.c:86-102 | so does freeing a page that nothing outside the window is mapped to |
| `VirtualMemoryRuns.RunsKeepPrivate` | src/interrupts.c:158-179 | over every run of all five calls, mappings and frees being as above, the demand-mapped pages have frames of their own: no two share one, none is a table, none is mapped elsewhere outside the window that maps all memory |
| `Paging.UsableIsUnion` | src/paging.c:39-62 | a page counts as usable exactly when some usable entry of the memory map covers it below the end of the bitmap |
| `Paging.PagesOfEntry` | src/paging.c:42-56 | a page belongs to an entry exactly when the entry has type 0 and the page is below 2^18 and lies completely in the entry moved down to a page boundary |
| `Paging.CountedIffDisjoint` | src/paging.c:60 | total_pages is at least the number of usable pages, and equal exactly when no two entries share a page |
| `Paging.BootCounts` | src/paging.c:28-63 | after pmm_init on disjoint entries without page 0 allocator and counters are consistent |
| `Paging.Kernel.constructor` | include/paging.h:81-87 | static storage before boot: bitmap and counters zero, no top table |
| `Paging.Kernel.ClearPageBit` | src/paging.c:57-59 | the page becomes free and no other page changes |
| `Paging.Kernel.FreeRange` | src/paging.c:50-61 | an entry's pages become free up to the end of the bitmap and each is counted |
| `Paging.Kernel.FreeEntry` | src/paging.c:39-62 | entries that are not usable change nothing; a usable one frees and counts its pages |
| `Paging.Kernel.PmmInit` | src/paging.c:28-63 | the clear bits are exactly the usable pages the bitmap covers; without a memory map nothing changes |
| `Paging.Kernel.AllocatePage` | src/paging.c:65-84 | the scan from the hint finds the lowest free page of the whole bitmap, as a full first fit would, and everything below the hint stays used |
| `Paging.Kernel.FreePage` | src/paging.c:86-102 | the page becomes free, whatever it was, and the hint stays below every free page |
| `Paging.Kernel.Descend` | src/paging.c:115-131 | one level of map_page in place is the value-level step |
| `Paging.Kernel.MapPage` | src/paging.c:104-175 | map_page in place is the value-level operation; without a top table nothing changes |
| `Paging.Kernel.UnmapPage` | src/paging.c:177-203 | unmap_page in place is the value-level operation |
| `Paging.Kernel.GetPhysicalAddress` | src/paging.c:205-238 | the address the walk of the levels gives, 0 if it gives none or there is no top table |
| `Paging.Kernel.HandlePageFault` | src/interrupts.c:158-179 | the fault branch in place is the value-level operation; the result says whether it halts |
| `Paging.BootAndFault` | src/paging.c:13-102 | boot, then a first fault: the faulting address ends up on the lowest usable page at its offset exactly when it can be mapped, and otherwise where it was; on disjoint entries the counters count |
| `Memory.Memmove` | src/memory.c:23-36 | the destination holds what the source range held before, however the ranges overlap, and nothing else changes |
| `Memory.Memcpy` | src/memory.c:6-13 | for ranges that do not overlap the destination holds the source and nothing else changes |
| `Memory.CopyIn` | src/memory.c:6-13 | the same with the bytes of a structure as source |
| `Memory.Memset` | src/memory.c:15-21 | exactly the range holds the fill value as a byte |
| `Memory.Memcmp` | src/memory.c:38-46 | 0 exactly for equal ranges, else the sign of the first difference |
| `Ata.Drive.ReadSector` | src/ata.c:75-95 | one sector is copied into the buffer at the offset, nothing else changes |
| `Ata.Drive.Read` | src/ata.c:121-129 | `size / 512` consecutive sectors arrive in order and the rest of the buffer is untouched |
| `Ata.Drive.Write` | src/ata.c:131-138 | exactly `size / 512` consecutive sectors are replaced, in order |
| `Ata.BlockByte` | src/ata.c:121-138 | byte i of file-system block b is byte i % 512 of sector 2 * b + i / 512 |
| `Ata.Drive.ReadBlock` | src/ata.c:121-129 | two sectors from an even one on are one file-system block |
| `Ata.Drive.WriteBlock` | src/ata.c:131-138 | exactly that block is replaced |
| `Ext2Layout.DecodeEncode` | src/ext2.c:508 | words written as little-endian bytes are read back |
| `Ext2Layout.InodeRoundTrip` | include/ext2.h:5-27 | the 128 bytes of an inode give the inode back |
| `Ext2Layout.InodeBack` | include/ext2.h:5-27 | the 128 bytes survive being read as an inode and written |
| `Ext2Layout.InodeFields` | include/ext2.h:5-27 | the offset and width of every field of an inode, each a little-endian number |
| `Ext2Layout.FileTypeIs` | src/ext2.c:173-175 | a regular file has a mode from 0x8000 to 0x8FFF, a directory one from 0x4000 to 0x4FFF |
| `Ext2Layout.NewInodeBytes` | src/ext2.c:128-135 | the bytes of an inode that is zero but for mode and link count |
| `Ext2Layout.SuperRoundTrip` | src/ext2.c:829 | reading a superblock loses nothing of its 84 bytes |
| `Ext2Layout.SuperBack` | src/ext2.c:824-829 | a superblock written to its 84 bytes is parsed as it was |
| `Ext2Layout.SuperFields` | include/ext2.h:28-54 | the offset of every field of the superblock |
| `Ext2Layout.GroupsRoundTrip` | src/ext2.c:788 | reading the 32 group descriptors loses nothing of their block |
| `Ext2Layout.GroupsBack` | src/ext2.c:783-788 | the 32 descriptors written to their block are parsed as they were |
| `Ext2Layout.GroupFields` | include/ext2.h:56-64 | the offset and width of every field of descriptor g, which starts at byte 32 * g |
| `Ext2State.InodeNumber` | src/ext2.c:567 | group and bitmap index determine the inode number |
| `Ext2State.BlockNumber` | src/ext2.c:534 | group and bitmap index determine the block number |
| `Ext2State.SlotBijection` | src/ext2.c:10-21 | inode n is in group g at slot n % N = s exactly for one n: every slot of every group belongs to one inode number |
| `Ext2State.SlotsApart` | src/ext2.c:487-508 | two inode numbers never share bytes of the inode tables |
| `Ext2State.SlotAddress` | src/ext2.c:13-24 | slot s of a group starts at byte 128 * s of its inode table, counted from the table's first block |
| `Ext2State.NumbersSpelled` | src/ext2.c:889-891 | group and bit of an inode number, counted from 1, and of a block number are quotient and remainder |
| `Ext2State.SlotHolds` | src/ext2.c:497-508 | the 128 bytes on disk are those of the inode read from them |
| `Ext2State.FoundBlock` | src/ext2.c:654-673 | the block find_free_block returns lies in the group, is unmarked, and has the lowest clear bit |
| `Ext2State.FoundInode` | src/ext2.c:675-694 | the same for find_free_inode and inode numbers from 1 on |
| `Ext2State.RecountTouches` | src/ext2.c:548-554 | the counters' part of a bitmap update changes one group's counts, the totals and blocks 1 and 2, and leaves those equal to the copies in memory |
| `Ext2State.OtherPlaces` | src/ext2.c:524-591 | an update of one bitmap or table block leaves every other bitmap and table block |
| `Ext2State.EditThenRead` | src/ext2.c:487-511 | edit_inode_table then read_inode gives the inode written; every other inode, in the same block or not, reads as before |
| `Ext2Inv.SetBitmap` | src/ext2.c:524-591 | a bitmap update puts the new bitmap in place, adds the deltas to the counts, leaves disk and memory copies equal, and disturbs nothing else |
| `Ext2Inv.DeltasExact` | src/ext2.c:548-589 | on a consistent state the wrapped unsigned -1 is an exact decrement of the 16-bit counts and 32-bit totals, and +1 an exact increment, of blocks and of inodes |
| `Ext2Inv.CountsTaken` | src/ext2.c:546-550 | after a block is taken each group's counts are still its clear bits and the totals the sums |
| `Ext2Inv.TakeBlockEffect` | src/ext2.c:201-202 | find_free_block then update_block_bitmap marks exactly that block and keeps counts and copies consistent |
| `Ext2Inv.BlockBitBack` | src/ext2.c:524-555 | marking a free block and unmarking it again restores bitmap, counts, totals and their copies on disk |
| `Ext2Inv.InodeBitBack` | src/ext2.c:557-591 | the same for an inode number |
| `Ext2Steps.TakeBlock` | src/ext2.c:201-202 | the block taken is a data block nobody refers to; the invariant holds and every file is untouched |
| `Ext2Steps.Attach` | src/ext2.c:203 | pointing a hole of the inode in hand at such a block keeps all blocks owned by one slot |
| `Ext2Steps.WriteData` | src/ext2.c:221-222 | writing a data block keeps the invariant and every inode |
| `Ext2Steps.WriteOwn` | src/ext2.c:221-222 | writing a block of the inode in hand changes no other file |
| `Ext2Steps.Store` | src/ext2.c:230 | storing the inode in hand settles the invariant and touches no other file and no data |
| `Ext2Steps.TakeInode` | src/ext2.c:124-137 | taking the lowest free inode number of a group keeps the invariant with an empty inode in hand |
| `Ext2Steps.DropInode` | src/ext2.c:161 | freeing an allocated inode's bit keeps the invariant and touches no other file |
| `Ext2Files.ProvideOk` | src/ext2.c:200-206 | the block for a slot, owned or fresh, is on the disk, no slot shares it, and other blocks keep their content |
| `Ext2Files.WriteOne` | src/ext2.c:197-225 | one round of write_file's loop stores one kilobyte, disturbs none stored before and no other file |
| `Ext2Files.WriteAll` | src/ext2.c:197-225 | after the loop every slot below the number needed holds its kilobyte, whatever blocks the file held before; pointers that were there, and all later ones, stay |
| `Ext2Files.WriteFileStores` | src/ext2.c:167-237 | a write that is carried out keeps the invariant, stores data, length and sector count, keeps the block pointers it finds and those behind the data, and changes no other file |
| `Ext2Files.ChunkBytes` | src/ext2.c:208-219 | the buffer of slot k byte by byte, zeros behind the end of the data |
| `Ext2Files.WriteByLength` | src/ext2.c:167-237 | what becomes of a string by its length: stored with its length and sector count up to 12288 bytes, refused beyond, and within a kilobyte of 2^32 only its length is stored |
| `Ext2Files.WriteThenRead` | src/ext2.c:167-309 | after writing 1 to 12288 bytes, reading at most max bytes delivers exactly the first min(length, max) of them; every other file reads as before at every length |
| `Ext2Files.ReadBackIff` | src/ext2.c:167-309 | whatever the length, a string is read back in full exactly when it has at most 12288 bytes |
| `Ext2Files.PrintIsRead` | src/ext2.c:268-356 | for every inode, size and pattern of holes print_file, counting down, prints the bytes read_file, counting up, delivers |
| `Ext2Files.DeliveredIs` | src/ext2.c:239-301 | for every inode, size, limit and pattern of holes: the number of bytes delivered is the least of size, limit and 1024 times the first hole, and byte i is byte i % 1024 of block i / 1024; nothing of what is no regular file |
| `Ext2Files.ReadBack` | src/ext2.c:268-296 | slots that hold the kilobytes of a string are read back as that string |
| `Ext2Files.ReadBound` | src/ext2.c:268-296 | twelve blocks deliver at most twelve kilobytes |
| `Ext2Files.OthersDelivered` | src/ext2.c:239-309 | an operation that keeps other files lets each of them be read as before |
| `Ext2Files.FileBlocks` | src/ext2.c:268-276 | the blocks of an allocated inode are on the disk and none is the superblock's |
| `Ext2Records.RecordBack` | src/ext2.c:465 | the bytes of a record copied into a block are read as that record |
| `Ext2Records.HeaderFields` | include/ext2.h:66-72 | inode number and length of a record are the little-endian numbers at its start |
| `Ext2Records.SplitRecords` | src/ext2.c:460-465 | cutting a record to its own size and copying another behind it gives two well-formed records and changes no byte before or after |
| `Ext2Records.InsertShows` | src/ext2.c:451-472 | inserting puts the entry right behind the first record with enough slack and changes nothing else a listing shows; without one it changes nothing |
| `Ext2Records.FirstSlackFinds` | src/ext2.c:451-459 | that record exists exactly when some record has enough slack |
| `Ext2Records.InsertTotal` | src/ext2.c:451-472 | inserting conserves bytes: the records' lengths have the same sum |
| `Ext2Records.PlaceInserts` | src/ext2.c:413-481 | on an exactly tiled block the search on bytes inserts into the list of records, the block stays tiled with 4-byte-aligned records, and without enough slack it does nothing |
| `Ext2Records.TiledWalk` | src/ext2.c:727-761 | a listing of a tiled block shows every record in order |
| `Ext2Records.WalkFields` | src/ext2.c:726-761 | one round of the listing in terms of the bytes: inode number 0 or length 0 ends it, a length below 8 ends it behind the record |
| `Ext2Records.WalkInUse` | src/ext2.c:726-733 | nothing with inode number 0 or length 0 is ever listed |
| `Ext2Records.ZerosEndWalk` | src/ext2.c:730-732 | four zero bytes end a listing whatever comes behind them |
| `Ext2Records.PlaceFields` | src/ext2.c:414-480 | one round of the search on any block: where inode number or length is 0 the entry goes there with its own length, if it fits; a record with enough slack is cut and the entry put behind it; no other byte changes |
| `Ext2Records.FreshBlockHides` | src/ext2.c:392-397 | a zeroed block with an entry of length 0 lists nothing |
| `Ext2Records.FreshBlockIs` | src/ext2.c:392-397 | the new block byte by byte |
| `Ext2Dirs.ListingSame` | src/ext2.c:716-762 | a listing depends on the directory's blocks only |
| `Ext2Dirs.SearchInserts` | src/ext2.c:377-482 | over all twelve slots the search takes the first record with enough slack, rewriting its block inserts the entry into the listing and keeps every block tiled; without one it ends at the first hole or behind the last slot |
| `Ext2Dirs.ExtendDirKeeps` | src/ext2.c:381-405 | the branch for a hole keeps the invariant and touches no other file |
| `Ext2Dirs.ExtendLists` | src/ext2.c:381-405 | an entry put into a new block at the first hole adds to the listing what that block lists and what comes behind it; exactly when both can be walked the directory still can |
| `Ext2Dirs.AddEntryKeeps` | src/ext2.c:361-485 | add_directory_entry keeps the invariant and touches no other file |
| `Ext2Dirs.AddEntryLists` | src/ext2.c:361-485 | on a tiled directory with enough slack somewhere the listing becomes the old one with the entry behind the first such record, the inode is unchanged and the blocks stay tiled; without slack and without a hole nothing changes; without slack but with a hole the listing gains what the new block and those behind it list |
| `Ext2Ops.WithInodeKeeps` | src/ext2.c:122-137 | before the directory is touched: the inode taken was free, is allocated and initialised, and no file changed |
| `Ext2Ops.CreateFileKeeps` | src/ext2.c:121-154 | create_file keeps the invariant, changes no file but the directory, and leaves an empty regular file at the lowest free inode of the directory's group |
| `Ext2Ops.CreatedBytes` | src/ext2.c:128-137 | the 128 bytes of the new inode: mode 0x81A4, one link, zeros |
| `Ext2Ops.CreateFileLists` | src/ext2.c:121-154 | the new file is listed, right behind the first record with enough slack, exactly when there is one; otherwise a directory without gaps lists what it listed before |
| `Ext2Ops.DeleteFileKeeps` | src/ext2.c:156-165 | delete_file frees the number, clears the inode, keeps the invariant and every other file, and gives no block back |
| `Ext2Ops.DeletedBytes` | src/ext2.c:163-164 | the inode's 128 bytes are zero afterwards |
| `Ext2Ops.ApplyKeeps` | src/ext2.c:121-485 | each of the four operations keeps the invariant and every file but the one it is given |
| `Ext2Ops.RunsKeepInvariant` | src/ext2.c:121-591 | over every run of create_file, write_file, add_directory_entry and delete_file from a consistent state the invariant holds: disk copies equal memory, counts count the clear bits, and no two inode slots share a block |
| `Ext2Ops.RunsCountAndOwn` | src/ext2.c:121-591 | spelled out for every state of a run: each group's counts are its clear bits, the totals the sums, blocks 1 and 2 the copies in memory; a block of an allocated inode is marked used, belongs to no other slot, and is no structure's block |
| `Ext2Ops.RunsKeepFile` | src/ext2.c:121-485 | over every run a file no operation was given keeps its inode and the content of its blocks |
| `Ext2Ops.RunsKeepOthers` | src/ext2.c:121-359 | so it is read as at the start of the run, at every length, and listed as then |
| `Ext2Ops.WriteLasts` | src/ext2.c:121-309 | what write_file stored is read back after every run of operations given other files |
| `Ext2Ops.FilesApart` | src/ext2.c:197-206 | on a consistent state a block of an allocated inode is marked used, belongs to no other slot of any inode, and is not a superblock, descriptor, bitmap or inode-table block |
| `Ext2Marks.AddMarks` | src/ext2.c:361-485 | add_directory_entry takes no inode number, and exactly one block, the group's first free one, when its search ends at a hole; otherwise no mark changes |
| `Ext2Marks.CreateMarks` | src/ext2.c:121-154 | create_file takes exactly one inode number, the lowest free one of the group, and a block only where its entry needs one |
| `Ext2Marks.DeleteMarks` | src/ext2.c:156-165 | delete_file gives back exactly its number and no block |
| `Ext2Marks.WriteMarks` | src/ext2.c:167-237 | write_file takes no number and unmarks no block; the file's group has as many free blocks less as holes were filled |
| `Ext2Marks.WriteLowest` | src/ext2.c:197-206 | the blocks write_file takes are the lowest free ones of the file's group, and go to the holes in ascending order |
| `Ext2Marks.ApplyNumbers` | src/ext2.c:121-485 | for each operation exactly which inode numbers are in use afterwards |
| `Ext2Marks.RunsNeverFree` | src/ext2.c:121-485 | over every run no block mark is lost, whatever is deleted |
| `Ext2Leak.RefersBack` | src/ext2.c:121-485 | after any operation a file refers to a block only if that very slot did before or the block was free |
| `Ext2Leak.RunsLeak` | src/ext2.c:121-485 | a marked block that no file refers to stays marked and unreferenced over every run |
| `Ext2Leak.DeletedForGood` | src/ext2.c:156-165 | so the blocks of a deleted file are lost: in every later state each is marked used and belongs to no file |
| `Ext2Hidden.PlaceOver` | src/ext2.c:415-440 | the search takes an entry of length 0 for free space and writes over it |
| `Ext2Hidden.LeftoverHidden` | src/ext2.c:726-761 | if at most four bytes of the old name stick out behind the new entry, nothing else of it is listed |
| `Ext2Hidden.LeftoverShown` | src/ext2.c:726-761 | if more do, they are listed as a record; the block can be walked exactly unless that record's length leads to the last three bytes of the block |
| `Ext2Hidden.AddWrites` | src/ext2.c:361-485 | on any directory that can be searched: the whole effect on inode and blocks, by where the search ends; an inode that gets a block gains 1024 bytes and 2 sectors |
| `Ext2Hidden.AddOverHidden` | src/ext2.c:361-485 | add_directory_entry on a directory whose blocks before a hidden entry have no room: the listing afterwards, and exactly when there is one |
| `Ext2Hidden.AddOnShelf` | src/ext2.c:361-485 | with room in a tiled block before slot k the entry goes behind the first record that has it, and slot k and those behind hold and list what they did |
| `Ext2Hidden.AddWithHidden` | src/ext2.c:361-485 | a directory with a hidden entry in slot k behind tiled blocks: with room before it the new entry goes there and the hidden one stays hidden; without, it is written over it |
| `Ext2Hidden.SecondCreate` | src/ext2.c:121-154 | two files created where no record has enough slack: the second needs no block, only an inode, and takes the first one's place in the directory |
| `Ext2Hidden.FirstIsLost` | src/ext2.c:121-154 | in a directory without gaps, if the second name covers the first, the listing gains the second file and nothing of the first |
| `Ext2Hidden.FirstNotListed` | src/ext2.c:121-154 | then both files are allocated, the second one is listed, and no record has the first one's number |
| `Ext2Formatted.FormattedUsable` | src/ext2.c:121-154 | a formatted disk meets all that create_file asks for, with room for every name |
| `Ext2Formatted.FullHides` | src/ext2.c:121-154 | on another, consistent and tiled, a file with a name of 237 bytes or more is created and the listing stays as it was |
| `Ext2Formatted.FullReplaces` | src/ext2.c:121-154 | there a second file with a name no shorter is created too, and then the first one, number 3, is listed nowhere while the second, number 4, is |
| `Ext2.FirstClearBit` | src/ext2.c:663-672 | the bit loop stops at the lowest clear bit |
| `Ext2.FreshBuffer` | src/ext2.c:392-397 | the new directory block: zeros with the entry at the start |
| `Ext2.FileSystem.ParseSuperblock` | src/ext2.c:824-829 | afterwards memory and disk agree on the superblock's bytes |
| `Ext2.FileSystem.ParseBlockgroupDescriptors` | src/ext2.c:783-788 | afterwards memory and disk agree on the descriptors' block |
| `Ext2.FileSystem.LoadBlock` | src/ext2.c:275-276 | `read(block * sectors_per_block, 1024, buffer)` fetches that block |
| `Ext2.FileSystem.StoreBlock` | src/ext2.c:221-222 | `write(block * sectors_per_block, 1024, buffer)` replaces that block alone |
| `Ext2.FileSystem.LocateInode` | src/ext2.c:487-503 | the block and offset computed are those of the inode's slot, inside the table |
| `Ext2.FileSystem.LoadInode` | src/ext2.c:8-31 | read_inode gives the inode of that number |
| `Ext2.FileSystem.EditInodeTable` | src/ext2.c:487-511 | edit_inode_table is the value-level update |
| `Ext2.FileSystem.UpdateBlockgroupDescriptor` | src/ext2.c:513-522 | the counts change by the deltas in 16 bits and the whole table is written |
| `Ext2.FileSystem.UpdateSuperblock` | src/ext2.c:769-779 | the totals change by the deltas in 32 bits and the superblock is written |
| `Ext2.FileSystem.Recounted` | src/ext2.c:548-554 | both together |
| `Ext2.FileSystem.FlipBit` | src/ext2.c:530-546 | read, change one bit, write: exactly that bit of the bitmap block changes |
| `Ext2.FileSystem.UpdateBlockBitmap` | src/ext2.c:524-555 | update_block_bitmap is the value-level update |
| `Ext2.FileSystem.UpdateInodeBitmap` | src/ext2.c:557-591 | update_inode_bitmap is the value-level update |
| `Ext2.FileSystem.FindFreeBlock` | src/ext2.c:654-673 | the block with the lowest clear bit of the group |
| `Ext2.FileSystem.FindFreeInode` | src/ext2.c:675-694 | the inode number with the lowest clear bit of the group |
| `Ext2.FileSystem.ProvideBlock` | src/ext2.c:200-206 | the block there is, or a fresh one marked used |
| `Ext2.FileSystem.FillBuffer` | src/ext2.c:208-219 | the buffer holds the next kilobyte, padded with zeros |
| `Ext2.FileSystem.WriteSlot` | src/ext2.c:197-225 | one round of the loop does the first step of what is left to do |
| `Ext2.FileSystem.WriteFile` | src/ext2.c:167-237 | write_file in place is the value-level operation and keeps the invariant |
| `Ext2.FileSystem.ReadIntoBuffer` | src/ext2.c:261-296 | the loop with a buffer delivers the file's bytes to its start, and no others |
| `Ext2.FileSystem.ReadToTerminal` | src/ext2.c:261-296 | the loop without a buffer prints the same bytes |
| `Ext2.FileSystem.ReadFile` | src/ext2.c:239-309 | the buffer gets the first max_size bytes at most, with a terminator when there is room; without a buffer the whole content is printed; the disk is unchanged |
| `Ext2.FileSystem.PrintLoop` | src/ext2.c:333-356 | the countdown loop prints what its value-level form says |
| `Ext2.FileSystem.PrintFile` | src/ext2.c:311-359 | print_file prints the content read_file prints |
| `Ext2.FileSystem.PlaceInBlock` | src/ext2.c:412-481 | the walk over one block's bytes is the value-level search, including the length left in the entry |
| `Ext2.FileSystem.SearchDirectory` | src/ext2.c:376-482 | the walk over the twelve slots is the value-level search |
| `Ext2.FileSystem.GrowDirectory` | src/ext2.c:381-405 | the branch for a hole is the value-level step |
| `Ext2.FileSystem.AddDirectoryEntry` | src/ext2.c:361-485 | add_directory_entry in place is the value-level operation and keeps the invariant |
| `Ext2.ListBlock` | src/ext2.c:726-761 | the inner loop lists the records of a block in order up to its end |
| `Ext2.FileSystem.ListDirectory` | src/ext2.c:716-762 | the outer loop lists the blocks in order up to the first hole |
| `Ext2.FileSystem.ReadDirectoryEntries` | src/ext2.c:696-767 | read_directory_entries lists the directory and changes nothing on disk |
| `Ext2.FileSystem.CreateFile` | src/ext2.c:121-154 | create_file in place is the value-level operation and keeps the invariant |
| `Ext2.FileSystem.DeleteFile` | src/ext2.c:156-165 | delete_file in place is the value-level operation and keeps the invariant |
| `Ext2Mount.Mount` | src/main.c:160-161 | on a drive that holds a consistent file system, parsing superblock and descriptors puts memory and disk into exactly that state, so the invariant holds from there on |
| `Ext2Mount.CreatedWritable` | src/ext2.c:121-237 | where some record has slack for the name, create_file leaves as many free blocks as there were, so what was enough for the data still is |
| `Ext2Mount.CreateThenWrite` | src/ext2.c:121-309 | for every tiled directory with room for the name and enough free blocks: after create_file and write_file the file is read as the data and the directory lists it behind the first record with slack |
| `Ext2Mount.CreateWriteRead` | src/ext2.c:121-309 | the same with the drive: create, write, list and read give the listing with the file and the data in the buffer, ended by a 0 |
| `Ext2Mount.FormattedRoom` | src/ext2.c:121-237 | a formatted disk has room for any name and up to a kilobyte; its listing becomes the two dots and the file |
| `Ext2Mount.MountAndUse` | src/main.c:160-161 | mounting a formatted drive, creating a file with any name, and writing 1 to 1024 bytes: the listing is the two dots and the file, and the buffer gets the bytes |
| `Keyboard.InterruptKeeps` | src/keyboard.c:15-21 | an interrupt between any two steps of the reader keeps the ring consistent and drops its key exactly when 127 characters are pending |
| `Keyboard.ReaderKeeps` | src/keyboard.c:23-31 | each single load or store of the reader keeps the ring consistent |
| `Keyboard.RunsDeliverInOrder` | src/keyboard.c:15-31 | however keys and the reader's steps interleave, what was delivered is a prefix, in order, of what was accepted, at most 127 are pending, and a key is dropped exactly when 127 are |
| `Keyboard.ReadAlone` | src/keyboard.c:23-31 | an undisturbed read takes the oldest pending character, or nothing when none is pending |
| `Keyboard.KeyboardDriver.constructor` | src/keyboard.c:8-13 | the buffer starts empty, shift and caps lock off |
| `Keyboard.KeyboardDriver.Put` | src/keyboard.c:15-21 | the character goes behind the others unless 127 are pending; the shared variables change as the interleaved model's interrupt changes them |
| `Keyboard.KeyboardDriver.GetChar` | src/keyboard.c:23-31 | the oldest character leaves the buffer, 0 exactly when it is empty; the shared variables change as by the interleaved model's five steps |
| `Keyboard.KeyboardDriver.HasChar` | src/keyboard.c:33-35 | true exactly when the buffer is not empty |
| `Keyboard.Rows` | include/keyboard.h:12-26 | the four rows of keys by scancode, plain and shifted |
| `Keyboard.OtherKeys` | include/keyboard.h:12-26 | the keys that give the same either way, and those that give nothing |
| `Keyboard.Capitals` | include/keyboard.h:12-26 | the shifted character is the capital of a letter, and only of a letter |
| `Keyboard.Modifiers` | include/keyboard.h:4-8 | shift is released by the code of its press with bit 7 set |
| `Keyboard.KeyboardDriver.HandleIrq` | src/keyboard.c:43-76 | shift and caps lock follow their codes, every other press stores and echoes the character of the table that shift xor caps lock selects, if it has one |
| `Decimal.PrintedReads` | src/terminal.c:242-258 | the digits printed read back as the value, without a leading zero except for 0 |
| `Decimal.TwentyDigits` | src/terminal.c:248-254 | a 64-bit value has at most twenty digits, so the guard `i > 0` cuts none short |
| `Decimal.TerminalWriteDec` | src/terminal.c:242-258 | terminal_write_dec writes exactly these digits, inside its buffer of 21 |
| `Decimal.SerialWriteDec` | src/serial.c:46-63 | serial_write_dec writes the same digits, inside its buffer of 20 |

## Left out

- VirtualMemory.MapPageCorrect: speaks of ways without 1 GiB and 2 MiB pages, as does VirtualMemory.DescendStep below it; `HugePages.MapPageAlways` covers the others, and `PageWalk.MapIsWalk` every machine.
- HugePages.MapPageAlways: leaves out a huge page whose memory holds a page table. There map_page overwrites a table's entry; `HugePageSwallowsMapping` and `GigaPageSwallowsMapping` say which word without that condition, and `HugePageUnnoticed` which addresses are safe.
- AccessRights.MapRights: speaks of mappings that succeed; where map_page maps nothing `MapPageAlways` says that nothing changes.
- VirtualMemoryRuns.RunsKeepTree: like VirtualMemoryRuns.CallKeepsTree, leaves out runs that free page 0 or a page table, or map through a huge page that overlaps one; the code looks at neither. Of the frees these are exactly the ones that break the tree (`FreeKeepsTree`).
- VirtualMemoryRuns.RunsKeepPrivate: asks of map_page and free_page calls between the faults that they do not share or free a private frame themselves; the code does not look. The window in which a boot loader maps all of physical memory is exempt, since every frame is mapped there; with an empty window the statement is the plain one.
- Paging.Kernel.MapPage: updates an entry as a whole, while the code stores `present` before `address`; what another processor could see in between is not modelled. The same holds of Paging.Kernel.UnmapPage.
- Paging.Kernel.GetPhysicalAddress: takes `address << 12` in 64-bit arithmetic, as the bit-field's declared type suggests; how a compiler promotes a 40-bit field is not modelled.
- `setup_paging` takes CR3, below 2^52, and the presence of the higher-half map as inputs. CR2 is an input of Paging.Kernel.HandlePageFault, whose register dump is left out and whose endless halt is a result.
- The TLB and `invlpg`, the other exceptions, and what data pages hold: a frame's 512 words matter only where it is a page table.
- Ext2.FileSystem.FindFreeBlock: asks for a clear bit; the code returns no value without one. So do Ext2.FileSystem.FindFreeInode and, through `EnoughBlocks`, `CanAdd` and `CanCreate`, the operations that call them.
- Ext2.FileSystem.AddDirectoryEntry: asks that what the search reads, and the place it settles on, lie inside the block; elsewhere the code reads and writes behind its buffer. Its search and the branch taken are two methods, and the block found is handed from one to the other as a value.
- Ext2Dirs.AddEntryLists: says what is listed for exactly tiled directories with inode numbers other than 0, and `Ext2Hidden.AddWithHidden` for those with a hidden entry behind tiled blocks. Elsewhere `Ext2Hidden.AddWrites` and `Ext2Records.PlaceFields` say what is written, and no more is said of the listing: the branch for a record with inode 0 overwrites it without looking at its length.
- Ext2.ListBlock: asks that the headers and names it reads lie inside the block; a record's length may run past it.
- Ext2.FileSystem.UpdateSuperblock: the 940 bytes behind the superblock are whatever the stack held; the model's view of the disk blanks them, and so does that of everything above it.
- Ext2.FileSystem.ReadFile: gives the content bytes that go to the terminal and leaves out the messages around them. So do the other methods that print. The real `terminal_putchar` draws, and dispatches a command on a newline.
- Ext2.FileSystem.WriteFile: takes the string without its terminator; the loop that measures it is `|data|`.
- Geometry the code's fixed 1024-byte buffers rely on is assumed: block size 1024, at most 8192 blocks and inodes per group, at most 32 groups, every structure in a block of its own. Agreement with what mkfs lays out is not claimed: the code ignores the first-data-block field and rotates the inode table by one slot.
- Indirect blocks, timestamps and `find_first_free_group`: not implemented or not used by the code. Block pointers behind a shrunk file's end stay while its sector count shrinks, as in the code.
- Ports, status polling and `ata_identify`: a drive is an array of at most 2^28 sectors, which is what the 28-bit addressing of `ata_read_sector` reaches.
- Keyboard: an interrupt runs to its end between two steps of the reader, and only one reader exists. The headers declare the variables `static`, so that each C file has copies of its own; the copies of the modelled files are meant.
- `str.c`, drawing, the command line, `main.c` and the assembly stubs: user interface and boot plumbing, easy or outside the reach of this model.
