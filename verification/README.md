# tunix-boot, modelled and proved in Dafny

tunix-boot is an x86_64 boot loader. This project models the parts of it that turn
bytes into decisions: the page tables it builds, the memory map it normalises, the
disks, partitions and filesystems it reads, the tool that writes its disk image, the
ELF loader, PCI enumeration, the ATA driver and the text terminal. Everything the
hardware or the firmware does is a parameter, and the statements hold for every such
parameter.

`dafny verify dfyconfig.toml` checks all of it.

## Map of the project

| files | what they are about |
|---|---|
| `Words`, `Fields` | machine words, alignment, little-endian fields; numbers laid out as bytes |
| `Processor` | what an x86_64 processor makes of page tables: where an address leads and with which rights |
| `Arena`, `PageEntries`, `PageTree`, `AddressMap`, `PageTiling` | the bump allocator; table entries; the tree of tables in memory; the partial map from addresses that it stands for; the choice of page sizes |
| `PageRights` | that the processor takes an address where that map says, with the rights that were asked for |
| `PageBlocks`, `PageNeeds`, `Paging` | what can be in the way of a page; how many tables a range can take; the code that builds and walks the tables |
| `RangePlans`, `ElfImage`, `KernelPlans`, `KernelTables` | tables that mean a list of ranges; those the kernel is entered on, and the code that maps them |
| `KernelViews`, `KernelPages`, `PageExamples` | what the kernel is to find, in numbers from its image alone; that the ranges say just that; inputs on which a mapping does not do what might be expected |
| `RegionLists`, `RegionTotals`, `RegionSweep`, `MemoryMaps`, `LoaderMemory` | what a list of memory regions means, its canonical form, and the code that computes and searches it |
| `Block`, `Partitions`, `BootRecords` | sectors, byte ranges, MBR tables, windows onto a disk; boot records laid out byte by byte |
| `FatLayout`, `FatVolumes`, `FatSessions`, `FatNames`, `FatDirectories`, `FatLongNames` | FAT32: geometry and chains, the two accelerators, any sequence of reads, names, directories and paths, long names |
| `FatEntries`, `FatTrees` | directories and whole volumes of any shape, laid out byte by byte, and what is read from them |
| `FatImages`, `FatRoundTrip`, `DiskImages` | the image writer, and reading back what it wrote |
| `Ext2Blocks`, `Ext2Directories`, `Ext2Layouts` | the block map of ext2, mounting, and its directories; the same from volumes laid out byte by byte |
| `ElfLoader`, `ElfFiles`, `KernelMemory` | parsing an ELF file and placing its segments; files laid out byte by byte; the loaded bytes, read through the finished tables |
| `PciBuses`, `PciTopology` | enumeration as reachability; machines laid out as the bytes of configuration space |
| `Ata` | driver and drive |
| `Framebuffers`, `Terminals`, `TerminalPages` | pixels, the grid of characters they show, and what was typed as a page without end |

## Conventions

* Words are subset types (`u8`, `u16`, `u32`, `u64`) of unbounded integers. Where the
  C code wraps or truncates, the model writes the modulus; where a checked addition
  refuses, the model has the comparison.
* Bit operations are written as arithmetic: a mask or a shift is a `%` or a `/`, `|`
  of values without common bits is `+`, and `x & (x - 1)` is `PowerOfTwo`.
* A C function that returns `bool` and fills an output is a method with an `ok` result
  or an `Option`.
* A `Disk` has fixed contents and an arbitrary rule for which of its reads fail. A
  device is a disk or a window onto another device; `Byte(offset)` is what it stores.
  A failed read of one sector leaves the buffer alone (`AtaChannel.ReadSectors` says so
  of the ATA driver); a longer one may have filled part of it.
* Memory that C leaves uninitialised (the text of a pending long name) is arbitrary.
* Loops that copy (`memcpy`, `memset`) are written out.
* What the loader decodes is laid out a second time on its own, byte by byte and with
  its offsets written as numbers (`Processor`, `BootRecords`, `FatEntries`, `FatTrees`,
  `Ext2Layouts`, `ElfFiles`, `PciTopology`, the simulated drive in `Ata`,
  `TerminalPages`), after the standard where there is one: the Intel SDM volume 3A
  (sections 4.5 and 4.6), the Microsoft FAT32 File System Specification, the System V
  gABI (chapters 4 and 5), the PCI Local Bus Specification 3.0 (chapter 6) and the
  PCI-to-PCI Bridge Architecture Specification 1.2 (section 3.2). The theorems about
  reading are from there to the result.
* The state the source updates in place is in classes and arrays; each method is tied
  to a specification function of the old state, and the theorems are about those.

## Where the code does less than it may seem to

* `paging_map` accepts a physical range that ends above 2^52 and then stores fewer
  bits than it was given. `FaithfulExactlyBelowLimit` says exactly when every byte
  translates as asked, and `MapTooHigh` is a sequence of calls where one does not.
* `paging_map` only tests the two ends of a range for being canonical. A range from
  the low half to the high half still never succeeds: it would have to map more than
  2^48 bytes (`CrossingIsTooLong`, `Map`).
* A mapping that is refused for want of memory leaves the tables it made, empty, and
  those can be in the way of a large page later: `TableInTheWay` is a sequence of
  calls in which an unmapped page is refused although it needs no new table. That
  happens only once the arena is spent. After any calls at all, refused ones included
  (`MapAll`), a range for which there is room is mapped if and only if nothing of it
  was mapped before (`Map`).
* `map_segment` does not require a segment's virtual and physical addresses to agree
  modulo 4096; `KernelViews.SegmentIsMapped` says a byte is at its own place if and only
  if they do and the place is below 2^52. Where there is a direct map it enforces this for the
  first segment (`FirstSegmentAgrees`); `SegmentOutOfStep` is a sequence of calls
  after which a later segment is half a page away from its bytes.
* `claim_loader_memory` ignores the results of `memory_map_add`. In a map that
  was finalized before, the loader's arena is still usable afterwards if and only if
  there was no room for one more region (`ArenaIsClaimedIfRoom`); the kernel is claimed
  only with room for two (`KernelIsClaimedIfRoom`). `FullMapLosesBoth` and
  `AlmostFullMapLosesKernel` give maps that offer claimed memory as usable, and say
  that they are truncated. A claim that is made can also be lost, without becoming
  usable, when the form gets too long for the map (`ClaimMadeAndLost`).
* `memory_map_total` adds words without a check. On a finalized map that is exact
  (`TotalFits`); on a list with overlaps it may wrap (`TotalMayWrap`).
* The image writer's last check compares a cluster number with the count of clusters,
  so the last two clusters of a volume are never used; `BuildFat32` states the exact
  set of lists it accepts.

## Model

| member | source | states |
|---|---|---|
| ArenaAllocator.Arena.AllocateAligned | src/memory/arena.c:15-31 | a block is handed out exactly if the first aligned address after all earlier blocks leaves room before the end of the arena, and it is that block: blocks are aligned, inside, and disjoint from every earlier one |
| ArenaAllocator.RoundingIsExact | src/memory/arena.c:20-23 | the masked, wrapping 64-bit rounding is the true round-up of every address up to 2^64, taken modulo 2^64 |
| ArenaAllocator.Arena.Release | src/memory/arena.c:57-68 | a mark is returned to, and one that lies ahead is ignored |
| ArenaAllocator.Arena.AllocateReleaseAllocate | src/memory/arena.c:57-68 | allocating again after a release gives the identical block |
| Words.AlignUpIsLeast | src/util/checked.h:42-49 | no multiple of the alignment lies between a value and its rounding |
| PageEntries.LeafEntryDecodes | src/memory/paging.c:99-105 | decoding the entry written for a page gives back its address below 2^52, its flags, and its size at its level |
| PageEntries.LinkEntryDecodes | src/memory/paging.c:54-64 | the entry written for a table reads as present, not large, and leads to that table |
| PageRights.LinkIsPlain | src/memory/paging.c:63-64 | it takes no right away: it allows writes, user accesses and instruction fetches (src/memory/paging.h:56), and has no reserved bit |
| PageRights.LeafGrants | src/memory/paging.c:99-105 | a leaf's rights are those of the flags that were asked for |
| PageRights.TreeIsObeyed | src/memory/paging.c:140-163 | the processor's walk, rights collected from every entry on the way and faults on reserved bits included, finds for every address what the abstract map says, with the rights of its leaf |
| PageEntries.IndexIsSlot | src/memory/paging.c:10-17 | the index of an address at a level is its position among blocks of that level's span, modulo 512 |
| PageTree.LeafKeepsWalk | src/memory/paging.c:89-106 | writing a leaf into an empty entry changes the walk of no address that does not go through that entry |
| PageTree.LinkKeepsWalk | src/memory/paging.c:50-66 | linking a zeroed table behind an empty entry changes no walk at all |
| PageTree.LeafKeepsTree | src/memory/paging.c:89-106 | the tables stay a tree: each has one level and one parent entry, inside the arena |
| Paging.PageTables.Create | src/memory/paging.c:33-45 | a new address space translates nothing and has no empty table but the root; it is made exactly if the arena has room for one table |
| Paging.PageTables.Map | src/memory/paging.c:108-138 | on success every byte of the range, unmapped before, has exactly the requested mapping, no other address changes, the range is no longer than one canonical half, and the tables it needs are there; the processor then takes every address of the range to its place with exactly the rights requested, and every other address where it took it before, which it does whatever becomes of the call; rejected arguments change nothing; other failures map a prefix and stop because the next page is occupied or the arena is spent; in every state that calls can lead to, given room for what the range can take, it succeeds if and only if nothing of the range is mapped; new tables are needed ones, and they and the small ones among them are within bounds known beforehand; nothing outside the arena is written |
| Paging.MapAll | src/memory/paging.c:33-138 | from a new address space, whatever calls are made and whatever becomes of them, no table is empty unless the arena is spent, which is all the condition above asks of a state |
| Paging.MissingLeavesRoom | src/memory/paging.c:60-61 | as long as a table the range needs is missing, less has been taken than was reckoned with, so the arena cannot be spent |
| PageBlocks.EntryKeepsBlocked | src/memory/paging.c:54-65 | filling an empty entry puts nothing in the way of any page but those it serves |
| PageBlocks.PageKeepsTight | src/memory/paging.c:89-106 | after a page is mapped there is still no empty table: whatever is in the way of a page, something is mapped there |
| PageBlocks.FreePageIsNotBlocked | src/memory/paging.c:99-100 | then an unmapped page of any size has nothing in its way |
| PageBlocks.NodeIsNew | src/memory/paging.c:60-64 | no two tables serve the same addresses: a table is only made where there is none |
| PageNeeds.NeededIsCounted | src/memory/paging.c:94-97 | every table a range needs is for a block it touches, and the tables of small pages are at its two ends when both sides agree modulo 2 MiB |
| PageNeeds.NodesFit | src/memory/paging.c:94-97 | so a range takes at most as many tables as it touches blocks of 512 GiB, of 1 GiB, and of 2 MiB, of the last at most two when the sides agree |
| Paging.PageTables.MapOne | src/memory/paging.c:89-106 | one page is mapped and every other walk kept, or nothing is mapped and every walk kept |
| Paging.PageTables.Translate | src/memory/paging.c:140-163 | the independent walk finds exactly the abstract map of the tables, and the processor reaches what it found |
| AddressMap.MappedRange | src/memory/paging.c:108-138 | address by address what a mapping did: virtual + k goes to physical + k with the requested flags, present, and large on large leaves; elsewhere the translation is the old one |
| AddressMap.TranslationsSurvive | src/memory/paging.c:54-57 | whatever becomes of a mapping, an existing translation is unchanged |
| AddressMap.CrossingIsTooLong | src/memory/paging.c:119-122 | among accepted ranges, those that stay in one canonical half are exactly those of at most 2^48 bytes |
| AddressMap.FaithfulExactlyBelowLimit | src/memory/paging.c:115-117 | a mapped range translates byte for byte as asked if and only if its physical end is at most 2^52 |
| PageTiling.ChosenTiles | src/memory/paging.c:128-136 | the sizes chosen by the loop tile the range with supported pages aligned on both sides |
| PageTiling.FewestLeaves | src/memory/paging.c:70-81 | no tiling by supported, aligned pages has fewer leaves |
| PageTiling.LevelAtIsTile | src/memory/paging.c:83-87 | each byte is served at the level of the tile it lies in |
| PageTiling.SmallPagesAtEnds | src/memory/paging.c:70-81 | when both sides agree modulo 2 MiB, 4 KiB pages occur only in the first and the last 2 MiB block: at most two small tables |
| KernelTables.BuildKernelTables | src/boot/main.c:528-612 | if it succeeds the tables mean exactly a list of non-overlapping ranges, and nothing outside the arena is written; for sound segments, in numbers of the image alone: it then is mappable and the kernel sees exactly what it should (`KernelSees`): an address leads somewhere if and only if it is below 4 GiB, its page meets a segment's bytes, or it is the image of a physical address in the direct map's window outside the kernel's pages, each with its place and its rights in the processor's terms; and every mappable image is accepted given room for its tables |
| KernelPages.PlanFitsExactly | src/boot/main.c:528-612 | the ranges of an image can be mapped without overlap if and only if it is mappable: segments, canonical, above 4 GiB, on pairwise distinct pages and clear of a page-aligned direct map |
| KernelPages.PlanIsSeen | src/boot/main.c:528-612 | tables that mean those ranges show the kernel just what it should see |
| KernelPages.ImageTables | src/boot/main.c:538-596 | the tables they take are no more than a number computed from the image's addresses |
| KernelViews.OrdinaryIsMappable | src/boot/main.c:549-596 | an image whose segments are all linked at one page-aligned distance in the upper half from where they are loaded, no two in one page, is mappable |
| KernelViews.MeetsIsSharing | src/boot/main.c:510-516 | the pages mapped for a segment are exactly those that hold a byte of it |
| RangePlans.ApartIsUnmapped | src/memory/paging.c:140-163 | in tables that mean a list of ranges, a range apart from them is unmapped, canonical addresses and others alike |
| KernelTables.MapSegment | src/boot/main.c:510-526 | one segment's pages, with its permissions, are added to what the tables mean |
| KernelPages.LowIsSeen | src/boot/main.c:538-541 | every address below 4 GiB is taken to itself, writable and executable, and not for user code |
| KernelViews.SegmentIsMapped | src/boot/main.c:585-596 | every byte of a segment with virtual different from physical is reached with exactly the rights of its header; at its own physical byte if and only if the two addresses agree modulo 4096 and that byte is below 2^52 |
| KernelViews.FirstSegmentAgrees | src/boot/main.c:549-580 | where there is a direct map, an image is only mappable if the first segment's two addresses agree modulo 4096 |
| PageExamples.MapTooHigh | src/memory/paging.c:115-117 | a sequence of calls: one page at physical 2^52 is accepted, mapped, and found at physical 0 |
| PageExamples.TableInTheWay | src/memory/paging.c:54-65 | a sequence of calls: in an arena of three pages a small page is refused, and then an unmapped huge page that needs no new table, because of what the first call left |
| PageExamples.SegmentOutOfStep | src/boot/main.c:510-526 | a sequence of calls: an image of two sound segments for which the tables are built, and whose data the processor does not find at its own bytes |
| KernelPages.DirectIsSeen | src/boot/main.c:549-580 | a physical address outside the kernel's pages and in the window of the direct map (the least of 4 GiB and 2^64 - 4096 less its base) is reached at one constant distance, writable and, if possible, not executable |
| KernelViews.WritableXorExecutable | src/boot/main.c:518-523 | with no-execute on, an address above 4 GiB that the processor may write and execute lies in the pages of a segment whose header asked for both |
| RegionLists.KindAtIsGreatest | src/memory/map.c:61-71 | the kind of a byte is the greatest of any region covering it, and none if none does |
| RegionLists.MoreRestrictiveWins | src/memory/map.h:21-30 | greatest in the order in which the kinds are listed: where two kinds claim a byte the later of them wins |
| RegionLists.CanonicalIsUnique | src/memory/map.c:73-110 | two ascending, disjoint, merged lists that give every byte the same kind are the same list |
| RegionLists.OrderAndRepeatsDoNotMatter | src/memory/map.c:16-32 | lists with the same regions, in any order and number, give every byte the same kind |
| RegionLists.SplittingDoesNotMatter | src/memory/map.c:79-81 | cutting a region in two changes no byte's kind |
| RegionTotals.TotalCountsBytes | src/memory/map.c:112-118 | the total of a kind in a canonical list is the number of bytes of that kind |
| RegionTotals.TotalFits | src/memory/map.c:112-118 | so on a canonical list the sum never leaves 64 bits |
| RegionTotals.TotalMayWrap | src/memory/map.c:112-118 | two regions that overlap, each acceptable, whose total no 64-bit word holds |
| RegionTotals.TotalsAddUpToUnion | src/memory/map.c:112-118 | the totals of all kinds add up to the size of the union of the regions |
| RegionSweep.SweepIsForm | src/memory/map.c:86-105 | the sweep over sorted boundaries yields the canonical list with the same kind for every byte |
| RegionSweep.FormIsShort | src/memory/map.c:5-5 | the canonical list has fewer regions than there are boundaries |
| MemoryMaps.SortPrefix | src/memory/map.c:41-49 | the insertion sort leaves an ascending permutation of the values |
| MemoryMaps.MemoryMap.CollectBoundaries | src/memory/map.c:34-56 | strictly ascending, and exactly the bases and ends of the regions |
| MemoryMaps.MemoryMap.Finalize | src/memory/map.c:73-110 | the list is replaced by its canonical form, or by the first regions of it with the map marked as truncated |
| MemoryMaps.MemoryMap.Add | src/memory/map.c:16-32 | empty and wrapping regions and those for which there is no room are refused, others appended |
| MemoryMaps.FinalizedIsCanonical | src/memory/map.c:73-110 | the result is ascending, disjoint and merged, and when it fits gives every byte the greatest kind claimed for it |
| MemoryMaps.FinalizeDependsOnKindsOnly | src/memory/map.c:73-110 | inputs that claim the same kinds byte by byte give identical arrays |
| MemoryMaps.FinalizeIsIdempotent | src/memory/map.c:73-110 | finalizing again changes nothing |
| MemoryMaps.RunIsInRegion | src/memory/map.c:134-148 | in a canonical list every run of usable bytes lies inside one region |
| MemoryMaps.MemoryMap.Total | src/memory/map.c:112-118 | the sum of the lengths of the regions of a kind modulo 2^64, and the sum itself on a canonical list |
| MemoryMaps.MemoryMap.Find | src/memory/map.c:120-127 | a region covering the address, if any does |
| MemoryMaps.MemoryMap.FindFree | src/memory/map.c:129-150 | the lowest aligned usable run of the size at or above the minimum, and failure only if there is none |
| MemoryMaps.MemoryMap.FindFreeHigh | src/memory/map.c:166-192 | the highest aligned usable run of the size that ends by the limit, and failure only if there is none |
| LoaderMemory.ClaimLoaderMemory | src/boot/main.c:618-629 | the map becomes the canonical form of itself with the arena and the kernel added, as far as there was room; it is marked as truncated exactly if it was before, if a claim was turned away, or if the form is too long |
| LoaderMemory.ClaimedIsNotUsable | src/boot/main.c:614-617 | a byte that a claim of the list covers is not usable afterwards, even if regions were dropped; other bytes keep their kind |
| LoaderMemory.ClaimsInNumbers | src/boot/main.c:618-624 | the two claims are the megabyte of the arena, kept for the loader, and the span of the kernel, and which of them are refused |
| LoaderMemory.ArenaIsClaimedIfRoom | src/boot/main.c:618-624 | a usable arena byte outside the kernel is claimed if and only if the map had room for one more region and the byte is among those the map still has room to describe; in a map that was canonical it is still usable afterwards if and only if there was no room, and then the map says it is truncated |
| LoaderMemory.KernelIsClaimedIfRoom | src/boot/main.c:621-624 | a usable kernel byte is claimed if and only if the map had room for two more regions and still has room to describe it; one the arena does not cover is otherwise still usable, or not described; in a full canonical map it is still usable |
| LoaderMemory.FullMapLosesBoth | src/boot/main.c:618-624 | a canonical map of 128 regions in which all of the arena and all of the kernel is still usable afterwards |
| LoaderMemory.AlmostFullMapLosesKernel | src/boot/main.c:618-624 | a canonical map of 127 regions in which the kernel is still usable afterwards |
| LoaderMemory.ClaimMadeAndLost | src/boot/main.c:618-624 | a canonical map of 126 regions in which both claims are made and the arena's own region is then dropped, the form having 129 |
| BlockDevices.BlockDevice.ReadSectors | src/block/partition.c:133-145 | a window passes a request on displaced, and never outside itself; without failures it succeeds exactly if all the sectors are there |
| BlockDevices.BlockDevice.Read | src/block/block.c:24-40 | whole sectors in pieces of at most 64, exactly the device's bytes; a request that leaves a device of known size never reaches the backend |
| BlockDevices.BlockDevice.ReadBytes | src/block/block.c:50-100 | any byte range is exactly the device's slice, from the sectors that range touches and no others; a range that leaves a device of known size never reaches the backend |
| BlockDevices.BlockDevice.SectorsFit | src/block/block.c:67-70 | the sectors touched by a range that stays on the device are sectors of the device |
| BlockDevices.BlockDevice.WindowReadable | src/block/partition.c:133-145 | sectors of a window are readable exactly if they lie inside it and the displaced sectors of the parent are readable |
| Partitions.PartitionTable.ParseMbr | src/block/partition.c:27-66 | accepted exactly by its signature; the table is the believable entries in order, and empty if any entry says the real table is a GPT |
| BootRecords.ParseLaid | src/block/partition.c:27-66 | a boot record laid out with any four entries is read as just the entries in use that lie on the device, in order, with start, length, type and flag |
| BootRecords.GptIs | src/block/partition.c:57-61 | and as a GPT if and only if one of them has type EE |
| Partitions.PartitionTable.AddEntry | src/block/partition.c:8-25 | an entry is appended exactly if it is not empty, does not wrap, ends on the disk, and there is room |
| Partitions.OpenPartition | src/block/partition.c:147-165 | a device for the partition, exactly if the partition lies on the parent device |
| Partitions.PartitionReadsSlice | src/block/partition.c:133-145 | bytes read through a partition are the parent's, start_lba × sector_bytes further on, and lie inside the partition |
| FatLayout.MountedIsSound | src/fs/fat.c:66-106 | whatever boot sector is accepted, 2 + cluster_count does not wrap 32 bits, the FAT lies before the data, and all clusters lie within the volume and the device |
| FatLayout.ClustersArePlaced | src/fs/fat.c:17-25 | clusters in range lie in the data area and distinct ones share no sector |
| FatLayout.NthAdd | src/fs/fat.c:146-158 | following m links and then n is following m + n |
| FatVolumes.FatVolume.Mount | src/fs/fat.c:27-106 | a volume is accepted exactly if its first sector can be read and passes the checks; only that sector is read |
| FatVolumes.FatVolume.NextCluster | src/fs/fat.c:108-138 | through the cache, the link the disk holds, whatever was read before; the cached sector always equals the disk's sector it names, and nothing is read when it is already the right one |
| FatVolumes.FatVolume.Advance | src/fs/fat.c:146-158 | the n-th link of the chain, found whenever it exists and n is within the count of clusters; at most cluster_count + 1 links are followed even on a cycle |
| FatVolumes.FatVolume.ReadChain | src/fs/fat.c:163-211 | the bytes the links define, on any disk; without failures it succeeds exactly if the chain goes far enough within the bounds on links; the cursor left behind is the n-th link of the file, and only the links from the old cursor to the last cluster needed are followed |
| FatVolumes.ResumingIsNoWorse | src/fs/fat.c:173-183 | a read that works from the first cluster works from any valid cursor |
| FatVolumes.FatFile.Read | src/fs/fat.c:420-431 | reads past the end and of directories are refused, other reads give the chain's bytes, a read that would work from the beginning works, and it follows no more links than lie between its cursor and its end |
| FatSessions.ServeAll | src/fs/fat.c:420-431 | over any sequence of reads of any open files of a volume: every answer is exact, and every request that would work alone is answered |
| FatNames.LongNameComesBack | src/fs/fat.c:268-320 | from any pending state, the fragments of a plain name of 1 to 255 characters are collected to exactly that name, also when its length is a multiple of 13, and match what is asked if and only if it differs in case alone |
| FatNames.CharsTaken | src/fs/fat.c:288-309 | one fragment puts its characters in their places and finds the end of the name if it is there |
| FatDirectories.NameMatches | src/fs/fat.c:214-238 | the padded comparison agrees with the 8.3 name the path component stands for |
| FatDirectories.EntryIsReadable | src/fs/fat.c:336-342 | an entry never straddles clusters, and the bound on entries keeps its chain within the bound on links |
| FatDirectories.FindInDirectory | src/fs/fat.c:323-382 | finds the first matching entry before the end of the directory, by its 8.3 name or by the long name that belongs to it; it ends on any disk and misses only if the device fails |
| FatDirectories.Open | src/fs/fat.c:384-418 | a file it opens is one the path can lead to component by component; without failures it opens the one the path must lead to, whatever uninitialised memory holds |
| FatEntries.ItemIsSearched | src/fs/fat.c:336-379 | one item, laid out byte by byte: a file or directory with any first cluster below 2^28 and any size, a deleted entry, or a volume label, any of them behind fragments of any long name with any checksums: a search stops there if and only if it is a file or directory and the search is for its short name or for a long name that is its own, with exactly its cluster, size and kind; else it goes on with nothing collected |
| FatEntries.DirectoryIsSearched | src/fs/fat.c:323-382 | in any directory laid out as a list of such items a search finds the first that answers, with just what it was laid out with, and nothing if none does |
| FatEntries.ShortMatchesExactly | src/fs/fat.c:214-238 | the eleven characters of an entry match a name if and only if they are the name's stem and extension, padded with blanks, but for the case of letters |
| FatEntries.ChecksumIs | src/fs/fat.c:252-262 | the checksum is the byte rotated right by one place and the next character added, eleven times |
| FatTrees.MountShape | src/fs/fat.c:27-106 | a volume of any sound shape that fits its device is mounted with the geometry its boot sector was laid out with |
| FatTrees.MountedIsShape | src/fs/fat.c:27-106 | and nothing else is mounted: whatever is accepted is laid out as such a shape |
| FatTrees.ChainIsFollowed | src/fs/fat.c:108-138 | clusters linked in any order, whatever the upper four bits of the links, are followed as they are linked |
| FatTrees.OpenAlong | src/fs/fat.c:384-418 | a path of any number of names, through directories in any clusters, is opened if and only if they lead somewhere, with the first cluster, size and kind that the last directory has for it |
| FatTrees.ReadAlong | src/fs/fat.c:27-431 | from the boot sector to the contents: on any volume laid out in this way any part of a file is read along its path if and only if it lies within the file, and as it is stored |
| FatLongNames.SearchOverFragments | src/fs/fat.c:350-354 | a search passes over fragments and collects them |
| FatLongNames.LongNameIsFound | src/fs/fat.c:350-379 | at the fragments of a name and one entry after them, a search stops if and only if that entry names a file and the search is for its 8.3 name or, provided all fragments carry its checksum, for the long name, in any case; otherwise it goes on with nothing collected |
| FatNames.RunComesBack | src/fs/fat.c:268-320 | after the fragments of a name, whatever their checksums and whatever was pending, the name is pending for an entry if and only if all of them carry that entry's checksum |
| FatLongNames.WriteFragment | tests/unit/test_fat.c:331-357 | laying a fragment out unit by unit gives the entry the reader expects |
| FatLongNames.WriteLongName | tests/unit/test_fat.c:328-358 | for every plain name, the fragments in reverse order with the checksum of the 8.3 entry are such entries as a search finds the name by |
| FatImages.BuildFat32 | tools/make-image.py:66-138 | accepts exactly the lists that fit; the boot sector, both FATs, the directory, the data and the padding are as described, and every other byte is zero |
| FatImages.VolumeIsDetermined | tools/make-image.py:66-138 | there is one volume with given files: every byte of it is decided |
| FatImages.WriteFile | tools/make-image.py:116-123 | one file's clusters are chained in both FATs, hold its contents and then zeros, and no other byte changes |
| FatImages.OneMore | tools/make-image.py:109-136 | writing one more file and its entry keeps every file, entry and link already there |
| FatRoundTrip.WrittenIsMounted | tools/make-image.py:70-100 | the reader accepts the written volume and works out the writer's geometry |
| FatRoundTrip.ChainIsContents | tools/make-image.py:116-123 | the chain of a written file, followed by the reader, is its contents |
| FatRoundTrip.RootSearch | tools/make-image.py:126-136 | searching the written directory finds the first file whose name matches, and nothing if none does |
| FatRoundTrip.AnyCaseMatches | src/fs/fat.c:213-238 | a name written in any mixture of capitals and small letters matches its padded form |
| FatRoundTrip.OnlyOwnNameMatches | src/fs/fat.c:213-238 | between names without spaces, an 8.3 entry matches a written name if and only if stem and extension are the same but for case |
| FatRoundTrip.DistinctMatch | src/fs/fat.c:213-238 | when no two names differ in case alone, the first match of a file's name is that file |
| FatRoundTrip.PathLeads | src/fs/fat.c:384-418 | a path of one name must lead to the first matching file and can lead nowhere else |
| FatRoundTrip.ReadBack | tools/make-image.py:66-138 | mount, open and read: it works exactly if a file matches and the part lies within it, and the bytes are those that were written |
| FatRoundTrip.ReadByName | tools/make-image.py:66-138 | when no two names differ in case alone, each file is found by its own name in any letter case, and every part of it reads as it was written |
| DiskImages.BuildImage | tools/make-image.py:141-201 | the image is the boot record with the sixteen bytes of one table entry, the loader, and the volume, exactly when the checks of the tool pass |
| DiskImages.TableIsRead | tools/make-image.py:141-146 | the parser finds exactly the partition that was written |
| DiskImages.ReadFromImage | tools/make-image.py:183-201 | from a disk holding the image: partition table, partition, volume, file, and the bytes that were written |
| Ext2Blocks.IndexHasPath | src/fs/ext2.c:106-130 | a block has a path exactly if its index is below 12 + p + p² + p³, and the path gives back the index |
| Ext2Blocks.PathHasIndex | src/fs/ext2.c:106-130 | every path of pointers belongs to one block: distinct blocks take distinct paths, and all are used |
| Ext2Blocks.CapacityIs | src/fs/ext2.c:117-130 | the limit is 12 + p + p² + p³ |
| Ext2Blocks.SpanFits | src/fs/ext2.c:126-126 | for every block size the spans stay below 2^64, so the checked product never refuses |
| Ext2Blocks.ResolveBlock | src/fs/ext2.c:106-150 | the iterative walk is the recursive lookup in the pointer tree; a hole anywhere is a hole |
| Ext2Layouts.ResolvedIs | src/fs/ext2.c:106-150 | that lookup is the one of the format: 12 direct blocks, then one, two and three tables of pointers, written out with their divisions |
| Ext2Layouts.ReadStored | src/fs/ext2.c:152-181 | any part of a file is read as its blocks, reached in this way, hold it, with zeros for holes, and if and only if it lies within the file |
| Ext2Blocks.BlockIsThere | src/fs/ext2.c:18-24 | any part of a block of the volume can be read from a device that holds the volume |
| Ext2Blocks.ReadBlocks | src/fs/ext2.c:152-181 | the bytes the tree defines, zeros for holes; without failures it succeeds exactly if all of them are defined |
| Ext2Blocks.Ext2File.Read | src/fs/ext2.c:323-334 | the same within the file's size, and a refusal outside it |
| Ext2Directories.MountedIsSound | src/fs/ext2.c:62-100 | whatever superblock is accepted, sizes are sound, blocks are whole sectors, the volume lies on the device, and no inode straddles two blocks |
| Ext2Layouts.LaidIsMounted | src/fs/ext2.c:26-104 | a superblock laid out byte by byte for any sound shape is mounted with that shape's sizes |
| Ext2Layouts.MountedIsLaid | src/fs/ext2.c:26-104 | and nothing else is mounted |
| Ext2Directories.FindInDirectory | src/fs/ext2.c:253-289 | what the records say, missed only if the device fails |
| Ext2Directories.SearchFindsListed | src/fs/ext2.c:253-289 | in a directory that is a list of records, up to its end or to what is no record, a name is found exactly if a record in use has it, and then the first |
| Ext2Layouts.FindLaid | src/fs/ext2.c:253-289 | the same from the bytes of the directory: inode, distance to the next record, length of the name, and name; a record that is too short or leaves the directory ends it |
| ElfLoader.Parse | src/elf/elf.c:108-155 | an image is made exactly of the files that can be loaded; its segments are the loadable headers in order, sound and pairwise disjoint, and its lowest and highest addresses are exact |
| ElfFiles.LaidIsAcceptable | src/elf/elf.c:37-155 | a file laid out byte by byte with any program headers is accepted if and only if it can be loaded: every loadable segment sound, its alignment a power of two or zero, no interpreter, 1 to 16 of them, no two overlapping |
| ElfFiles.ParseLaid | src/elf/elf.c:37-155 | and the segments found are those that were laid out, in order, with every field |
| ElfLoader.LoadableGrows | src/elf/elf.c:119-151 | the segments found so far are the beginning of those found in the end |
| ElfLoader.CopySegment | src/elf/elf.c:169-188 | a segment's bytes are the file's and then zeros, and no byte outside it changes even if a read fails |
| ElfLoader.Load | src/elf/elf.c:190-210 | nothing is written if any biased segment leaves the window; bytes of no segment are never written; on success memory is exactly what file and segments say; without failures it succeeds exactly if the segments fit and the file has them |
| ElfLoader.OrderDoesNotMatter | src/elf/elf.c:202-208 | two loads of the same segments in any order give the same memory |
| KernelMemory.SegmentIsFound | src/boot/main.c:585-596 | after loading and building the tables, the processor finds every byte of a segment linked elsewhere in step with where it is loaded at its linked address, with its file byte or zero, provided the loader's arena misses the segment |
| PciBuses.BusWalk.Enumerate | src/pci/pci.c:92-127 | it ends; no bus is walked twice and nothing recorded twice; what is recorded is there, reachable and described as it describes itself; and all of that is recorded unless the list is marked truncated, which happens only if something is missing |
| PciTopology.EnumerateMachine | src/pci/pci.c:28-127 | of any machine (functions with vendor, identifier and class, bridges with primary, secondary and subordinate bus, single and multifunction devices) laid out as the bytes of configuration space: the list is truncated if and only if more than 64 functions can be reached, and otherwise it is exactly those functions, each once, with their fields |
| PciTopology.ShownIsVisible | src/pci/pci.c:72-90 | a function is seen if and only if the machine has it, its device has a function 0, and that says there are more where it is not 0 itself |
| PciBuses.ReachableIsLeast | src/pci/pci.c:109-125 | buses reachable through bridges are among any set with bus 0 that is closed under bridges |
| PciBuses.RecordKeeps | src/pci/pci.c:28-70 | recording a function, and noting the bus behind a bridge, keeps the invariant of the walk |
| PciBuses.EnterKeeps | src/pci/pci.c:109-120 | a pending bus was never entered before |
| PciBuses.AllCovered | src/pci/pci.c:109-120 | when nothing is pending every reachable, visible function has been recorded |
| AtaChannels.AtaChannel.ReadSectors | src/block/ata.c:123-150 | requests out of range never reach the drive; against any drive: at most count × 1,000,000 polls, data is only taken after a good status, a sector at a time, and a failed read of one sector leaves the buffer alone; from a drive that conforms: exactly the sectors asked for, whatever the delays |
| AtaChannels.AtaChannel.WaitWhileBusy | src/block/ata.c:25-36 | it gives up after the poll budget, and a conforming drive is ready before |
| AtaChannels.AtaChannel.IssueLba28 | src/block/ata.c:91-102 | the drive, selected and in logical addressing by bits 4 and 6 of its register, decodes the address and the count that were meant, 256 as zero |
| AtaChannels.AtaChannel.IssueLba48 | src/block/ata.c:104-121 | the same through two-deep registers, 65536 as zero |
| AtaChannels.Decoded48 | src/block/ata.c:110-118 | the twelve register bytes put together are the address, for every address below 2^48 |
| AtaChannels.SimulatedIs | tests/unit/test_ata.c:57-108 | what the driver's writes mean is what a drive makes of them that keeps the last two values of each register and looks at them when the command comes |
| AtaChannels.SimulatedConforms | tests/unit/test_ata.c:57-108 | such a drive, with any delay below the budget, conforms |
| AtaChannels.GoodIs | src/block/ata.c:38-43 | a status is good if and only if, bit by bit, the drive is not busy, has neither fault nor error, and has data |
| Framebuffers.PixelsApart | src/video/framebuffer.c:53-56 | no two pixels share a byte, for every pitch and depth that is accepted |
| Framebuffers.ColourComesBack | src/video/framebuffer.c:63-78 | the bytes written for a colour read as the colour, modulo the pixel's width |
| Framebuffers.Framebuffer.PutThenGet | src/video/framebuffer.c:58-79 | what is put at a pixel is got back modulo the pixel's width, and zero is got outside |
| Framebuffers.Framebuffer.Fill | src/video/framebuffer.c:81-103 | exactly the clipped rectangle is coloured; every other pixel and every byte between rows is kept |
| Framebuffers.Framebuffer.MoveRows | src/video/framebuffer.c:105-129 | every moved row is the old source row although the two ranges overlap, in both directions |
| Terminals.Terminal.Put | src/terminal/terminal.c:83-109 | the pixels go on showing the grid of characters, which changes by wrapping, tabs, newlines and scrolling; the cursor stays on the screen; no padding byte changes |
| Terminals.Terminal.Perform | src/terminal/terminal.c:36-116 | the same for any sequence of characters and changes of colour |
| TerminalPages.Type | src/terminal/terminal.c:29-116 | from any pixels, cleared and typed on: every byte of every pixel is that of the picture of the character that stands there on a page without end, whose last lines are on the screen, in the colour it was typed in, or of the background |
| TerminalPages.ScreenShowsPage | src/terminal/terminal.c:36-109 | the grid is always the last lines of that page |
| TerminalPages.GlyphIsPicture | src/terminal/terminal.c:44-63 | a bit of a glyph is the point of its picture, left to right from the highest; a character without a glyph is a block |
| Terminals.Terminal.Clear | src/terminal/terminal.c:29-34 | from any pixels at all, the screen shows an empty grid |
| Terminals.ScrollShows | src/terminal/terminal.c:67-75 | moving rows up and clearing the last line is scrolling the grid, left-over pixels included |
| Terminals.GlyphShows | src/terminal/terminal.c:49-63 | drawing a glyph changes one cell and no other |
| Terminals.PlainTextIsThere | src/terminal/terminal.c:83-109 | text without control characters that fits is on the screen in reading order, every character in its cell and every other cell blank |

## Left out

- Null-pointer checks and calls on objects that were never set up.
- Checks that cannot fail where they stand: the position bound inside a fragment (src/fs/fat.c:292-295), the checked products and sums on cluster offsets (src/fs/fat.c:69-70, 194-197), the clamp of the cluster count (src/fs/fat.c:101-102), and the product of spans in ext2 (src/fs/ext2.c:126), whose bounds are proved instead.
- FatVolumes.FatVolume.Mount: devices whose sectors are not 512 bytes are left out, because the source then decides on a boot-sector buffer of which part was never read.
- FAT on such devices altogether: everything above mounting is for sectors of 512 bytes.
- GPT tables (src/block/partition.c:68-117) and reading a table from the device (src/block/partition.c:119-131); an MBR that points to a GPT is recognised.
- Long names with missing fragments: what the code collects then is modelled, but that it ought to be refused is not claimed.
- Inodes and paths of ext2 (src/fs/ext2.c:183-242, 291-321): field decoding, and a path walk like the one of FAT.
- AtaChannels.AtaChannel.ReadSectors: the exact result is for addresses whose end is within 2^28 or 2^48, because the 48-bit path of the source does not check its limit.
- IDENTIFY and probing of ATA drives (src/block/ata.c:60-89, 152-196).
- DiskImages.BuildImage: the files are a parameter where the tool passes its configuration and the kernel; the variant without a loader is the case of an empty one and a boot record with only a signature.
- Packing colours into channels (src/video/framebuffer.c:39-51), channel checks, and choosing a video mode.
- Terminals.Terminal.constructor: the refusals of terminal_init are its preconditions.
- Processor.Reaches: physical addresses of 52 bits are assumed, the most an entry can hold; control bits that the loader leaves alone (write protection of supervisor code, SMEP, SMAP, protection keys) and accessed and dirty bits are not modelled.
- Reading configuration space through its two ports (src/pci/pci.c:11-17, src/pci/pci_port.c): a read of a word is a parameter.
- Loading the CR3 register (src/memory/paging.c:165-167), enabling no-execute, and everything else in assembly or inline assembly.
- Whether the kernel's span misses the loader's arena: the source does not establish it.
- The entry point (src/elf/elf.c:212-217) and the choice of the load window in src/boot/main.c.
- The orchestration of the boot, configuration files, ACPI, protocol answers, serial output and the firmware wrappers.
- Timing, concurrency and caches of the hardware.
