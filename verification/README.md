# Kernel data structures, modelled and proved

The project models the index and pointer structures of a small x86_64 kernel and proves that they
agree with simple things: sets, maps, byte sequences, queues. Run `dafny verify dfyconfig.toml` to
check it.

| files | what is modelled | what it is proved to be |
|---|---|---|
| FrameAllocator, FrameAllocatorRuns, MemoryInit | two bitmaps with counters, the byte-skipping first-fit scan, `mm_init` | a set of free frames over every run of calls; the exact set a memory map yields |
| PageTables, AddressSpace | RAM as frames, CR3, the four-level walk, `map_page` building tables out of the allocator's own frames | an update of one page of the translation, tables staying a tree of distinct frames |
| UserImage, ElfLoader, MmioRegion | the ELF segment loop and stack mapping, the MMIO window allocator | the memory image the System V gABI prescribes, but for pages mapped twice; disjoint, lasting device windows |
| SectorDisk, FatTable, FatFile, FatFileIO, FatFileWrite | a disk whose transfers may fail, the FAT cache, cluster allocation, file reads and writes | disjoint acyclic chains; byte sequences patched by a write, other files untouched |
| FatNames, FatDirectory, FatLookup, FatCreateEntry, FatDirectoryIO | 8.3 and long names, directory scan, entry creation | an entry created is an entry found, exactly when it can be |
| RamFile, VfsTree, VfsMounts, Vfs | paged ramfs files, the node tree, path resolution with mounts, descriptors | byte sequences behind descriptors; resolution that is stable and that agrees with creation |
| TransferRing, EventRing, KeyboardTransfers | the EP1 ring, the event ring, the keyboard's request loop, the command ring | producer and consumer protocols with cycle bits over any number of laps |
| KeyboardBuffer | the keyboard's character ring at single loads and stores | a bounded queue under every interleaving |
| Scheduler, DeadlineQueue | run queues linked through the task pool, request lists linked by pointers | fair, balanced queues with exact accounting; a stable priority queue |
| PathNormalizer, TarReader | the shell's in-place path editor, the tar extractor | a component stack; the inverse of writing an archive |

Where the C code changes things in place the model is a class or an array with a loop, proved against
a function, and the theorems are about that function and about runs of calls. Devices, the disk and
interrupt handlers are nondeterministic steps or results.

## What the code does that its comments do not say

- `mm_init` reserves 32 pages for its bitmaps (mm.c:292) and prints that this is what they need; they
  take 128. The reserve is a parameter here: `MemoryInit.ReserveMustCoverBitmaps` and
  `MemoryInit.ReserveMustHoldBitmaps` prove which values keep the bitmaps off free frames and inside memory on
  every machine, `MemoryInit.BitmapsSafeExactly` on which machines a given value keeps them off free frames.
- The FAT32 driver compares a `char` with 0xE5 (fat32_vfs.c:440, 809). `char` is signed on this target,
  so the comparison never holds: deleted slots are neither skipped nor reused
  (`FatDirectory.DeletedNeverSeen`).
- `fat32_create_entry` says a new cluster is "definitely empty enough" and takes any run of free slots.
  An entry placed behind an earlier end marker is invisible; `FatCreateEntry.CreateThenFind` says
  exactly when an entry is found. Long names of 248 to 255 characters are written but never matched, nor are
  those with a byte from 128 on, which reads back as '?', unless the generated short name reads as they do
  (`FatCreateEntry.LongMatches`); a name never matched can be created twice (`FatCreateEntry.LostInEmpty`).
- `ramfs_create` keeps 31 characters of a name (ramfs.c:276), the resolver compares all of them:
  `VfsTree.MadeResolves`.
- A `ramfs_write` that runs out of frames leaves its pages behind the page count. It has taken every
  free frame, and none of them is free or any file's page afterwards: `RamFile.FileStore.Grow`.
- An empty `ramfs_write` at offset 0 computes page number 0 - 1. The file takes all the pages it can have and
  counts none: those it had and those it takes are lost, and readers get nothing although the size stays
  (`RamFile.FileStore.WriteNothing`, through a descriptor `Vfs.VirtualFs.WriteFd`).
- `fat32_write` keeps the number of clusters to skip in 32 bits, so an offset of 2^32 clusters or more is
  written to modulo that: `FatFileWrite.PlaceIs`.
- `vfs_dirname` cuts a directory name to 255 characters, and a file behind a longer one is made where the
  cut leads: `VfsTree.MadeResolves`, `VfsTree.LongDirectoryFails`.
- `vfs_mount` over a directory that is a mount point already marks the root mounted there, which the resolver
  never tests. It succeeds and changes no path: `VfsMounts.MountResolves`.
- The loader's bounds test adds offset and size in 64 bits: `ElfLoader.TestExactly` says when that
  decides.
- A page that two segments share is mapped anew for the second, which loses the bytes of the first:
  `ElfLoader.Load` says what of a segment is visible, `UserImage.RemapLosesPage` what is lost.
- `xhci_queue_kbd_transfer` clears a TRB before filling it. While the producer cycle state is 0 the
  cleared cycle bit already hands the TRB to the controller (`TransferRing.HalfQueuedSeen`, and for the
  Link TRB `TransferRing.HalfLinkedSeen`).
- The Link TRB is rewritten on every lap, so a controller still parked on it needs one slot more than
  the 31 usable ones suggest: `TransferRing.Room` and `TransferRing.OverrunExactly`. A controller once
  overtaken is given nothing until the driver is 63 TRBs ahead, and 62 TRBs are lost
  (`TransferRing.StuckMeanwhile`, `TransferRing.LostForGood`).
- Any event loop but `usb_kbd_poll` drops the keyboard's report without requeueing, and `usb_kbd_poll` requeues
  for every transfer event of the keyboard's slot, also for that of SET_PROTOCOL, which nobody waits for. Each
  such stray event adds a transfer to the one queued at first, each drop takes one away, and with up to 30 at a
  time the keyboard can go on reporting if and only if one is left: `KeyboardTransfers.StallsExactly`. With more the
  ring itself overruns: `KeyboardTransfers.FloodStalls`.
- The tar reader's magic check decides nothing (`TarReader.MagicIgnored`). Directories, devices and FIFOs have
  no data, but the reader skips as many bytes behind them as their size field says:
  `TarReader.EmptyRecordSize`, `TarReader.FileSkipped`, `TarReader.FifoSkipped`.
- `sched_create_task` spreads tasks over all CPUs, but `sched_schedule` runs CPU 0's queue only
  (sched.c:154). A task put elsewhere never runs: `Scheduler.NeverRunsElsewhere`.
- `resolve_path` of an empty path and then of b agrees with "/" + b only where b climbs out of all of cwd:
  `PathNormalizer.EmptyFirstStep`.

## Model

| member | source | states |
|---|---|---|
| FrameAllocator.UpdateFree | kernel/src/impl/kernel/core/mm.c:55-65 | clearing or setting the bit of an index adds or removes exactly that frame from the set of free frames |
| FrameAllocator.FullByte | kernel/src/impl/kernel/core/mm.c:102-103 | a byte 0xFF holds no free frame, so skipping it misses none |
| FrameAllocator.Allocator.TakeFirstFree | kernel/src/impl/kernel/core/mm.c:101-116 | the byte-skipping scan takes the least free frame and fails only when none is free |
| FrameAllocator.Allocator.Free | kernel/src/impl/kernel/core/mm.c:71-98 | pfa_free adds the frame of the address to the free set once and counts it; address 0, free frames and addresses beyond the bitmaps change nothing |
| FrameAllocator.Allocator.AllocLow | kernel/src/impl/kernel/core/mm.c:100-120 | pfa_alloc_low removes and returns the least free low frame, 0 when there is none |
| FrameAllocator.Allocator.Alloc | kernel/src/impl/kernel/core/mm.c:122-142 | pfa_alloc removes and returns the least free frame above four gigabytes, 0 when there is none |
| FrameAllocatorRuns.RunSound | kernel/src/impl/kernel/core/mm.c:71-142 | over every run of page-aligned calls counters match the sets, frames stay in range and frame 0 is never free |
| FrameAllocatorRuns.CountersExact | kernel/src/impl/kernel/core/mm.c:71-142 | each free counter is the number of free bits, and total minus free has grown by the number of successful allocations |
| FrameAllocatorRuns.ResultRange | kernel/src/impl/kernel/core/mm.c:100-142 | results are page aligned, low ones below four gigabytes although their bitmap spans eight, and 0 means exactly that nothing was free |
| FrameAllocatorRuns.FrameZeroLooksLikeFailure | kernel/src/impl/kernel/core/mm.c:71-120 | a result of 0 means "empty or frame 0 free"; frame 0 becomes free exactly by freeing an unaligned address below 4096 |
| FrameAllocatorRuns.StaysTaken | kernel/src/impl/kernel/core/mm.c:71-142 | a frame that is not free stays so until some call frees it |
| FrameAllocatorRuns.NoDoubleHandout | kernel/src/impl/kernel/core/mm.c:71-142 | between two calls that return the same frame there is a call that frees it |
| FrameAllocatorRuns.TakesSmallest | kernel/src/impl/kernel/core/mm.c:100-120 | n allocations in a row leave only frames above all those handed out |
| FrameAllocatorRuns.IncreasingOrder | kernel/src/impl/kernel/core/mm.c:100-120 | successive allocations return increasing frames, all free at the start |
| FrameAllocatorRuns.ContiguousPool | kernel/src/impl/kernel/drivers/xhci.c:527-547 | pages allocated in a row are contiguous if and only if the least free frames are consecutive |
| FrameAllocatorRuns.ConsecutivePages | kernel/src/impl/kernel/drivers/xhci.c:527-547 | when they are, the i-th page is the first plus i |
| MemoryInit.WholePages | kernel/src/impl/kernel/core/mm.c:355-358 | rounding inward keeps exactly the pages that lie wholly inside a usable or reclaimable entry; the entry fits the reserve exactly when its first and last page do |
| MemoryInit.PlacementMeaning | kernel/src/impl/kernel/core/mm.c:301-322 | a placement exists exactly when some offered entry fits the reserve without starting at page 0, and it is the start of the first such entry |
| MemoryInit.FindPlacement | kernel/src/impl/kernel/core/mm.c:301-317 | the placement loop finds the first fitting entry that does not start at 0 |
| MemoryInit.Init | kernel/src/impl/kernel/core/mm.c:267-379 | mm_init frees exactly the pages that lie wholly inside usable or reclaimable entries and are not frame 0, not reserved and inside the bitmaps, for any map with overlaps, with free = total = the size of that set |
| MemoryInit.BitmapsSafeExactly | kernel/src/impl/kernel/core/mm.c:292-343 | no frame left free overlaps the bitmaps if and only if no frame within bitmap range between the end of the reserve and the end of the bitmaps is offered |
| MemoryInit.SmallMachineUnsafe | kernel/src/impl/kernel/core/mm.c:292-343 | a machine with 200 usable pages leaves a frame of its own bitmaps free for every reserve smaller than they are |
| MemoryInit.FarMachineFreesNothing | kernel/src/impl/kernel/core/mm.c:71-98 | a machine whose only region lies beyond the bitmaps' range frees nothing, so no free frame overlaps the bitmaps, which still reach 28 pages past that region |
| MemoryInit.ReserveMustCoverBitmaps | kernel/src/impl/kernel/core/mm.c:292-343 | no memory map leaves a frame of the bitmaps free if and only if the reserve covers the 128 bitmap pages; the 32 pages of the code do not |
| MemoryInit.ReserveMustHoldBitmaps | kernel/src/impl/kernel/core/mm.c:292-334 | the bitmaps lie in offered memory on every memory map if and only if the reserve covers them |
| PageTables.GainWalk | kernel/src/impl/kernel/core/mm.c:193-225 | adding USER, PWT and PCD to an entry changes no walk |
| PageTables.GainExtends | kernel/src/impl/kernel/core/mm.c:193-225 | and with it no translation, no table and no tree property |
| PageTables.HangWalk | kernel/src/impl/kernel/core/mm.c:184-222 | hanging a zeroed free frame into an empty entry adds exactly one table path to the walks |
| PageTables.HangExtends | kernel/src/impl/kernel/core/mm.c:184-222 | it keeps the tables a tree of distinct taken frames and every page its translation |
| PageTables.LeafWrite | kernel/src/impl/kernel/core/mm.c:226-229 | writing a leaf entry changes the translation of exactly that page |
| PageTables.SamePath | kernel/src/impl/kernel/core/mm.c:168-171 | two addresses have the same four indices exactly when they are on the same page (48 bits) |
| PageTables.PathIsAddress | kernel/src/impl/kernel/core/mm.c:168-171 | the four indices and the offset put together again are the low 48 bits of the address |
| PageTables.ExtendsTrans | kernel/src/impl/kernel/core/mm.c:183-226 | steps that keep translations and tables compose |
| PageTables.HangMissing | kernel/src/impl/kernel/core/mm.c:184-222 | a hung table reduces the tables still missing on the path by exactly one |
| PageTables.PassOneMore | kernel/src/impl/kernel/core/mm.c:183-226 | a level that gives the one entry on the page's path its bits extends the entries passed so far, and leaves every other entry of every table |
| PageTables.MappedForUser | kernel/src/impl/kernel/core/mm.c:193-229 | a present page is open to user mode through all four levels if and only if PAGE_USER was asked for, whatever tables were there before |
| PageTables.UserAccessStays | kernel/src/impl/kernel/core/mm.c:193-225 | no page that user mode reached is taken from it by mapping another |
| AddressSpace.Machine.TakeFrame | kernel/src/impl/kernel/core/mm.c:185-189 | a frame taken for a table was free, is memory, and is not free afterwards |
| AddressSpace.Machine.EnsureTable | kernel/src/impl/kernel/core/mm.c:184-196 | one level of the descent: the entry leads to a table; old tables and translations stay; at most one entry changes, which gains exactly the USER, PWT and PCD asked for, or is PRESENT, RW and those if the table is new; nothing changes without a frame |
| AddressSpace.Machine.MapPage | kernel/src/impl/kernel/core/mm.c:167-233 | map_page is a map update: on success exactly the target page translates to phys or-ed with flags, and each upper entry on its path has its old bits and the USER, PWT and PCD of flags, or PRESENT, RW and those if new; entries off the path stay; user mode reaches the page if and only if flags has USER, and every other page it reached; without frames no translation changes; it fails exactly when the tables missing on the path outnumber the free low frames; the tables stay a tree |
| AddressSpace.LevelStep | kernel/src/impl/kernel/core/mm.c:183-226 | frames used so far plus tables still missing stay constant from level to level |
| AddressSpace.StoreKeeps | kernel/src/impl/kernel/core/elf.c:88-98 | a byte store into a frame that is no table changes no walk and no translation |
| AddressSpace.LeafMapsPage | kernel/src/impl/kernel/core/mm.c:226-229 | the leaf store completes the update: one page changes, the upper entries on its path have gained exactly the bits asked for, all others stay |
| AddressSpace.AccessStays | kernel/src/impl/kernel/core/mm.c:167-233 | every page but the target that user mode reached before the call it reaches after it |
| UserImage.ReadSeesImage | kernel/src/impl/kernel/core/elf.c:181-192 | a read through the page tables sees the byte of the frame the loader mapped |
| UserImage.MapExtendsImage | kernel/src/impl/kernel/core/mm.c:167-233 | mapping a fresh frame at any page adds or replaces that page of the image and leaves every byte of the others |
| UserImage.RemapLosesPage | kernel/src/impl/kernel/core/elf.c:181-192 | mapping a page of the image again shows what the fresh frame held, and no page leads to the old frame any more |
| UserImage.FailedMapKeepsImage | kernel/src/impl/kernel/core/mm.c:184-221 | a map_page that ran out of frames leaves image and bytes alone |
| UserImage.StoreInImage | kernel/src/impl/kernel/core/elf.c:88-98 | a store through a user address changes that byte of the image and no other |
| ElfLoader.HeaderFields | kernel/src/impl/kernel/core/elf.c:153-192 | every header field the loader uses is the little-endian number at its offset in the file, as the gABI lays the two headers out |
| ElfLoader.SegmentPages | kernel/src/impl/kernel/core/elf.c:167-171 | the pages of a segment are those its address range meets |
| ElfLoader.PagesCounted | kernel/src/impl/kernel/core/elf.c:153-181 | the page count behind the frames that suffice grows by the pages of each loadable segment and by nothing else |
| ElfLoader.LeafFlagsAre | kernel/src/impl/kernel/core/elf.c:176-179 | a segment's pages are present, writable and open to user mode, and not executable if and only if bit 0 of its fifth header byte is clear |
| ElfLoader.MapUser | kernel/src/impl/kernel/core/elf.c:189 | map_page with USER and PRESENT leaves the page open to user mode on all four levels; three free frames suffice |
| ElfLoader.MapFresh | kernel/src/impl/kernel/core/elf.c:182-189 | one page of a segment gets a frame in no other use |
| ElfLoader.MapRun | kernel/src/impl/kernel/core/elf.c:181-192 | the mapping loop maps exactly the pages of the segment anew and leaves the bytes of all others; four free frames per page suffice |
| ElfLoader.CopyIn | kernel/src/impl/kernel/core/elf.c:203 | elf_memcpy through the tables puts the source bytes at the address and disturbs no other byte of the image |
| ElfLoader.ZeroFill | kernel/src/impl/kernel/core/elf.c:205-211 | elf_memset puts zeros and disturbs nothing else |
| ElfLoader.LoadSegment | kernel/src/impl/kernel/core/elf.c:167-215 | after one segment memory holds its file bytes followed by zeros, and every byte off its pages is what it was |
| ElfLoader.LoadSegments | kernel/src/impl/kernel/core/elf.c:153-215 | the loop leaves of every earlier segment all but the pages a later one has too; -4 is returned only for a segment the bounds test refuses |
| ElfLoader.TestExactly | kernel/src/impl/kernel/core/elf.c:162-165 | the bounds test tells segments inside the file from others if and only if the sum of offset and size does not wrap to a place inside the file |
| ElfLoader.WrappedSumPasses | kernel/src/impl/kernel/core/elf.c:162-165 | a file of 120 bytes whose segment starts at offset 2^64 - 1 passes the test |
| ElfLoader.MapStack | kernel/src/impl/kernel/core/elf.c:222-231 | the stack pages are mapped without touching a byte off them |
| ElfLoader.EverythingVisible | kernel/src/impl/kernel/core/elf.c:153-231 | after loading and stack mapping every segment is visible but for the pages mapped again, and wholly if no pages are shared |
| ElfLoader.LoadedIsVisible | kernel/src/impl/kernel/core/elf.c:203-211 | reading p_vaddr + k through the tables gives file byte p_offset + k below filesz and 0 up to memsz on every page that neither a later segment nor the stack has; each is present, writable, open to user mode on all four levels, and executable if and only if p_flags has bit 0 |
| ElfLoader.SeenWhole | kernel/src/impl/kernel/core/elf.c:153-231 | when no two segments share a page and none has a page of the stack, that is all of every segment |
| ElfLoader.Load | kernel/src/impl/kernel/core/elf.c:127-231 | error codes -1 to -3 exactly for the three kinds of bad header, with memory unchanged; entering means every PT_LOAD segment is visible but for pages mapped again, all of it if no pages are shared, with the access its header asks for; entry point and stack pointer are those of the file and of the stack, whose pages are open to user mode and not executable; no other user page was mapped; four free frames per page of the segments and the stack suffice |
| MmioRegion.Region.Remap | kernel/src/impl/kernel/core/mm.c:399-424 | mmio_remap hands out the next window, maps it uncached and keeps every earlier window; three frames per page suffice |
| MmioRegion.MapKeepsWindows | kernel/src/impl/kernel/core/mm.c:415-418 | mapping a page of the new window leaves the pages of all others |
| MmioRegion.WindowBytes | kernel/src/impl/kernel/core/mm.c:399-424 | byte k of a window translates to physical_addr + k, through an entry that is present, writable, uncached and not executable |
| MmioRegion.CapDecidesCoverage | kernel/src/impl/kernel/core/mm.c:403-407 | the window holds the whole request if and only if it needs at most 64 pages |
| MmioRegion.BigDeviceCut | kernel/src/impl/kernel/core/mm.c:403-407 | the window of a device of 64 pages and one byte ends in front of the last byte |
| MmioRegion.WindowsDisjoint | kernel/src/impl/kernel/core/mm.c:409-420 | windows never overlap |
| SectorDisk.OverwriteMeaning | kernel/src/impl/kernel/fs/fat32_vfs.c:140-148 | a written range reads back as the buffer and nothing outside it changes |
| SectorDisk.FlattenAt | kernel/src/impl/kernel/fs/fat32_vfs.c:129-138 | byte i of consecutive sectors is byte i mod 512 of the (i / 512)-th |
| SectorDisk.Disk.Write | kernel/src/impl/kernel/fs/fat32_vfs.c:91-96 | a disk write succeeds or fails; only sectors of its range can differ |
| FatTable.ChainUnique | kernel/src/impl/kernel/fs/fat32_vfs.c:233-239 | a chain is determined by its first cluster |
| FatTable.ChainLength | kernel/src/impl/kernel/fs/fat32_vfs.c:244-261 | every chain is shorter than the number of clusters, so every walk ends |
| FatTable.FreeIsOnNoChain | kernel/src/impl/kernel/fs/fat32_vfs.c:84-87 | a cluster whose entry is 0 is on no chain |
| FatTable.AllocKeepsForest | kernel/src/impl/kernel/fs/fat32_vfs.c:77-108 | marking a free cluster as end of chain adds a chain of its own and keeps the chains disjoint and acyclic |
| FatTable.LinkKeepsForest | kernel/src/impl/kernel/fs/fat32_vfs.c:111-126 | linking it behind a chain appends it there and leaves every other chain |
| FatFile.ClustersApart | kernel/src/impl/kernel/fs/fat32_vfs.c:72-74 | sector ranges of different clusters are apart from each other, and all lie in the data area, behind the FATs, and on the volume |
| FatFile.ClustersTile | kernel/src/impl/kernel/fs/fat32_vfs.c:72-74 | cluster 2 is at the start of the data area and each further cluster directly behind the one before |
| FatFile.LocateLies | kernel/src/impl/kernel/fs/fat32_vfs.c:72-74 | byte i of a chain of clusters is in the sector, and at the place in it, that plain arithmetic gives from the start of the data area |
| FatFile.ClusterWriteKeeps | kernel/src/impl/kernel/fs/fat32_vfs.c:140-148 | writing a cluster changes no other cluster |
| FatFile.ClusterWriteKeepsFat | kernel/src/impl/kernel/fs/fat32_vfs.c:140-148 | writing a cluster changes no FAT sector, so a FAT on the disk that equals the cache still does |
| FatFile.FatWriteKeepsClusters | kernel/src/impl/kernel/fs/fat32_vfs.c:89-96 | writing the FAT changes no cluster |
| FatFile.RewriteCluster | kernel/src/impl/kernel/fs/fat32_vfs.c:316-322 | rewriting one cluster of a chain changes exactly the bytes at its place in the chain |
| FatFile.Volume.SetEntry | kernel/src/impl/kernel/fs/fat32_vfs.c:63-70 | one entry changes and keeps its top four bits |
| FatFile.Volume.WriteFat | kernel/src/impl/kernel/fs/fat32_vfs.c:89-96 | after a successful write the four bytes of each entry in the first FAT on the disk, least significant first, are the cached entry, and nothing outside it changed |
| FatFile.FatBytesOnDisk | kernel/src/impl/kernel/fs/fat32_vfs.c:89-96 | a first FAT laid out as the cache lies in memory decodes, entry by entry, to the cache |
| FatFile.Volume.AllocCluster | kernel/src/impl/kernel/fs/fat32_vfs.c:77-108 | takes the lowest free cluster as a new one-cluster chain; 0 exactly when none is free or the FAT write failed, and in the second case the cluster stays taken; a FAT written decodes to the cache |
| FatFile.Volume.ExtendChain | kernel/src/impl/kernel/fs/fat32_vfs.c:111-126 | appends the lowest free cluster to the given chain and no other; 0 only when no cluster is free or a write failed; without a failure the first FAT on the disk decodes to the cache |
| FatFileIO.SkipClusters | kernel/src/impl/kernel/fs/fat32_vfs.c:233-239 | following n links reaches the n-th cluster or detects the end of the chain |
| FatFileIO.ReadRun | kernel/src/impl/kernel/fs/fat32_vfs.c:244-261 | the read loop delivers the next bytes of the file in order |
| FatFileIO.ReadFile | kernel/src/impl/kernel/fs/fat32_vfs.c:214-265 | fat32_read returns the slice of the file's bytes at the offset, cut at the size and the chain, each from the sector that plain arithmetic gives for it; a prefix of it only if a transfer failed |
| FatFileWrite.NextCluster | kernel/src/impl/kernel/fs/fat32_vfs.c:328-340 | the next cluster of the chain, allocated at its end; 0 only when no cluster is free or a write failed |
| FatFileWrite.WriteChunk | kernel/src/impl/kernel/fs/fat32_vfs.c:306-326 | one turn of the loop overlays its bytes on the file and on no other |
| FatFileWrite.ChunkDone | kernel/src/impl/kernel/fs/fat32_vfs.c:312-326 | a cluster read, patched and written back, or overwritten whole, is the file with those bytes laid over it |
| FatFileWrite.WriteRun | kernel/src/impl/kernel/fs/fat32_vfs.c:306-341 | the loop overlays a prefix of the buffer, all of it unless a transfer failed or no cluster is free |
| FatFileWrite.HeadOf | kernel/src/impl/kernel/fs/fat32_vfs.c:278-284 | a file without a cluster gets its first one and is a new chain; any other keeps its own |
| FatFileWrite.WriteFile | kernel/src/impl/kernel/fs/fat32_vfs.c:267-352 | a complete fat32_write turns the bytes into the old ones patched with the buffer (past the end: with an undetermined gap), chain long enough for the size, at every offset whose cluster number fits 32 bits; every other file keeps chain and bytes in every case; an early return leaves the size and needs a failed transfer or a full volume; the FAT on the disk stays the cache unless a transfer failed |
| FatFileWrite.PlaceIs | kernel/src/impl/kernel/fs/fat32_vfs.c:287-291 | the write goes to the given offset if and only if the offset's cluster number fits 32 bits |
| FatFileWrite.WriteAt | kernel/src/impl/kernel/fs/fat32_vfs.c:287-341 | from the skip loop on: complete unless a transfer failed or no cluster is free |
| FatFileWrite.OverlayIsPatch | kernel/src/impl/kernel/fs/fat32_vfs.c:316-322 | overlaid clusters are the patched byte sequence |
| FatFileWrite.OtherFileUnchanged | kernel/src/impl/kernel/fs/fat32_vfs.c:267-352 | every other file has the bytes it had |
| FatFileWrite.WriteThenRead | kernel/src/impl/kernel/fs/fat32_vfs.c:213-352 | fat32_write and then fat32_read of any range, without a failed transfer: after a complete write the read gives the old bytes patched, the range written at any offset, and old bytes apart from it; an incomplete write needs a full volume |
| FatNames.StrCaseCmpIsZero | kernel/src/impl/kernel/fs/fat32_vfs.c:388-402 | my_strcasecmp is 0 exactly for names equal up to ASCII case |
| FatNames.ToFatName | kernel/src/impl/kernel/fs/fat32_vfs.c:177-201 | the buffer loops compute the padded upper-case 8.3 form |
| FatNames.ToFatBytes | kernel/src/impl/kernel/fs/fat32_vfs.c:177-201 | each of the eleven bytes: the capital of the character in its place before or behind the first dot, or a space |
| FatNames.ShortRoundTrip | kernel/src/impl/kernel/fs/fat32_vfs.c:151-201 | a name is found under its 8.3 form if and only if it has at most eight characters before the dot, one to three after it, and no space |
| FatNames.LfnChecksum | kernel/src/impl/kernel/fs/fat32_vfs.c:692-698 | the checksum loop starts from 0, and each byte is added to the sum rotated right by one bit, in eight bits |
| FatNames.ChecksumRotates | kernel/src/impl/kernel/fs/fat32_vfs.c:692-698 | the FAT specification's recurrence for the checksum all lookups and entries use |
| FatNames.SqueezeKeeps | kernel/src/impl/kernel/fs/fat32_vfs.c:706-716 | leaving out spaces keeps every other character, capital, in its order |
| FatNames.MadeBytes | kernel/src/impl/kernel/fs/fat32_vfs.c:700-746 | a generated short name: up to six characters before the first dot without spaces, "~1", and up to three behind the last dot, all capital, padded |
| FatNames.MakeShortName | kernel/src/impl/kernel/fs/fat32_vfs.c:700-746 | the loops of make_short_name fill the buffer with it |
| FatNames.WantsLong | kernel/src/impl/kernel/fs/fat32_vfs.c:756-768 | a name gets long-name slots exactly if it has more than eight characters or a lower-case one |
| FatNames.ShortName | kernel/src/impl/kernel/fs/fat32_vfs.c:756-775 | the short name is made for those and the plain 8.3 form otherwise |
| FatNames.ShortStartsNonZero | kernel/src/impl/kernel/fs/fat32_vfs.c:700-746 | a generated short name never looks like an end marker |
| FatNames.MadeRoundTrip | kernel/src/impl/kernel/fs/fat32_vfs.c:151-174 | a generated short name reads as the name it was made from, up to case, if and only if that has fewer than six characters, or six and "~1", in front of its only dot, one to three behind it, and no space |
| FatDirectory.DeletedNeverSeen | kernel/src/impl/kernel/fs/fat32_vfs.c:439-444 | the comparison with 0xE5 never holds for a signed char, so only the end marker is free |
| FatDirectory.AttributeBits | kernel/src/impl/kernel/fs/fat32_vfs.c:447-472 | the attribute tests, in bits: all of 0x0F marks a long-name slot, 0x08 a volume label, 0x10 a directory |
| FatDirectory.ScanPrefix | kernel/src/impl/kernel/fs/fat32_vfs.c:423-541 | the scan of a directory depends only on the slots it has seen |
| FatDirectory.BehindTheEnd | kernel/src/impl/kernel/fs/fat32_vfs.c:433-437 | whatever lies behind the first end marker is invisible |
| FatDirectory.LongSlotDecodes | kernel/src/impl/kernel/fs/fat32_vfs.c:447-468 | the characters of a written long-name slot decode to the name's, bytes from 128 on as '?', a terminator and padding |
| FatDirectory.LongSlotLayout | kernel/src/impl/kernel/fs/fat32_vfs.c:902-934 | every byte of a long-name slot: number with the mark 0x40 on the last, attribute, checksum, and character k of the chunk in two bytes at its offset, then a terminator and padding |
| FatDirectory.LongSlotsOrder | kernel/src/impl/kernel/fs/fat32_vfs.c:899-934 | the slots of a name follow each other last chunk first |
| FatDirectory.ScanAbsorbs | kernel/src/impl/kernel/fs/fat32_vfs.c:447-468 | a run of long-name slots is consumed without a match, last chunk first |
| FatDirectory.AbsorbHolds | kernel/src/impl/kernel/fs/fat32_vfs.c:899-934 | after up to 19 chunks, written in reverse, the buffer holds the whole name, with '?' for every byte from 128 on, and the checksum |
| FatDirectory.HeldNameReads | kernel/src/impl/kernel/fs/fat32_vfs.c:482-487 | the C string in that buffer is that name |
| FatDirectory.ShownIsSame | kernel/src/impl/kernel/fs/fat32_vfs.c:457-466 | which is the name itself, up to case, if and only if it is ASCII |
| FatLookup.ReadsAsIs | kernel/src/impl/kernel/fs/fat32_vfs.c:489-495 | which names a short entry reads as, byte by byte of its name field |
| FatLookup.ShortNameIsFound | kernel/src/impl/kernel/fs/fat32_vfs.c:404-545 | a name that an entry in front of the end marker reads as is found there or earlier, whoever wrote the directory |
| FatLookup.LongNameIsFound | kernel/src/impl/kernel/fs/fat32_vfs.c:404-545 | so is an ASCII name of up to 247 characters whose long-name slots precede an entry with their checksum |
| FatLookup.FoundIsEntry | kernel/src/impl/kernel/fs/fat32_vfs.c:404-545 | what is found is an entry in front of the end marker whose short form or whose long-name slots read as the name |
| FatCreateEntry.PlacedVsEnd | kernel/src/impl/kernel/fs/fat32_vfs.c:786-855 | a new entry never lands in front of the first end marker, and lands on it exactly when there is room there |
| FatCreateEntry.CreatedShape | kernel/src/impl/kernel/fs/fat32_vfs.c:786-961 | slots in front of the entry stay, the entry's slots follow, or are cut off when they outnumber a cluster's |
| FatCreateEntry.LongMatches | kernel/src/impl/kernel/fs/fat32_vfs.c:476-495 | a name with long-name slots matches its own slots if and only if it is ASCII and has at most 247 characters, or its generated short name reads as it does |
| FatCreateEntry.ShortMatches | kernel/src/impl/kernel/fs/fat32_vfs.c:489-495 | a short name matches its slot if and only if it survives the 8.3 form or an unfinished long name in front passes for it |
| FatCreateEntry.CreateThenFind | kernel/src/impl/kernel/fs/fat32_vfs.c:404-961 | create-then-lookup for any name of at most 255 bytes that was not found: the new entry is found if and only if it has room at the end marker and is findable or an unfinished long name in front passes for it; otherwise nothing is found without room, and with room what the scan finds from the slot behind the entry on, nothing if that is free |
| FatCreateEntry.CutShort | kernel/src/impl/kernel/fs/fat32_vfs.c:786-957 | an entry cut off at the end of a cluster matches nothing |
| FatCreateEntry.TooLongIsLost | kernel/src/impl/kernel/fs/fat32_vfs.c:749-961 | a lower-case name of 248 characters is created in an empty directory and not found |
| FatCreateEntry.NonAsciiIsLost | kernel/src/impl/kernel/fs/fat32_vfs.c:457-961 | nor is a name of nine bytes 0xE9 |
| FatCreateEntry.LostInEmpty | kernel/src/impl/kernel/fs/fat32_vfs.c:404-961 | no name that is not findable is found in an empty directory after its create, so it can be created again |
| FatCreateEntry.BehindOneFreeSlot | kernel/src/impl/kernel/fs/fat32_vfs.c:786-855 | with one free slot left in the only cluster "abcdefghi" is created behind it and not found |
| FatCreateEntry.CreateKeepsFound | kernel/src/impl/kernel/fs/fat32_vfs.c:404-961 | no create changes what an existing name is found as, nor its slot |
| FatDirectoryIO.SlotsTrip | kernel/src/impl/kernel/fs/fat32_vfs.c:897-957 | slots written into a cluster buffer are the slots read from it |
| FatDirectoryIO.SlotLies | kernel/src/impl/kernel/fs/fat32_vfs.c:423-433 | byte o of the i-th slot of a directory's k-th cluster is in the sector that plain arithmetic gives for it |
| FatDirectoryIO.TakeLongName | kernel/src/impl/kernel/fs/fat32_vfs.c:447-468 | the long-name branch of the slot loop on its 256-byte buffer |
| FatDirectoryIO.VisitSlot | kernel/src/impl/kernel/fs/fat32_vfs.c:430-537 | one turn of the slot loop |
| FatDirectoryIO.ScanOneMore | kernel/src/impl/kernel/fs/fat32_vfs.c:423-541 | cluster after cluster the loop computes the scan of the whole directory |
| FatDirectoryIO.FindDir | kernel/src/impl/kernel/fs/fat32_vfs.c:404-545 | fat32_finddir returns the slot the scan of all clusters finds; none without a failed transfer means there is none |
| FatDirectoryIO.EntryBytes | kernel/src/impl/kernel/fs/fat32_vfs.c:936-950 | a new entry holds its attribute, no size, and the first cluster in two halves |
| FatDirectoryIO.ChildFields | kernel/src/impl/kernel/fs/fat32_vfs.c:509-526 | size and first cluster of the node are the little-endian numbers at their offsets in the entry, and it is a directory exactly if attribute bit 0x10 is set |
| FatDirectoryIO.EntryReadsBack | kernel/src/impl/kernel/fs/fat32_vfs.c:509-526 | such an entry reads back as an empty node of the right kind at its first cluster |
| FatDirectoryIO.FindFree | kernel/src/impl/kernel/fs/fat32_vfs.c:807-832 | the nested loops find the first run of enough free slots |
| FatDirectoryIO.CreatedAt | kernel/src/impl/kernel/fs/fat32_vfs.c:799-855 | putting the slots at the place found is creating the entry in the directory |
| FatDirectoryIO.ExtendDirectory | kernel/src/impl/kernel/fs/fat32_vfs.c:838-853 | a directory without room gets one zeroed cluster, every old slot and every other file stays; it gets none only when none is free or a transfer failed |
| FatDirectoryIO.NewDirectory | kernel/src/impl/kernel/fs/fat32_vfs.c:864-893 | a new directory gets a cluster of its own holding "." and "..", with 0 for a parent that is the root |
| FatDirectoryIO.DotsFound | kernel/src/impl/kernel/fs/fat32_vfs.c:864-893 | in a new directory exactly "." and ".." are found, and they lead to its own cluster and to the parent's |
| FatDirectoryIO.FillEntries | kernel/src/impl/kernel/fs/fat32_vfs.c:899-954 | the loops write exactly the new slots, last chunk first |
| FatDirectoryIO.CreateEntry | kernel/src/impl/kernel/fs/fat32_vfs.c:749-961 | fat32_create_entry turns the directory into the one with the entry created and leaves every other file; -1 leaves every slot and needs a failed transfer or a full volume |
| FatDirectoryIO.Create | kernel/src/impl/kernel/fs/fat32_vfs.c:963-991 | without a failed transfer and with a cluster free at the end, fat32_create refuses exactly the names that lookup finds and creates the others |
| FatDirectoryIO.CreatedIsFound | kernel/src/impl/kernel/fs/fat32_vfs.c:404-991 | after a create without failed transfers lookup yields the new empty node if and only if the entry can be found, nothing otherwise unless slots in use lie right behind the entry, and every earlier name what it yielded before |
| Basics.PatchReadsBack | kernel/src/impl/kernel/fs/ramfs.c:81-200 | reading the written range gives the data, any range apart from it the old bytes (ramfs and FAT32) |
| RamFile.PagesCounted | kernel/src/impl/kernel/fs/ramfs.c:117-120 | counting freshly taken pages keeps all page frames of all files distinct |
| RamFile.ChunkStored | kernel/src/impl/kernel/fs/ramfs.c:127-145 | one turn of the copy loop lays its bytes over the file and touches no other frame |
| RamFile.FileStore.AddPages | kernel/src/impl/kernel/fs/ramfs.c:107-115 | the allocation loop takes distinct fresh frames up to the last page, or all that are left |
| RamFile.FileStore.Grow | kernel/src/impl/kernel/fs/ramfs.c:107-120 | the allocation loop succeeds if and only if the missing pages fit the free low frames; otherwise it takes them all, and each of them is afterwards neither free nor a page of any file; no frame once lost comes back |
| RamFile.GrowOwns | kernel/src/impl/kernel/fs/ramfs.c:108-121 | growing takes pages from the free frames only, and what an unfinished run has taken belongs to nobody |
| RamFile.FileStore.WriteNothing | kernel/src/impl/kernel/fs/ramfs.c:105-121 | an empty write at offset 0 takes exactly the pages the file lacks of all it can have and then counts none: every frame it had and every frame taken is afterwards neither free nor a page of any file, and a reader gets nothing |
| RamFile.FileStore.CopyIn | kernel/src/impl/kernel/fs/ramfs.c:122-145 | the copy loop |
| RamFile.FileStore.Read | kernel/src/impl/kernel/fs/ramfs.c:156-200 | ramfs_read returns the slice of the file's visible bytes, which end where the size or the page count ends |
| RamFile.FileStore.WriteTo | kernel/src/impl/kernel/fs/ramfs.c:103-152 | without frames the bytes are unchanged and no low frame is left; otherwise the range written holds the data and every old byte outside it stays, at every offset |
| RamFile.LaidIsPatch | kernel/src/impl/kernel/fs/ramfs.c:122-150 | within the old bytes or right behind them that is patching |
| RamFile.FileStore.Write | kernel/src/impl/kernel/fs/ramfs.c:81-153 | ramfs_write lays the data over the bytes, or empties the file for an empty write at offset 0; it fails exactly for want of a pool entry or of frames, takes exactly the pages it lacks, and no other file's pages change |
| RamFile.OtherBytes | kernel/src/impl/kernel/fs/ramfs.c:81-153 | a file that is not written keeps its bytes |
| VfsTree.ComponentsSplit | kernel/src/impl/kernel/fs/vfs.c:252-262 | a slash separates components wherever it stands, doubled or trailing slashes included |
| VfsTree.ResolveSplit | kernel/src/impl/kernel/fs/vfs.c:232-284 | resolving p/q is resolving p and walking q from there |
| VfsTree.ResolveChild | kernel/src/impl/kernel/fs/vfs.c:232-284 | resolving p/c is one lookup, with mount crossing, from where p leads |
| VfsTree.AddChildGrows | kernel/src/impl/kernel/fs/ramfs.c:245-283 | ramfs_create keeps the tree well formed and everything that was there, and adds one node: an empty directory if the directory flag was given, an empty file otherwise |
| VfsTree.MakesExactly | kernel/src/impl/kernel/fs/vfs.c:439-493 | a create succeeds exactly if fewer than 64 nodes exist and the directory name leads to a directory with one of its 64 slots free |
| VfsTree.StepStable | kernel/src/impl/kernel/fs/ramfs.c:202-223 | a child once found is found for good, even beside a later duplicate of its name |
| VfsTree.ResolveStable | kernel/src/impl/kernel/fs/vfs.c:232-284 | a create or mkdir never changes what a resolving path resolves to |
| VfsTree.StableOverRuns | kernel/src/impl/kernel/fs/vfs.c:439-493 | nor does any run of them |
| VfsTree.ResolveParts | kernel/src/impl/kernel/fs/vfs.c:204-230 | a path resolves as what lies in front of its base name, then the base name |
| VfsTree.AddedIsFound | kernel/src/impl/kernel/fs/ramfs.c:202-283 | the only lookup that newly succeeds is that of the kept name in the directory of the new child |
| VfsTree.NewWalks | kernel/src/impl/kernel/fs/vfs.c:230-284 | a walk that failed before a create succeeds after it if and only if it ends with the kept name in the directory of the new child |
| VfsTree.MadeResolves | kernel/src/impl/kernel/fs/vfs.c:439-493 | after a create of a path that did not resolve, it resolves to the new node, a directory exactly if mkdir was asked for, if and only if the base name has at most 31 characters and the directory name, cut to 255 characters, leads where all of it leads |
| VfsTree.LongNameFails | kernel/src/impl/kernel/fs/ramfs.c:270-283 | in an empty root a name of 32 characters is created and not found |
| VfsTree.LongDirectoryFails | kernel/src/impl/kernel/fs/vfs.c:213-228 | a path behind 255 slashes is created in the root and not found |
| VfsTree.FindChild | kernel/src/impl/kernel/fs/ramfs.c:202-223 | the slot and character loops of ramfs_finddir |
| VfsTree.NextComponent | kernel/src/impl/kernel/fs/vfs.c:253-260 | the component loop |
| VfsTree.ResolvePath | kernel/src/impl/kernel/fs/vfs.c:232-284 | vfs_resolve_path walks the components of the path |
| VfsTree.BaseName | kernel/src/impl/kernel/fs/vfs.c:204-210 | the part behind the last slash |
| VfsTree.DirName | kernel/src/impl/kernel/fs/vfs.c:212-230 | the part in front of the last slash, "/" for the root, cut to 255 characters |
| VfsMounts.MountsExactly | kernel/src/impl/kernel/fs/vfs.c:112-176 | a mount succeeds exactly if fewer than 16 mounts and 64 nodes exist and the path is "/" or leads to a directory; it uses up a node of the pool even when it fails for want of a directory |
| VfsMounts.MountKeeps | kernel/src/impl/kernel/fs/vfs.c:112-176 | vfs_mount keeps the tree well formed, children and mounted roots younger than what leads to them |
| VfsMounts.WalkBelowMount | kernel/src/impl/kernel/fs/vfs.c:252-281 | walks that end at nodes older than the mount point never meet it |
| VfsMounts.WalkPastRoot | kernel/src/impl/kernel/fs/vfs.c:252-281 | walks never meet a mount on a mounted root, for it is nobody's child |
| VfsMounts.WalkAfterMount | kernel/src/impl/kernel/fs/vfs.c:252-281 | a walk that meets the mount point ends at the new root or nowhere, any other where it ended |
| VfsMounts.MountResolves | kernel/src/impl/kernel/fs/vfs.c:145-171 | a successful mount takes effect if and only if nothing was mounted on the directory: its path then resolves to the new root, paths behind it to nothing, and every path that does not meet it as before; otherwise the path goes on leading to the old root and every path resolves as before |
| VfsMounts.MountAtRoot | kernel/src/impl/kernel/fs/vfs.c:138-144 | a mount on "/" leaves no path but those to the root itself |
| Vfs.VirtualFs.MakeNode | kernel/src/impl/kernel/fs/vfs.c:439-493 | vfs_create and vfs_mkdir create a node of their kind in the tree, or change nothing |
| Vfs.VirtualFs.MountRam | kernel/src/impl/kernel/fs/vfs.c:112-176 | vfs_mount of a ramfs |
| Vfs.VirtualFs.Open | kernel/src/impl/kernel/fs/vfs.c:286-328 | vfs_open resolves or creates, takes the first free descriptor from 3 on, and starts at 0 or at the size |
| Vfs.VirtualFs.Close | kernel/src/impl/kernel/fs/vfs.c:330-344 | one reference less on that descriptor only |
| Vfs.VirtualFs.ReadFd | kernel/src/impl/kernel/fs/vfs.c:346-362 | vfs_read returns the slice of the file at the descriptor's offset, as long as the low 32 bits of the count, and moves the offset by what it returned |
| Vfs.VirtualFs.WriteFd | kernel/src/impl/kernel/fs/vfs.c:364-380 | lays the data over the node's bytes at the descriptor's offset and advances it; an empty write at offset 0 leaves the offset and empties the node; every other node keeps its bytes; a failed write changes no content |
| Vfs.WriteChunks | kernel/src/impl/kernel/fs/vfs.c:363-380 | successive vfs_write calls through a descriptor at the end of its file append chunk after chunk, empty ones included, change no other node, and succeed to the last if and only if there is file data and room for all |
| Vfs.NeededMore | kernel/src/impl/kernel/fs/ramfs.c:105-120 | the frames a run of writes takes: those the last write lacks and, for each empty write at offset 0 before it, all that a file can have |
| Vfs.Store | kernel/src/impl/kernel/fs/vfs.c:286-380 | vfs_open of a new path, vfs_write of the chunks and vfs_close leave a file with their concatenation; vfs_open fails exactly when the path cannot be made or found or no descriptor is free |
| Vfs.StoreThenLoad | kernel/src/impl/kernel/fs/vfs.c:286-380 | opened and read again, the file gives the concatenation of the chunks written |
| TransferRing.QueueKeeps | kernel/src/impl/kernel/drivers/xhci.c:1116-1150 | queueing with room keeps both sides of the ring in step over any number of laps |
| TransferRing.FetchMeaning | kernel/src/impl/kernel/drivers/xhci.c:1116-1150 | a controller after section 4.9.2 of the xHCI specification finds the oldest outstanding TRB, the valid Link TRB, or an empty ring |
| TransferRing.OverrunExactly | kernel/src/impl/kernel/drivers/xhci.c:1116-1150 | queueing keeps driver and controller in step if and only if there is room; without room the driver is a lap ahead |
| TransferRing.FetchAnyway | kernel/src/impl/kernel/drivers/xhci.c:1126-1152 | for any number of TRBs queued, a fetch delivers the newest TRB of its slot if that is an even number of laps ahead and nothing if it is an odd number |
| TransferRing.StuckMeanwhile | kernel/src/impl/kernel/drivers/xhci.c:1126-1152 | an overtaken controller is given nothing on any run until the driver is 63 TRBs ahead |
| TransferRing.ResumesLate | kernel/src/impl/kernel/drivers/xhci.c:1126-1152 | then it goes on with the TRB 62 after the one due |
| TransferRing.LostForGood | kernel/src/impl/kernel/drivers/xhci.c:1126-1152 | on every run after an overrun each TRB delivered is one queued at least 62 after the one due, so the 62 due next are never delivered |
| TransferRing.DisciplineDecides | kernel/src/impl/kernel/drivers/xhci.c:1116-1152 | over every run, waiting for room before each TRB is exactly what keeps the two in step |
| TransferRing.SixtyThreeQueued | kernel/src/impl/kernel/drivers/xhci.c:1126-1152 | the first TRB delivered out of 63 queued without a fetch is the last |
| TransferRing.EachOnceInOrder | kernel/src/impl/kernel/drivers/xhci.c:1116-1150 | over every run the TRBs fetched are well-formed 8-byte transfers of the buffers queued, each once and in order |
| TransferRing.EagerRoom | kernel/src/impl/kernel/drivers/xhci.c:1116-1150 | for a controller that follows the Link TRB at once, room means at most 30 outstanding |
| TransferRing.NextDelivered | kernel/src/impl/kernel/drivers/xhci.c:1116-1150 | two fetches deliver the oldest outstanding TRB; with none outstanding nothing is delivered |
| TransferRing.HalfQueuedSeen | kernel/src/impl/kernel/drivers/xhci.c:1123-1131 | a controller that fetches between the stores is disturbed if and only if it waits at that slot and the producer cycle state is 0 |
| TransferRing.HalfQueuedFails | kernel/src/impl/kernel/drivers/xhci.c:1126-1134 | in the second lap a controller without backlog is given the TRB before it is filled in |
| TransferRing.HalfLinkedSeen | kernel/src/impl/kernel/drivers/xhci.c:1138-1145 | while the Link TRB is rewritten, a controller is given a TRB nobody queued if and only if it waits there with consumer cycle state 0 and the TRB is not a Link TRB yet |
| TransferRing.HalfLinkedFails | kernel/src/impl/kernel/drivers/xhci.c:1138-1145 | at the end of the second lap a controller waiting on the Link TRB takes the cleared one |
| TransferRing.KeyboardRing.QueueTransfer | kernel/src/impl/kernel/drivers/xhci.c:1116-1146 | the stores of xhci_queue_kbd_transfer amount to one queue step |
| EventRing.ConsumeMeaning | kernel/src/impl/kernel/drivers/xhci.c:1161-1172 | the consumer gets the oldest unseen event, and nothing when there is none |
| EventRing.ConsumeKeeps | kernel/src/impl/kernel/drivers/xhci.c:281-296 | pointer and cycle state stay functions of the number of events consumed |
| EventRing.OverrunHides | kernel/src/impl/kernel/drivers/xhci.c:788-798 | a post into a full ring hides all pending events |
| EventRing.EachEventOnce | kernel/src/impl/kernel/drivers/xhci.c:982-1000 | over every run with a controller that respects the published pointer each event is consumed once and in order |
| EventRing.Poller.Next | kernel/src/impl/kernel/drivers/xhci.c:1161-1172 | the steps common to the four polling loops |
| EventRing.Poller.Flush | kernel/src/impl/kernel/drivers/xhci.c:787-802 | the flush loop consumes every pending event and publishes once |
| KeyboardTransfers.TakeKeeps | kernel/src/impl/kernel/drivers/xhci.c:1156-1184 | in every state a stray event of the slot brings a token, an event that passes for a report and is dropped takes one, and no other step changes their number |
| KeyboardTransfers.PollRequeues | kernel/src/impl/kernel/drivers/xhci.c:1156-1184 | a turn of usb_kbd_poll takes the oldest event and queues exactly one transfer more, into the buffer given, if that event is a transfer event of the keyboard's slot, and none otherwise |
| KeyboardTransfers.TokensAfter | kernel/src/impl/kernel/drivers/xhci.c:1071-1184 | after every run the tokens are those at the start, plus one for each stray transfer event of the slot, minus one for each event that passed for a report and was dropped |
| KeyboardTransfers.NeverOverruns | kernel/src/impl/kernel/drivers/xhci.c:1116-1184 | on a run with at most 30 tokens at any time the ring never overruns, however often it wraps |
| KeyboardTransfers.FewStrays | kernel/src/impl/kernel/drivers/xhci.c:1071-1184 | a run whose stray events and first tokens are at most 30 is one |
| KeyboardTransfers.TokenReports | kernel/src/impl/kernel/drivers/xhci.c:1156-1184 | with a token and the ring in step a further report is always possible: poll a pending event, fetch what is queued, poll for room, complete |
| KeyboardTransfers.StallsExactly | kernel/src/impl/kernel/drivers/xhci.c:1068-1184 | after any run from the start with at most 30 tokens at any time the keyboard can report again if and only if fewer events that pass for reports were dropped than there were tokens, one and one more for each stray event |
| KeyboardTransfers.DroppedAtOnce | kernel/src/impl/kernel/drivers/xhci.c:788-802 | a run of three steps that stalls the keyboard: the first report meets another polling loop |
| KeyboardTransfers.StrayMakesGood | kernel/src/impl/kernel/drivers/xhci.c:1099-1182 | behind the stray event of SET_PROTOCOL the same loss does no harm |
| KeyboardTransfers.FloodStalls | kernel/src/impl/kernel/drivers/xhci.c:1116-1184 | 31 stray events overrun the ring: nothing was dropped, yet the keyboard cannot report |
| KeyboardTransfers.SilentWithoutToken | kernel/src/impl/kernel/drivers/xhci.c:239-318 | without a token no transfer is fetched and no report posted on any later run without stray events |
| KeyboardTransfers.CommandRing.Send | kernel/src/impl/kernel/drivers/xhci.c:239-269 | the ring accepts 30 commands and no more; the wrap-around branch is unreachable |
| KeyboardBuffer.ProducerKeeps | kernel/src/impl/kernel/drivers/ps2.c:24-30 | every single load and store of input_add_char keeps the queue invariant |
| KeyboardBuffer.ConsumerKeeps | kernel/src/impl/kernel/drivers/ps2.c:236-249 | every single load and store of the dequeue keeps it |
| KeyboardBuffer.FullMeans | kernel/src/impl/kernel/drivers/ps2.c:25-26 | the test finds the ring full exactly with 255 characters pending |
| KeyboardBuffer.DeliveredInOrder | kernel/src/impl/kernel/drivers/ps2.c:24-30 | under every interleaving what is delivered is a prefix of what was accepted, at most 255 characters are pending, and accepted and dropped characters make up those offered, each in its order |
| KeyboardBuffer.DroppedOnlyWhenFull | kernel/src/impl/kernel/drivers/ps2.c:25-29 | a character is dropped if and only if 255 are pending at the check |
| KeyboardBuffer.EmptyOnlyWhenEmpty | kernel/src/impl/kernel/drivers/ps2.c:245-246 | the ring is found empty if and only if it was empty when in_head was loaded |
| KeyboardBuffer.ProducerSettles | kernel/src/impl/kernel/drivers/ps2.c:24-30 | from any point of input_add_char at most four steps of its own end it: with the character accepted, unless 255 were pending at the check |
| KeyboardBuffer.ConsumerSettles | kernel/src/impl/kernel/drivers/ps2.c:236-249 | from any point of the dequeue at most five steps of its own end it: with the oldest character, unless the ring was empty when in_head was loaded |
| KeyboardBuffer.InputBuffer.Add | kernel/src/impl/kernel/drivers/ps2.c:24-30 | undisturbed: appends, or drops the 256th character |
| KeyboardBuffer.InputBuffer.TryGet | kernel/src/impl/kernel/drivers/ps2.c:245-249 | undisturbed: takes the oldest character, or reports none |
| Scheduler.TargetMeaning | kernel/src/impl/kernel/core/sched.c:113-134 | the target is the first least loaded eligible CPU, and CPU 0 when none is eligible |
| Scheduler.Rotated | kernel/src/impl/kernel/core/sched.c:161-175 | moving the head behind the tail keeps every task in exactly one queue |
| Scheduler.InvOverRuns | kernel/src/impl/kernel/core/sched.c:103-195 | over every run queues are without repetition or sharing, each task is in exactly one, 1 <= slice <= 10 and (runtime + slice) mod 10 = 0 |
| Scheduler.BalancedOverRuns | kernel/src/impl/kernel/core/sched.c:113-140 | with the eligible CPUs fixed their loads differ by at most one |
| Scheduler.TickCharges | kernel/src/impl/kernel/core/sched.c:179-195 | a tick adds one to the runtime of the task that CPU 0 runs, if CPU 0 is online, and to no other |
| Scheduler.RuntimeOverRuns | kernel/src/impl/kernel/core/sched.c:152-195 | over every run a task's runtime grows by the number of ticks at which it was CPU 0's, and its slice is what that leaves of ten |
| Scheduler.RunsSoon | kernel/src/impl/kernel/core/sched.c:138-177 | a task at position k of CPU 0's queue runs within k + 1 schedules plus one per task created there meanwhile |
| Scheduler.NeverRunsElsewhere | kernel/src/impl/kernel/core/sched.c:103-177 | a task queued on any CPU but the first never runs, on any run |
| Scheduler.ChainRotate | kernel/src/impl/kernel/core/sched.c:164-175 | relinking head and tail yields the rotated queue |
| Scheduler.TaskScheduler.CreateTask | kernel/src/impl/kernel/core/sched.c:103-145 | sched_create_task on the linked queues pushes the task at the head of the target's queue |
| Scheduler.TaskScheduler.Schedule | kernel/src/impl/kernel/core/sched.c:152-177 | sched_schedule on the linked queues rotates CPU 0's queue and runs its old head, or the idle task |
| Scheduler.TaskScheduler.Tick | kernel/src/impl/kernel/core/sched.c:179-195 | sched_tick runs down the slice of each current task |
| DeadlineQueue.InsertSorted | kernel/src/impl/kernel/core/blk.c:43-54 | insertion keeps a list in deadline order |
| DeadlineQueue.InsertDue | kernel/src/impl/kernel/core/blk.c:49-53 | ties stay in order of arrival |
| DeadlineQueue.StableSortUnique | kernel/src/impl/kernel/core/blk.c:39-55 | only one list is the stable deadline sort of another |
| DeadlineQueue.InsertAllSorts | kernel/src/impl/kernel/core/blk.c:39-55 | inserting a batch gives its stable deadline sort |
| DeadlineQueue.DrainSortsBatch | kernel/src/impl/kernel/core/blk.c:57-70 | draining a submitted batch yields the stable sort of the reads followed by that of the writes |
| DeadlineQueue.Conserved | kernel/src/impl/kernel/core/blk.c:150-161 | over every run what was submitted is what was dispatched and what is queued |
| DeadlineQueue.DispatchedIsUrgent | kernel/src/impl/kernel/core/blk.c:57-70 | a dispatched request is a read if any is queued, and none of its kind is due earlier |
| DeadlineQueue.BlockLayer.Add | kernel/src/impl/kernel/core/blk.c:39-55 | mq_deadline_add on the linked lists is the insertion |
| DeadlineQueue.BlockLayer.GetNext | kernel/src/impl/kernel/core/blk.c:57-70 | mq_deadline_get_next on the linked lists takes the first request |
| PathNormalizer.ResolvePath | kernel/src/impl/init/main.c:126-209 | the buffer algorithm computes the component-stack normal form, for input of any length, when every path on the way fits the buffer |
| PathNormalizer.PopHolds | kernel/src/impl/init/main.c:168-176 | cutting the buffer at a slash pops one component, with or without a trailing slash |
| PathNormalizer.AppendHolds | kernel/src/impl/init/main.c:177-187 | appending pushes one component |
| PathNormalizer.ResultCanonical | kernel/src/impl/init/main.c:126-209 | the result is absolute, without empty, "." or ".." components and without a trailing slash except for the root |
| PathNormalizer.Idempotent | kernel/src/impl/init/main.c:126-209 | resolving a result again changes nothing |
| PathNormalizer.ResolveInSteps | kernel/src/impl/init/main.c:126-209 | resolving a and then b is resolving a/b, for a not empty and b not absolute |
| PathNormalizer.EmptyFirstStep | kernel/src/impl/init/main.c:131-135 | for an empty a it holds if and only if b climbs, by "..", over every component of cwd |
| PathNormalizer.NormAbove | kernel/src/impl/init/main.c:164-176 | of the directories below a stack exactly as many are lost as the components climb |
| PathNormalizer.EmptyFirstStepFails | kernel/src/impl/init/main.c:131-135 | from /a, an empty step and then x is not /x |
| TarReader.OctalToNumber | kernel/src/impl/kernel/core/tar_extract.c:50-56 | the accumulator loop reads the leading octal digits |
| TarReader.OctalTrip | kernel/src/impl/kernel/core/tar_extract.c:50-56 | eleven octal digits of a size below 8^11 read back as the size |
| TarReader.OctalEnds | kernel/src/impl/kernel/core/tar_extract.c:50-56 | the first character that is no octal digit ends the number, whatever lies behind it |
| TarReader.MagicIgnored | kernel/src/impl/kernel/core/tar_extract.c:78-90 | the magic number decides nothing: the all-zero test behind it can never hold |
| TarReader.ExtractAll | kernel/src/impl/kernel/core/tar_extract.c:63-124 | the loop makes the callbacks of the headers in order, up to the first that refuses, ends on every byte string, and returns -1 for less than a block |
| TarReader.ScanInvertsWriting | kernel/src/impl/kernel/core/tar_extract.c:70-121 | on any archive whose directories, devices and FIFOs have size field 0 the callbacks are exactly the regular files and directories, in order |
| TarReader.EmptyRecordSize | kernel/src/impl/kernel/core/tar_extract.c:92-121 | behind a directory, device or FIFO the next header is read where it lies if and only if the size field is 0 |
| TarReader.FileSkipped | kernel/src/impl/kernel/core/tar_extract.c:92-121 | archives with such a record of size 512 of which the reader does not see the empty file behind |
| TarReader.FifoSkipped | kernel/src/impl/kernel/core/tar_extract.c:92-121 | one of them, a FIFO and a file, gives no callback at all |
| TarReader.ExactSlices | kernel/src/impl/kernel/core/tar_extract.c:98-107 | each file callback points at exactly the file's data |
| TarReader.ReadInvertsWrite | kernel/src/impl/kernel/core/tar_extract.c:63-124 | reading a written archive whose directories, devices and FIFOs have size field 0 returns 0 and gives back its files and directories |

## Left out

What the theorems assume of the surroundings:

- Live page tables are taken frames, and tables form a tree, when `map_page` starts: `mm_init` releases bootloader-reclaimable memory, so this is a precondition of `AddressSpace.Machine`, then kept by every call.
- Huge pages are excluded only on the walked path; `map_page` does not test for them.
- The frame bitmaps are kept apart from the modelled RAM; whether they overlap free frames is the subject of `MemoryInit`.
- A frame is either a table of entries or a page of bytes; a table frame is zeroed when it becomes a table.
- Addresses are 48 bits for translation; sums of base and length in the memory map stay below 2^64.
- The FAT32 driver is the build with AHCI, cluster size at most one page, the FAT within its one-page cache, and every number below the driver's cluster count a real cluster.
- Buffers the drivers take from `pfa_alloc` are assumed to be there (the code tests some and not others).
- Names are C strings without a terminator inside.
- `ramfs_write` of ranges past 128 pages is excluded, because it indexes past the page array.
- The EP1 driver fills one parameter, one report buffer; the model lets the parameter vary so that order can be stated.
- A controller posts a transfer event of the keyboard's EP1 ring only for a TRB it fetched; transfer events of its slot for EP0 may come at any time.
- The keyboard ring has one producer; `input_add_char` is also reachable from a polling call that an interrupt can preempt, which would make two.
- The eligible CPUs are fixed in `BalancedOverRuns`; SMP and SMT scheduling are configured in.
- `resolve_path` is called with a canonical cwd, and every path on the way fits its buffer.

Members whose contract says less than the code does:

- ElfLoader.LoadSegments: a copy that would leave the file, because the sum in the bounds test has wrapped, ends the model, for what lies behind the file in kernel memory is unknown; segments lie in the user half of the address space.
- ElfLoader.LoadSegment: a segment with a page whose tables cannot be allocated counts as a fault at once; the code goes on and faults in the copy. Supervisor access bits, SMEP and SMAP switches and the jump itself are not modelled.
- RamFile.FileStore.Write: ranges past 128 pages are excluded, as under `WriteTo` and `Vfs.VirtualFs.WriteFd`, which lead to it.
- PathNormalizer.ResolvePath: an input on whose way a path gets longer than 127 characters is excluded; the code then cuts a component short or writes past the buffer.
- FatDirectoryIO.FindDir: the new node's name field is not modelled, only the slot found and what `ChildOf` reads from it.
- AddressSpace.Machine.MapPage: the TLB flush and the memory fence are not modelled.

Not modelled:

- `vfs_unmount`: it shifts mount slots that nodes point into, so resolution is not preserved; the mount table only grows here.
- `vfs_seek`, `vfs_tell`, `vfs_readdir`, `vfs_unlink`, `fat32_readdir`: routine beside the operations modelled.
- FAT32 mounting, the boot sector, free-space info and the second FAT.
- `mmio_map_low` and `virt_to_phys`: special cases of the walk already proved.
- The EP0 control transfers: they reuse slot 0 of their ring, so no ring protocol holds for them.
- xHCI register setup, port handling, contexts and time-outs; PS/2 scancodes and USB HID decoding.
- AHCI, ACPI, serial, console, graphics, the panic shell, system calls, devfs, procfs, and the userland programs.
- Switching contexts: the scheduler never blocks a task or saves a context, so every task stays ready.
- Merging and sorting by sector in the block layer: the code does neither.
