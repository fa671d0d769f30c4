# RoverOS memory subsystem: model and proofs

This project models the code of RoverOS that decides which physical frame, virtual page or heap byte belongs to whom,
and proves what that code promises: four-level x86_64 page tables (kernel and bootloader), the kernel heap, vmalloc, the
buddy allocator, the slab allocator, the ELF loader, the ramdisk format and the hexadecimal printer. Everything is
sequential. `dafny verify dfyconfig.toml` checks the whole project.

| files | what they hold |
|---|---|
| `Words.dfy`, `PageBits.dfy` | machine words with OR and one-bit tests, entries, flags, masks and page indices |
| `PageTables.dfy`, `PageWrites.dfy` | the tree of tables in memory, the two walks, and what a store does to the tree |
| `FramePool.dfy`, `Dstack.dfy`, `KernelPaging.dfy` | the frame stack, `mapPage`, `mapPages` and runs of them |
| `BootPaging.dfy`, `ElfLoader.dfy` | the bump allocator, the bootloader's tables, the identity map, the loaded image |
| `Markers.dfy`, `FrameSource.dfy`, `Vmm.dfy` | the marker list, `getPhysmem`, `vmalloc`, `vmallocPhys` and whole runs |
| `HeapList.dfy` | the kernel heap as the list of its blocks: tiling, accounting, coalescing, whole runs |
| `HeapMemory.dfy`, `KernelHeap.dfy` | the same heap as headers, redzones and payload bytes in memory, and the code on it |
| `PhysOrder.dfy` | how a request picks a buddy order |
| `BuddyMap.dfy`, `BuddyWords.dfy`, `Buddy.dfy` | the bitmaps of all orders, their words and counters, and the code on them |
| `BuddyRun.dfy` | what any sequence of buddy calls hands out, reserves and gives back, and the code doing so |
| `Slab.dfy` | caches, slabs and objects |
| `RamdiskImage.dfy`, `Ramdisk.dfy` | the image format, the tool that writes it and the kernel code that reads it |
| `HexPrinter.dfy` | `writeHex` |

## How it is modelled

- Words and addresses are natural numbers, with wrap-around and truncation written out where the source's widths matter.
  Physical memory of the paging code is a map from (table, index) to a word. Tables are addressed physically.
- Objects that the source updates in place are classes, and their methods are proved against functions and predicates on
  values: a tree of tables, a list of heap blocks, the maps of the buddy orders. The main results are lemmas about those,
  most of them over all runs.
- What comes from elsewhere is a parameter: the answers of `allocPool`, the blocks that `allocPhys` hands to the two frame
  stacks, the chunk that `vmalloc` gives to `extendHeap`, the memory that `newSlab` gets, the bytes of a file.
- Physical memory of the loader is in two parts: the frames handed out for tables, as words, and all other bytes. A segment
  whose bytes would be written to a table frame ends the run of the model.
- Results named `Panic` or a false `ok` stand for the places where the kernel panics for want of memory.
- Bitmap words are sequences of 64 bits. `allocated`, a field of `kheapBlock`, is called `used`, since the former is a word
  of the language.

## Where the code does not do what it is for

Each of these is a lemma with the exact condition under which the code does meet the property.

- `PG_PAT` is bit 12, inside `BASE_MASK`: a UC, WB or WT mapping moves its frame unless bit 12 of the address is set
  (`PageTables.LeafTranslates`).
- `growPageStack` pushes one frame more than its block holds, so two blocks that are neighbours put a frame into the pool
  twice; the frames are all different iff the blocks are 65 frames apart (`FramePool.FramesDiffer`).
- `mapPages` reaches at most 2^20 pages, as `b*PAGE_SZ` has 32 bits (`KernelPaging.RangeTranslation`, `BootPaging.ReachIsWhole`).
- `VMARKER_END` falls short for a marker of 2^20 pages or more, and the next allocation then overlaps it
  (`Vmm.EndOfSmall`, `Vmm.NextMarkerApart`), so runs of `vmalloc` keep requests below 4 GiB; sizes are rounded down to pages
  (`Vmm.RequestCovered`).
- `allocPhys` returns a block smaller than what was asked for above 256 KiB (`PhysOrder.BlockCoversRequest`), and indexes
  past its orders above 2^50 bytes (`PhysOrder.OrderInRange`).
- `checkMagic` of the bootloader also accepts files that are not ELF files (`ElfLoader.MagicAccepts`); `allocMem` clears past
  the end of an aligned allocation (`ElfLoader.ClearLeavesAllocation`), which reaches a segment loaded before iff that one
  lies above and within what is cleared (`ElfLoader.ClearMeets`, with an input in `ElfLoader.EarlierByteLost`), and a page
  table iff a chunk of tables does (`ElfLoader.ClearMeetsTables`, with an input in `ElfLoader.TableWiped`, after which
  nothing of the first 2^28 pages is mapped, `ElfLoader.FirstEntriesGone`); a segment is seen at its addresses iff it
  starts on a page boundary, as `mapPage` rounds down (`ElfLoader.AlignedIsSeen`), and is wholly mapped iff it is at most
  4 GiB long (`ElfLoader.PagesCover`).
- `kfree` of the first block of a chunk breaks the heap unless it is the last one left of it (`HeapList.RemoveTiled`).
- `extendHeap` gets too little for requests of 2^32 bytes less five pages and above (`HeapList.ExtendSuffices`), and the
  assertion after it does not notice iff the request is within a page of that (`HeapList.AssertionMisses`).
- `kmallocInt` computes the room it needs in 64 bits: the test for it is right iff the request is below 2^64 less 40 bytes or
  the block has less slack than the wrapped sum (`HeapList.RoomTest`), and otherwise the new block ends 4 GiB past the one
  it was put into (`HeapList.OverlongBreaks`).
- The aligned scan hangs on a block whose offset is too small (`HeapList.ScanEnds`), the aligned path loses the new block
  (`HeapList.AlignedUnlinkedBreaks`), and the payload of an aligned request is on a page boundary iff no
  new chunk was needed for it (`KernelHeap.Heap.KmallocInt`).
- `memcpy` of the C library leaves out the first byte and copies one past the last (`HeapMemory.MemcpyAsWritten`).
- A reservation lasts iff no caller had the block when it was made; otherwise the release of that block undoes it
  (`BuddyRun.ReservationLasts`).
- `allocPhysAddress` does not find the first byte of a region, `freePhys` may take the region before (`Buddy.Owner`), a range
  that straddles one more block than its size needs is not reserved to its end (`Buddy.ReserveCovers`), and `freeNPhys` ends
  only for multiples of the block size (`Buddy.FreeEnds`) and reaches only 2^18 blocks (`Buddy.PieceReached`). Pointers
  behind the last block up to the limit of a region, which always is one, are taken for one of its blocks
  (`Buddy.FreeHasBlock`).
- Bitmaps of an order have words for all blocks only up to 64 blocks or for a multiple of 64 (`BuddyWords.WordsSuffice`).
- A slab for ten objects has room for none above 512 KiB (`Slab.NewSlabFits`).
- The data address of a ramdisk file is right exactly when the file is as large as the first one (`Ramdisk.AddressRight`).

Repairs, where the code could not be modelled as it stands: the two lines missing in the aligned path of `kmallocInt` and
its scan that does not advance; the bit code of `pmm.c` (64-bit shifts and bit numbers, the word index kept, all nodes of
the lower orders set, siblings told apart from the bit itself, the climb ending where an order has no parent, `used` counting
set bits, words rounded up); 64-bit shifts and rounded-up words in `kcache.c`; on request, `physPtr` of `initRamdisk`.

## Model

| member | source | states |
|---|---|---|
| PageBits.LeafEntryNamesPhys | Headers/Memory/arch/x86_64/paging.h:17-38 | a leaf entry names the physical address it was made for iff the address fits an entry and, for UC, WB and WT, has bit 12 set |
| PageBits.LeafEntryPermissions | Kernel/Memory/arch/x86_64/paging.c:99-117 | the leaf is present, writable iff write was asked for, no-execute iff execute was not |
| PageBits.CacheBitsBits | Kernel/Memory/arch/x86_64/paging.c:107-113 | the memory-type bits touch no permission, and the frame only through PG_PAT, for requests that end in UC, WB or WT |
| PageBits.LeafWord | Kernel/Memory/arch/x86_64/paging.c:99-117 | the whole leaf for an address an entry can hold, bit for bit from the request: present, write, user, write-through, cache-disable, the frame with PG_PAT, and no-execute |
| PageBits.LeafTypes | Kernel/Memory/arch/x86_64/paging.c:105-117 | for any aligned address caching is off iff UC was asked for, writes go through iff UC, WC, or WT without WB and WP was, and users may enter iff that was asked for |
| PageBits.LapicLeaf | Kernel/Devices/x86_64/lapic.c:59 | the leaf of the local APIC's registers: uncached, writable, not executable, one frame too far |
| PageBits.BaseOfOr | Headers/Memory/arch/x86_64/paging.h:45 | OR-ing flags outside BASE_MASK keeps the frame of an entry, and OR-ing a frame into an entry without one sets it |
| PageBits.KalignMeans | Headers/Memory/arch/x86_64/paging.h:47 | KALIGN is the page boundary at or below an address |
| PageBits.PageFromIndices | Headers/Memory/arch/x86_64/paging.h:40-43 | two pages with the same four indices are the same page |
| PageBits.EntryMacros | Headers/Memory/arch/x86_64/paging.h:40-43 | the four index macros read the digits of the page number, whatever the offset and the bits from 48 up |
| PageBits.StepLandsOn | Kernel/Memory/arch/x86_64/paging.c:128 | the k-th page from an aligned address, with 64-bit wrap-around, is page q iff q comes k pages after the first |
| PageBits.ProductWraps | Kernel/Memory/arch/x86_64/paging.c:128 | the 32-bit product b*PAGE_SZ starts over after 2^20 pages |
| PageTables.SlotsAreWords | Kernel/Memory/arch/x86_64/paging.c:89-98 | aligned table bases and nine-bit indices name the words of memory without overlap |
| PageTables.StoreKeepsTree | Kernel/Memory/arch/x86_64/paging.c:89-97 | a store of a data frame, of the frame already there or of a fresh zeroed one keeps every table reached by one path only, and all other fresh frames fresh |
| PageTables.WalksReadTheLeaf | Kernel/Memory/arch/x86_64/paging.c:21-46 | getPageInfo returns the last-level entry of the page, and virtToPhysInt its frame, 0 for a missing table too |
| PageTables.LeafTranslates | Kernel/Memory/arch/x86_64/paging.c:152-160 | an address mapped to phys translates back to phys iff phys fits an entry and PG_PAT, where set, is a bit it has anyway |
| PageTables.LeafTranslatesPlainly | Kernel/Memory/arch/x86_64/paging.c:152-160 | without UC, WB and WT virtToPhysInt of a mapped address is the physical address |
| PageTables.LeafDecides | Kernel/Memory/arch/x86_64/paging.c:99-117 | under the invariant the rights of a whole walk are those of the leaf: present, writable and executable at all levels together |
| PageTables.StoreLeaf | Kernel/Memory/arch/x86_64/paging.c:117 | storing the leaf of a page changes the leaf of no other page and no entry above |
| PageTables.StoreLeafKeepsCovered | Kernel/Memory/arch/x86_64/paging.c:99-117 | a leaf stored below entries that grant as much keeps the invariant that upper levels allow what leaves do |
| PageWrites.LinkTable | Kernel/Memory/arch/x86_64/paging.c:89-98 | OR-ing a fresh frame into an entry without table adds that one empty table and changes no leaf; bits 0 to 11 of all entries stay |
| PageWrites.GrantEntry | Kernel/Memory/arch/x86_64/paging.c:100-104 | OR-ing access flags into an upper entry widens it and leaves all tables and leaves as they are; no other entry changes |
| PageWrites.WriteEntries | Kernel/Memory/arch/x86_64/paging.c:99-118 | flags at three levels and the leaf: exactly the leaf of this page changes, tree and invariant stay; above the leaves only the three entries on the way change, by these flags |
| FramePool.TakeFrame | Kernel/Memory/arch/x86_64/paging.c:72 | the frame popped is one of the pool, and what is left is the pool without it |
| FramePool.FramesDiffer | Kernel/Memory/arch/x86_64/paging.c:48-60 | n frames from each of some blocks are all different iff the blocks are n frames apart; with the 65 that are pushed for 64, neighbours fail |
| DataStack.Dstack.constructor | Kernel/Memory/dstack.c:85-94 | a new stack is empty and of the size asked for |
| DataStack.Dstack.Push | Kernel/Memory/dstack.c:67-76 | with room left, pushing appends the item |
| DataStack.Dstack.Pop | Kernel/Memory/dstack.c:49-58 | popping takes the last item, or says that there is none |
| DataStack.Dstack.Count | Kernel/Memory/dstack.c:102-107 | the number of items |
| KernelPaging.PushRun | Kernel/Memory/arch/x86_64/paging.c:57-59 | the loop pushes every frame of the block and, because of `<=`, the one behind it |
| KernelPaging.PageSpace.constructor | Kernel/Memory/arch/x86_64/paging.c:172-181 | initPaging on well-formed tables and a frame pool apart from them gives a valid space |
| KernelPaging.PageSpace.GrowPageStack | Kernel/Memory/arch/x86_64/paging.c:48-60 | the frames of the next block join the stack, which never holds more than 84 of its 100, and no frame of the pool is lost or doubled |
| KernelPaging.PageSpace.NewPagetable | Kernel/Memory/arch/x86_64/paging.c:66-78 | the top frame of the stack, refilled first below 20, leaves the pool; there is none iff the stack is short and no block is left |
| KernelPaging.PageSpace.Descend | Kernel/Memory/arch/x86_64/paging.c:89-90 | one level of mapPage finds or links the next table; it refuses iff there is none and MAKE is not set |
| KernelPaging.PageSpace.FindTables | Kernel/Memory/arch/x86_64/paging.c:86-98 | three levels are found or linked without changing a leaf; a refusal changes nothing |
| KernelPaging.PageSpace.MapPage | Kernel/Memory/arch/x86_64/paging.c:84-119 | mapPage sets the leaf of its page and no other, keeps the tree, the pool and the rights invariant; it refuses iff an address is unaligned or a table is missing without MAKE, and then changes nothing; it panics only for want of a table, with fewer than 20 frames and no block left, uses at most three frames, and makes no table of a frame from outside the pool; in the upper tables it sets present, and write if asked for, on the three entries on the way, and changes no other of bits 0 to 11 |
| KernelPaging.PageSpace.MapPages | Kernel/Memory/arch/x86_64/paging.c:125-132 | after mapPages every page of the range within the 32-bit reach has its leaf and every other page the one it had; three frames for each page and 20 more are enough |
| KernelPaging.RunRequests | Kernel/Memory/arch/x86_64/paging.c:84-119 | after any sequence of mapPage calls every page is as the latest accepted call for it left it, or untouched; unaligned calls are refused, aligned ones with MAKE are not; there is a panic only with fewer than 20 frames and no block left, so none when there were 20 and three for each call; frames from outside the pool never become tables |
| KernelPaging.PageSpace.FramesLeft | Kernel/Memory/arch/x86_64/paging.c:48-60 | the frames left for tables are those on the stack and 65 for each block |
| KernelPaging.LatestIsLast | Kernel/Memory/arch/x86_64/paging.c:84-119 | the call a page is said to stand by was accepted, named the page, and no later accepted one did |
| KernelPaging.EffectivePermissions | Kernel/Memory/arch/x86_64/paging.c:99-117 | at any point of a run a page that an accepted request named is present, writable on its whole walk iff the latest accepted request for it asked for write, and executable iff it asked for execute |
| KernelPaging.LatestLeaf | Kernel/Memory/arch/x86_64/paging.c:99-117 | at any point of a run the memory type and the user bit of a page are those of its latest accepted request, and so is its whole leaf for an address an entry can hold |
| KernelPaging.UntouchedPermissions | Kernel/Memory/arch/x86_64/paging.c:84-119 | at any point of a run a page that no accepted request named has the rights it had at the start |
| KernelPaging.RangeTranslation | Kernel/Memory/arch/x86_64/paging.c:125-132 | with MAKE and without UC, WB and WT, page k of the range translates to phys + 4096k for k below 2^20, and keeps its translation from there on |
| KernelPaging.RangeFrame | Kernel/Memory/arch/x86_64/paging.c:125-132 | addresses outside the range translate as before |
| BootPaging.BumpAllocator.constructor | Bootloader/x86_64/mem.c:47-50 | nothing handed out yet; the allocations to come are apart |
| BootPaging.BumpAllocator.PgAlloc | Bootloader/x86_64/mem.c:57-69 | a table is the next page of the chunk, or the first of the next allocation: cleared, aligned, inside its allocation and different from all earlier ones; there is none iff the chunk is used up and the firmware has no memory |
| BootPaging.BumpAllocator.NewChunk | Bootloader/x86_64/mem.c:58-64 | the next allocation is taken up, from its first page boundary |
| BootPaging.BootLeafBits | Bootloader/x86_64/mem.c:96-102 | the bootloader's leaf names its frame and grants exactly what was asked for |
| BootPaging.BootLeafWord | Bootloader/x86_64/mem.c:96-102 | the whole leaf: the frame, present, write and no-execute as asked for, and nothing else |
| BootPaging.BootSpace.constructor | Bootloader/x86_64/mem.c:138-149 | the top table is empty: no page has a leaf |
| BootPaging.BootSpace.MapPage | Bootloader/x86_64/mem.c:80-104 | mapPage sets the leaf of the page of its rounded address and no other, with no assumption on table frames; upper entries get present and write as asked for; it fails only for want of a table with no frame left |
| BootPaging.BootSpace.MapPages | Bootloader/x86_64/mem.c:109-115 | a count of 0 maps one page, and 32 bits reach 2^20; nothing else changes |
| BootPaging.ReachIsWhole | Bootloader/x86_64/mem.c:129 | all pages of a descriptor are mapped iff it has between one and 2^20 |
| BootPaging.ReachedMeans | Bootloader/x86_64/mem.c:122-133 | which pages of a descriptor are mapped, by its fields: none of kinds 0, 8 and 15, else its page count in 32 bits, at least one and at most 2^20 |
| BootPaging.IdMapMem | Bootloader/x86_64/mem.c:122-133 | the pages reached by the kept descriptors but the last are mapped to themselves, no others |
| BootPaging.IdentityMap | Bootloader/x86_64/mem.c:122-133 | every present translation is the identity, a page is present iff a kept descriptor that is not the last reaches it, and it is writable and not executable |
| ElfLoader.CheckMagic | Bootloader/x86_64/elf.c:8-13 | the comparison accepts what agrees up to the first 'F' of the file's own bytes |
| ElfLoader.MagicAccepts | Bootloader/x86_64/elf.c:8-13 | the comparison accepts the ELF magic and otherwise exactly what has an 'F' after one of its three proper prefixes |
| ElfLoader.AcceptedMeans | Bootloader/x86_64/elf.c:34-36 | a file is taken iff its magic is one of these four forms and its class is 2 |
| ElfLoader.ClearLeavesAllocation | Bootloader/x86_64/mem.c:19-25 | the memory cleared for an aligned request ends past the allocation, by at most a page, while the segment lies within a page of it |
| ElfLoader.SegmentsAre | Bootloader/x86_64/elf.c:41-43 | the segments loaded are the headers of type 1, in their order |
| ElfLoader.SegmentLoaded | Bootloader/x86_64/elf.c:58 | whatever segments were mapped before, and of any size, mapping one more leaves every page as the last segment that reaches it made it |
| ElfLoader.LastShows | Bootloader/x86_64/elf.c:41-60 | which segment that is for a page, and that a page none reaches is as at the start |
| ElfLoader.EarlierKept | Bootloader/x86_64/elf.c:58 | segments in ascending order without a shared page are all there in the end, on every page mapped for them, although each is mapped one page over its end |
| ElfLoader.ContentsGrow | Bootloader/x86_64/elf.c:48-57 | loading a segment puts its file bytes and zeros in place and keeps every byte of earlier segments that it does not write to and that is in no table |
| ElfLoader.HitsMeans | Bootloader/x86_64/mem.c:19-25 | loading a segment writes to a frame iff one of the bytes it clears or reads lies in it |
| ElfLoader.ClearMeets | Bootloader/x86_64/mem.c:19-25 | of two allocations that do not overlap, the clear of the later one writes to the earlier segment iff it lies below and the cleared bytes come as far as the page that segment starts on |
| ElfLoader.EarlierByteLost | Bootloader/x86_64/mem.c:19-25 | with the answers 0x501010 and then 0x500000 the first byte of the first segment is wiped |
| ElfLoader.ContentsComplete | Bootloader/x86_64/elf.c:41-60 | where no clear of a later segment meets it and no allocation for tables overlaps its own, byte o of a segment is in memory at the end as byte offset+o of the file, within filesz and the file, and as zero past that |
| ElfLoader.ElfFile.ReadTo | Bootloader/x86_64/elf.c:52-54 | a read puts the bytes of the file from its position on where it was told, up to the end of the file, and no others |
| ElfLoader.ClearMeetsTables | Bootloader/x86_64/mem.c:19-69 | clearing a segment whose allocation overlaps none of those for tables wipes a table iff it was allocated below one of them and the cleared bytes come as far as the first table there |
| ElfLoader.TableWiped | Bootloader/x86_64/mem.c:19-69 | with the answers 0x501010 for tables and 0x500000 for 16 bytes of a segment, the first two entries of the top table are wiped |
| ElfLoader.FirstEntriesGone | Bootloader/x86_64/mem.c:80-104 | none of the first 2^28 pages is then mapped |
| ElfLoader.StopsAtOverrun | Bootloader/x86_64/elf.c:41-60 | with answers that do not overlap and a file no longer than its memory, loading meets a table only by such an overrun |
| ElfLoader.ReadSegment | Bootloader/x86_64/elf.c:49-56 | memory is cleared and read into, and the file position is as before |
| ElfLoader.LoadSegments | Bootloader/x86_64/elf.c:41-60 | at the end all loadable segments, in order, are loaded where allocPool said, their bytes are in memory where no later segment and no table is, and every page is as the last segment that reaches it made it; or memory ran out; or all that holds of the segments before the first one whose bytes would be written to a table |
| ElfLoader.LoadElf | Bootloader/x86_64/elf.c:30-62 | so it is for an accepted file, whatever its segments are, and its entry is returned; another file changes nothing and returns 0 |
| ElfLoader.ImageTranslates | Bootloader/x86_64/elf.c:41-60 | an address of a segment on a page mapped for it translates into the loaded memory, as far on as the segment starts into its page, writable and executable as that segment's own flags say |
| ElfLoader.AlignedIsSeen | Bootloader/x86_64/elf.c:58 | every byte of a segment of at most 4 GiB is seen at its own address iff the segment starts on a page boundary |
| ElfLoader.PagesCover | Bootloader/x86_64/elf.c:58 | the pages mapped for a segment hold all of it iff it is at most 4 GiB long, and below that at most one page more |
| Markers.MarkerList.constructor | Kernel/System/task.c:188-203 | the list starts with one marker over page 0 |
| Markers.MarkerList.AllocMarker | Kernel/Memory/vmm.c:98-133 | the new marker goes behind the first gap or the last marker, with the base the code computes, and the others stay |
| Markers.MarkerList.FindSpot | Kernel/Memory/vmm.c:105-116 | the search stops at the first gap, or at the last marker |
| Markers.AscendingAppends | Kernel/Memory/vmm.c:108-112 | with ascending bases no gap is ever taken, so every marker is appended |
| Markers.MinAddressIs | Kernel/Memory/vmm.c:63-71 | the lowest address a marker is looked for at: behind the heap for kernel heap memory, 1 MiB for all other |
| FrameSource.PushBlock | Kernel/Memory/vmm.c:48-50 | the loop pushes the frames of the block, that behind it excluded |
| FrameSource.PhysFrames.ExtendStack | Kernel/Memory/vmm.c:44-51 | the empty stack gets the 32 frames of the next block, which is all it ever holds |
| FrameSource.PhysFrames.GetPhysmem | Kernel/Memory/vmm.c:53-60 | the top frame of the stack, refilled when empty: aligned and never handed out before; none only when all blocks are used up |
| Vmm.FormFlagsTest | Kernel/Memory/vmm.c:86-96 | each page flag is set iff its request flag is |
| Vmm.FormFlagsPat | Kernel/Memory/vmm.c:86-96 | a request moves frames by PG_PAT iff it is for UC, or for WT without WC |
| Vmm.EndOfSmall | Headers/Memory/vmm.h:43 | VMARKER_END is the end of a marker iff the marker has less than 2^20 pages |
| Vmm.NextMarkerApart | Kernel/Memory/vmm.c:122-126 | the marker after a request lies behind it iff the request has less than 2^20 pages, and overlaps it otherwise |
| Vmm.AppendsAtTop | Kernel/Memory/vmm.c:98-133 | a request below 4 GiB gets the pages right behind the last marker, and the markers stay contiguous |
| Vmm.RequestCovered | Kernel/Memory/vmm.c:99-100 | the pages of a request hold its bytes iff the size is a multiple of the page size or below one page |
| Markers.PagesExact | Kernel/Memory/vmm.c:99-100 | a request gets as many pages as fit into it, and one when it is below a page |
| Vmm.StillBacked | Kernel/Memory/vmm.c:139-174 | mapping above the existing allocations and handing out more frames leaves each backed by the frames it had |
| Vmm.FramesBack | Kernel/Memory/vmm.c:150-154 | the frames of the loop are behind the pages of the allocation, and the extra one is behind the page after them, which is where the next marker starts |
| Vmm.VirtualMemory.Vmalloc | Kernel/Memory/vmm.c:139-156 | the page after the last marker is returned and as many pages are taken as fit into the request; exactly those and the next one get new frames behind them, all of them with MAKE and without it those that have tables; all earlier allocations stay backed |
| Vmm.VirtualMemory.VmallocPhys | Kernel/Memory/vmm.c:162-174 | the same pages are mapped to the given physical range, if that is aligned, and otherwise nothing is |
| Vmm.RunCalls | Kernel/Memory/vmm.c:139-174 | any sequence of calls: the addresses returned start at page 1 and each follows the one before by its size rounded down to pages, at least one; every allocation made is still backed as it was; it stops early only when a frame stack cannot be refilled, not when there were as many frames as the calls use and 20 for tables with three for each page; frames of vmalloc that were no tables nor set aside for any never become tables |
| Vmm.RunTranslates | Kernel/Memory/vmm.c:139-174 | at any point of a run virtToPhysInt gives for every page of every allocation, UC and WT aside, the frame it was first given |
| Vmm.CallBacked | Kernel/Memory/vmm.c:139-174 | at any point of a run page k of an earlier call has the leaf for frame k of those it was given, or for its physical address plus 4096k |
| Vmm.CallTypes | Kernel/Memory/vmm.c:86-96 | each such page is writable, executable, open to users, uncached and write-through exactly as the flags of its call say |
| Vmm.RunIsolated | Kernel/Memory/vmm.c:139-174 | at any point of a run two allocations share no page, and two of vmalloc no frame |
| Vmm.FramesNoTables | Kernel/Memory/vmm.c:139-156 | at any point of such a run no frame behind an allocation is a page table |
| HeapList.CutTiled | Kernel/Memory/kmalloc.c:184-195 | cutting a block in two that fill it keeps chunks exactly partitioned |
| HeapList.SplitTiled | Kernel/Memory/kmalloc.c:184-195 | a block carved from the slack of another keeps the tiling |
| HeapList.RemoveTiled | Kernel/Memory/kmalloc.c:223-242 | kfree keeps the tiling iff the block, when it starts a chunk, is the last one of it |
| HeapList.ResizeTiled | Kernel/Memory/kmalloc.c:275-291 | a resize in place keeps the tiling |
| HeapList.RoomTest | Kernel/Memory/kmalloc.c:145-163 | the 64-bit test for room is right iff the request is below 2^64 less 40 bytes, or the slack is less than the sum has after it wrapped |
| HeapList.OverlongBreaks | Kernel/Memory/kmalloc.c:184-195 | where it is wrong, the block written ends 4 GiB past the one it was put into and the tiling is lost |
| HeapList.ExtendSuffices | Kernel/Memory/kmalloc.c:71-84 | extendHeap asks for enough iff the request is below 2^32 less five pages, and then its slack is exact |
| HeapList.AssertionMisses | Kernel/Memory/kmalloc.c:197-198 | the new chunk is too small for the request and the assertion still holds iff the request with its overhead is in the one page of sizes from 2^32 less five pages on |
| HeapList.ExtendTiled | Kernel/Memory/kmalloc.c:197-203 | a new chunk apart from the blocks there are keeps the tiling |
| HeapList.FitIsFirst | Kernel/Memory/kmalloc.c:151-165 | the block taken is the first one with room for header, payload and redzone, behind a page boundary if aligned; the heap is extended only when none has |
| HeapList.AllocMakes | Kernel/Memory/kmalloc.c:167-213 | where the new block then lies, what slack each of the two keeps, and that a new chunk is five pages larger than the pages the request fills |
| HeapList.ScanEnds | Kernel/Memory/kmalloc.c:151-165 | the aligned scan as written ends iff no block before the one it should take has an offset below a header, and then takes that one |
| HeapList.AlignedSplitTiled | Kernel/Memory/kmalloc.c:167-183 | the aligned payload is on a page boundary, its header strictly behind the redzone, and the repaired split keeps the tiling |
| HeapList.AlignedUnlinkedBreaks | Kernel/Memory/kmalloc.c:167-183 | without the missing link the tiling is lost |
| HeapList.ChunkAccount | Kernel/Memory/kmalloc.c:184-195 | free bytes, live bytes and 40 bytes a block add up to the size of the chunk |
| HeapList.PayloadsApart | Headers/Memory/kmalloc.h:50-55 | no byte of a payload lies in another block, in a header or in a redzone |
| HeapList.ApplyTiled | Kernel/Memory/kmalloc.c:141-305 | kmalloc, aligned or not, kfree and krealloc keep the tiling |
| HeapList.RunTiled | Kernel/Memory/kmalloc.c:28-305 | in every state of every run the heap is tiled and its first chunk is where it was |
| HeapList.RunCoalesces | Kernel/Memory/kmalloc.c:28-45 | once no block carved from the first chunk is left, in whatever order they were freed, it is exactly as initKmalloc made it |
| HeapMemory.Inserted | Kernel/Memory/kmalloc.c:185-213 | the stores that insert a block leave all headers, links, redzones and payloads of the new list in place |
| HeapMemory.Extended | Kernel/Memory/kmalloc.c:79-83 | so do those that append a chunk |
| HeapMemory.Freed | Kernel/Memory/kmalloc.c:230-239 | so do those of kfree, with its cleared magic outside all that is left |
| HeapMemory.ResizedInPlace | Kernel/Memory/kmalloc.c:276-288 | so do those of a resize, with the redzone at its new place |
| HeapMemory.CopiedInto | Kernel/Memory/kmalloc.c:301 | copying into a payload changes no header, redzone or other payload |
| HeapMemory.ClientStore | Kernel/Memory/kmalloc.c:104-129 | a client that stores inside its payload cannot make a magic or redzone check fail |
| HeapMemory.MemcpyAsWritten | libc/string/memcpy.c:6-11 | on ranges that do not overlap, the further byte included, the loop of the C library moves the bytes it should iff the first one was there already, and always overwrites the byte behind them |
| KernelHeap.Heap.constructor | Kernel/Memory/kmalloc.c:28-45 | one empty block fills the heap |
| KernelHeap.Heap.Load | Kernel/Memory/kmalloc.c:104-129 | the header of every block of the list reads back with its magic, sizes and links, and the magic and the redzone are intact |
| KernelHeap.Heap.Search | Kernel/Memory/kmalloc.c:151-165 | the repaired loop finds the first block that fits, or the last one |
| KernelHeap.Heap.Carve | Kernel/Memory/kmalloc.c:167-195 | the list is split at the block found, aligned on request |
| KernelHeap.Heap.Extend | Kernel/Memory/kmalloc.c:197-213 | the list gets the new chunk as its last block |
| KernelHeap.Heap.KmallocInt | Kernel/Memory/kmalloc.c:141-214 | the pointer lies behind the redzone of the first block with room, on a page boundary if aligned, and in a new chunk only when no block has room; the list is that of the specification, with one new block of the size asked for; every live payload keeps its bytes; for an aligned request, with chunks on page boundaries, the pointer is on one iff some block had room |
| KernelHeap.Heap.KfreeInt | Kernel/Memory/kmalloc.c:223-242 | the list is without the block, its magic is cleared, every other payload keeps its bytes |
| KernelHeap.Heap.Krealloc | Kernel/Memory/kmalloc.c:264-305 | the pointer stays the same iff payload and slack hold the new size, and otherwise is the one kmalloc would return; the first min(old, new) bytes of the payload and all of every other payload are kept |
| KernelHeap.Heap.Memcpy | Kernel/Memory/kmalloc.c:301 | memcpy at the contract of section 7.24.2.1 of C11, on ranges that do not overlap; no other byte is written |
| KernelHeap.Heap.Store | Kernel/Memory/kmalloc.c:104-129 | a client's store inside its payload keeps the heap valid and all other payloads |
| PhysOrder.ChooseOrder | Kernel/Memory/pmm.c:276-285 | the loop ends with the order that the next rows give by size class |
| PhysOrder.OrderTable | Kernel/Memory/pmm.c:276-285 | the order by size class; order 1 is never picked |
| PhysOrder.BlockCoversRequest | Kernel/Memory/pmm.c:276-313 | the block is as large as the request iff the request is at most 256 KiB |
| PhysOrder.OrderInRange | Kernel/Memory/pmm.c:282-286 | the order has a bitmap iff the request is at most 2^50 bytes |
| PhysOrder.RefillSizes | Kernel/Memory/vmm.c:44-51 | a request for ten pages gets 32 frames and one for a hundred 64 |
| BuddyMap.UpRange | Headers/Memory/pmm.h:34 | the minimum blocks of block p of order k are 2^k in a row from 2^k p on |
| BuddyMap.SummaryMeans | Kernel/Memory/pmm.c:147-189 | a block is marked iff a minimum block inside it is allocated, so an unmarked one is wholly free |
| BuddyMap.FullAbove | Kernel/Memory/pmm.c:234 | an order that is fully marked has only fully marked orders above it |
| BuddyMap.SameMaps | Kernel/Memory/pmm.c:147-218 | the minimum blocks decide the maps of all orders |
| BuddyMap.MarkedSummary | Kernel/Memory/pmm.c:156-189 | marking a block, all inside it and all that hold it keeps the summary |
| BuddyMap.MarkedRange | Kernel/Memory/pmm.c:158-170 | what that marks of a lower order is the range of blocks inside |
| BuddyMap.ClearStep | Kernel/Memory/pmm.c:209-217 | clearing a node whose halves are clear mends it, and then only its parent may be wrong, and only if the other half is clear too |
| BuddyMap.RoundTrip | Kernel/Memory/pmm.c:200-259 | allocating a free block of any order and freeing its minimum blocks in any order brings back every map of every order |
| BuddyWords.WordsSuffice | Kernel/Memory/pmm.c:64 | the words allocated hold all blocks iff there are at most 64 or a multiple of 64; rounding up always does |
| BuddyWords.CountAll | Kernel/Memory/pmm.c:235 | the count reaches the number of blocks iff all are marked |
| BuddyWords.BitChanged | Kernel/Memory/pmm.c:171-173 | one bit of one word changed, with the count adjusted, is one block of the map changed |
| BuddyWords.HoldsUnique | Kernel/Memory/pmm.c:147-218 | a map decides words and count, so equal maps mean an equal order |
| Buddy.Region.constructor | Kernel/Memory/pmm.c:51-73 | an even number of minimum blocks, none marked, halved from order to order up to ten orders: one order for every size the region has a block of |
| Buddy.PairsFit | Kernel/Memory/pmm.c:51-59 | a region has as many pairs of 16 KiB blocks as fit into it |
| Buddy.Region.SetBit | Kernel/Memory/pmm.c:156-189 | exactly the block, the blocks inside it and those that hold it are marked, at every order, and words, counters and summary agree |
| Buddy.Region.FreeBit | Kernel/Memory/pmm.c:200-218 | exactly one minimum block is freed, and words, counters and summary of all orders agree |
| Buddy.Region.FirstClear | Kernel/Memory/pmm.c:236-249 | the search word by word finds the first unmarked block of an order that is not full |
| Buddy.Region.AllocRegion | Kernel/Memory/pmm.c:228-259 | the lowest wholly free block of the order is marked and its address returned; failure iff every block of the order has an allocated part |
| Buddy.Region.FullOrders | Kernel/Memory/pmm.c:234-235 | by the counters, a full order means that the orders above are full |
| Buddy.Region.Reserve | Kernel/Memory/pmm.c:336-347 | from the block of the address on, as many minimum blocks are marked as the bytes alone fill |
| Buddy.BlocksLeast | Kernel/Memory/pmm.c:336-347 | the blocks reserved are the least number of 16 KiB that holds the bytes |
| Buddy.Region.FreePhys | Kernel/Memory/pmm.c:360-382 | an unaligned pointer is ignored, another one frees its minimum block |
| Buddy.Region.FreeNPhys | Kernel/Memory/pmm.c:394-401 | for a positive multiple of the block size the loop ends and frees exactly the blocks of the range, but only the first 4 GiB of it |
| Buddy.PieceReached | Kernel/Memory/pmm.c:397 | the 32-bit address of a piece is right iff it is among the first 2^18 |
| Buddy.FreeEnds | Kernel/Memory/pmm.c:396-400 | freeNPhys ends iff the byte count is a multiple of the block size, for 0 only after 2^50 pieces |
| Buddy.FreeHasBlock | Kernel/Memory/pmm.c:365-382 | of the pointers taken to be in a region exactly those below the end of its last block have a block; its limit never has |
| Buddy.ReserveCovers | Kernel/Memory/pmm.c:336-347 | all bytes of the range are reserved iff it needs no more blocks than its size alone |
| Buddy.FindToReserve | Kernel/Memory/pmm.c:331-334 | the first region the address is strictly inside of |
| Buddy.FindToFree | Kernel/Memory/pmm.c:365-373 | the first region with the pointer between its ends, both included |
| Buddy.Owner | Kernel/Memory/pmm.c:331-373 | for disjoint regions, reserving finds the owner iff the address is not its first, and freeing iff no earlier region ends there |
| BuddyRun.AllocationMeans | Kernel/Memory/pmm.c:228-259 | an allocation succeeds iff the region has a block of the order without an allocated part; it hands out the lowest one, wholly free before, of the size and alignment of the order, and the address says which |
| BuddyRun.NextKeeps | Kernel/Memory/pmm.c:228-401 | every allocation, release and reservation keeps the blocks in use marked and disjoint, and only a reservation changes what is reserved: by the blocks it holds that no caller has |
| BuddyRun.RunAccounts | Kernel/Memory/pmm.c:228-401 | after any sequence of calls a minimum block is marked iff it is in use, was reserved at the start, or was held by a call while no caller had it |
| BuddyRun.ReservationLasts | Kernel/Memory/pmm.c:336-347 | a block a call reserves stays marked, and is handed to nobody, through whatever calls follow iff no caller had it at the time |
| BuddyRun.NothingLeaks | Kernel/Memory/pmm.c:228-401 | when all blocks are released and none was reserved, the marks are those of the start |
| BuddyRun.AnswersAt | Kernel/Memory/pmm.c:228-259 | the answer to each call of a run is that to the call in the state before it |
| BuddyRun.RunCall | Kernel/Memory/pmm.c:228-401 | the code of one call returns, marks and clears what that call means |
| BuddyRun.RunCalls | Kernel/Memory/pmm.c:228-401 | so does the code of any sequence of calls, on any region; when the marks are those of the start, every word and counter of every order is too |
| BuddyRun.RunNew | Kernel/Memory/pmm.c:51-401 | the same from createRegion on, where exactly the blocks in use and those reserved are marked |
| BuddyRun.FreeInAnyOrder | Kernel/Memory/pmm.c:200-382 | after an allocation, freeing the minimum blocks of the block in any order brings back every word and every counter of every order |
| Slab.KSlab.constructor | Kernel/Memory/kcache.c:31-50 | an empty slab with as many buffers as fit |
| Slab.KSlab.AllocateBuffer | Kernel/Memory/kcache.c:111-140 | the first free buffer is taken and counted; it fails iff the slab is full |
| Slab.KSlab.FindFree | Kernel/Memory/kcache.c:115-131 | with room left a free bit is always found, the first one |
| Slab.KCache.constructor | Kernel/Memory/kcache.c:96-107 | a cache starts without slabs |
| Slab.KCache.Choose | Kernel/Memory/kcache.c:144-148 | the first slab of the chain with a free buffer, or all are full |
| Slab.KCache.AddSlab | Kernel/Memory/kcache.c:158-160 | a new slab goes to the front and the chain stays linked both ways |
| Slab.KCache.KcacheAlloc | Kernel/Memory/kcache.c:142-165 | the object is the first free buffer of the first slab that has one, and a new slab goes to the front only when none has; objects given out stay given out; it fails iff all slabs are full and there is no memory or objects are above 512 KiB |
| Slab.KCache.ObjectsApart | Kernel/Memory/kcache.c:133-137 | any two objects given out are disjoint, across all slabs, and each lies inside its slab |
| Slab.NewSlabFits | Kernel/Memory/kcache.c:72-81 | a new slab holds an object iff objects are at most 512 KiB, and never so many that the 16-bit reference count wraps |
| RamdiskImage.ReadBack | Headers/Media/ramdisk.h:7-15 | a little-endian number in the image is read back modulo its width |
| RamdiskImage.LEAt | Headers/Media/ramdisk.h:7-15 | byte k of a number in the image is its k-th lowest |
| RamdiskImage.FileLies | Ramdisk/ramdisk.c:36-54 | the image holds magic, size, name, NUL and data of file i where the format puts them |
| RamdiskImage.FieldsRead | Kernel/Media/ramdisk.c:43-46 | at the record of file i the kernel reads the magic, the size and the name that were written |
| RamdiskImage.HeaderRead | Kernel/Media/ramdisk.c:37-43 | the header reads back as the magic and the file count, in 16 bits |
| Ramdisk.BaseName | Ramdisk/ramdisk.c:40-45 | the name is what follows the last slash of the path |
| Ramdisk.ImageWriter.AddFile | Ramdisk/ramdisk.c:28-54 | the record of the file is appended and counted |
| Ramdisk.ImageWriter.CopyFile | Ramdisk/ramdisk.c:19-26 | the content is appended byte by byte |
| Ramdisk.ImageWriter.Finish | Ramdisk/ramdisk.c:80-83 | with the final header the disk is the image of the files added, in order |
| Ramdisk.Strlen | Kernel/Media/ramdisk.c:46 | the distance to the first NUL |
| Ramdisk.InitRamdisk | Kernel/Media/ramdisk.c:27-54 | the walk over a written image registers the files in order with their names and sizes, as many as the 16-bit count says, and with the data addresses the code computes |
| Ramdisk.AddressRight | Kernel/Media/ramdisk.c:48-51 | as written, the data address of file i is right iff the file is as large as the first; repaired, always; the 32-bit size is right iff below 4 GiB |
| Ramdisk.ReadFile | Kernel/Media/ramdisk.c:14-25 | from the offset to the end of the file is copied, whatever size was asked for |
| Ramdisk.ReadBackFile | Kernel/Media/ramdisk.c:14-25 | with a right address, reading a written file at any offset yields its content from there to the end |
| HexPrinter.AndNibble | Kernel/Misc/kprintf.c:16-19 | masking with the shifted nibble picks out one digit |
| HexPrinter.DigitsAre | Kernel/Misc/kprintf.c:22-30 | which sixteen characters are digits of either case, and what they stand for |
| HexPrinter.NextDigit | Kernel/Misc/kprintf.c:17-19 | one more nibble of a number is one more digit of its leading digits |
| HexPrinter.WriteHex | Kernel/Misc/kprintf.c:11-33 | the digits evaluate to num mod 2^(8*bytes), in the case asked for, without a leading zero but in "0" |
| HexPrinter.CanonicalUnique | Kernel/Misc/kprintf.c:11-33 | no other text in that form stands for the same number |

## Left out

- Locks, SMP bring-up, the TLB, `invlpg`, CR3 and all other hardware access; `krealloc` returns without its unlock when the size does not change.
- The recursion of `growPageStack` through `vmallocPhys`, and that the last frame it pushes lies outside its block.
- KernelPaging.PageSpace.constructor: the pool is taken to be distinct, zeroed frames, 65 for each block; FramePool.FramesDiffer says which blocks give distinct ones, and what a frame that is there twice does to the tables is not modelled.
- Zeroing: `newPagetable` does not clear its frame, so zeroed pool frames are a condition of the kernel's tables, not of the bootloader's.
- DataStack.Dstack.Push: without the growing path of `pushStack`; it, `growStack` and `shrinkStack` are not modelled, and the stacks of the model are shown never to need them.
- `vmFree`, `unmapPage`, `kcacheFree`, `freeSlab`, `shrinkHeap`: stubs.
- User access: the bit is set at the leaf only, so no claim is made about it.
- `KMALLOC_DEBUG` builds, and everything that only prints.
- Vmm.RunCalls: requests are below 4 GiB and stay within 2^48 bytes of addresses; Vmm.NextMarkerApart shows that the first bound is the exact one. The addresses, and the extra page of a vmalloc lying on a page nobody has yet, are claimed without the marker that `growPageStack` takes through `vmallocPhys` when it refills the stack in the middle of a call.
- Vmm.FramesNoTables: that the frames of the two stacks are apart at the start is left to `allocPhys`, whose choice of blocks is not part of this model.
- HeapList.RunTiled: a request that no block has room for is below the size at which extendHeap gets too little, and gets a chunk that is apart from the heap.
- KernelHeap.Heap.KmallocInt: requests that some block has room for or that extendHeap can serve; HeapList.ExtendSuffices, HeapList.AssertionMisses and HeapList.OverlongBreaks show what becomes of larger ones.
- KernelHeap.Heap.KfreeInt: a block that starts a chunk is freed last; HeapList.RemoveTiled shows that the heap is broken otherwise.
- KernelHeap.Heap.Memcpy: taken at its contract instead of as the C library has it; HeapMemory.MemcpyAsWritten shows the difference.
- ElfLoader.LoadElf: nothing is claimed once clearing a segment has wiped a table, as `mapPage` then follows whatever is left there. The table of program headers holds as many as the header says; file and firmware errors other than want of memory are not modelled, and `getELFMemSize` is not part of this model.
- BootPaging.IdMapMem: descriptors that are kept, but the last, are page-aligned and lie in the 48-bit address space.
- Buddy.Region.Reserve: the blocks must exist; behind the last one the source writes outside its bitmap.
- Buddy.Region.FreePhys: the block must exist; behind the last one the source reads and writes outside its bitmap, which Buddy.FreeHasBlock shows to be possible.
- Buddy.Region.FreeNPhys: the blocks must exist, for the same reason.
- Buddy.Region.FreeBit: freed are minimum blocks, the only ones the source frees.
- The choice of a region in `allocPhys` by memory type, `initPMM` and the reservations of `createRegion`.
- Slab.KCache.KcacheAlloc: caches with KCACHE_FLAG_NO_MAP, whose slabs have no addresses, constructors and alignment are not modelled.
- Ramdisk.InitRamdisk: images that the tool did not write; memory behind the image reads as zero. The VFS that files are registered with is not part of this model.
- Ramdisk.BaseName: paths have a slash, as those of `nftw` do; without one the source scans on before the start of the path. The buffer for the name is as long as the directory part of the path; the model takes the name whole.
- HexPrinter.WriteHex: a width of 0 shifts by 64 bits, which C does not define.
- Bitmaps and stacks on the heap of the kernel are fields of their owners here; aliasing between them and failures of `kmalloc` are not captured.
- The timer heap, the hash table, VFS lookup and the merging of memory-map entries: they do not do what they are for.
- `convertMmapType`, `writeUint`, Lienzo, fault printing, UEFI calls, the aarch64 loader.
