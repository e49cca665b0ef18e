# Verified models of MonkOS

MonkOS is a small 64-bit operating system kernel in C. This project models its memory subsystem, and four smaller
algorithms around it, in Dafny, and proves what they do. Each class or method that works in place follows the C code
statement by statement; the functions beside it say what the code means, and the lemmas prove properties of those.

| part | files | what is modelled |
|---|---|---|
| heap | `HeapBlocks`, `HeapLinks`, `HeapSteps`, `HeapRelease`, `HeapMisfree`, `HeapRuns`, `Heap` | the boundary-tag allocator over an array of 8-byte words, and whole runs of it |
| sorting | `QSort` | the C library's quicksort, in place |
| memory map | `PMapRegions`, `PMapCollapse`, `PMapNormal`, `PMap` | the normalizer of the physical memory map, in place on its table |
| kernel page table | `PageTree`, `PageTiling`, `PageMap`, `KMem` | the identity map of mixed page sizes, in table pages |
| frames and page tables | `Frames`, `PageInit`, `Growth`, `Paging`, `KernelSpace`, `Spaces` | the frame database's free list and how it is set up, page tables that map the tables they add, several address spaces beside each other, and the kernel's part of each |
| log | `LogText`, `Log` | the paired rings of records and text |
| keyboard | `KeyRing`, `Keyboard` | the ring between an interrupt and a reader: as a state machine over single steps, and in place |
| console | `Screen`, `Layout`, `Tty` | the scrolling of 25 visible rows through a buffer of 50, where text appears on them, and colour codes |
| formatting | `FormatText`, `FormatParser`, `FormatMeaning`, `FormatStandard`, `Format` | `vsnprintf`: padding, digits, the parser that backs up, what each conversion writes, and integer conversions against the C standard |

`Common` holds two definitions that several of them share. Page walks follow section 4.5 of the Intel 64 and IA-32
Architectures Software Developer's Manual, Volume 3A; integer conversions are compared with section 7.21.6.1 of ISO/IEC
9899:2011.

Verify with `dafny verify dfyconfig.toml`.

## What the code does not do

Where a property that one would expect does not hold, the model follows the code. Each item names the members that show
it, on an input or for all inputs, and the condition under which the property does hold.

* `prev_fblock_adj` (kernel/mem/heap.c:120-123) subtracts the previous block's total size from the address of its
  footer, and not from that of the block itself. Its result lies one word before the previous header, and what it
  tests as flags is that block's size. So `heap_free` releases a block if and only if it is the heap's first (and not
  stranded, see below): `Heap.Heap.Free`. For any other block it stores a size over two other words; if the next block
  is free, also that block's next link (0 or an address) over the flags of the previous block, and, unless that link
  is 0, an address over the prev link of the free block it leads to (`HeapMisfree.MisfreedWords`). Another payload is
  overwritten if and only if the second size lands in it and the word there was another one
  (`HeapMisfree.MisfreedUntouched`, `HeapMisfree.PayloadOverwritten`). The heap stays sound, with the block still
  allocated, if and only if the block is the second one, the second size spoils no block or lands beyond the heap
  (where the code then stores it), and either the next block is not free or the first is and the next is the last free
  one (`HeapMisfree.MisfreedSound`, `HeapMisfree.SecondBlockLeaks`). The merging code after it
  (kernel/mem/heap.c:327-391) is right given the true neighbours: `Heap.Heap.Coalesce`. The heap command of the shell
  (kernel/shell.c:191-197) frees three blocks; as coded a run of frees releases all live blocks if and only if there
  is at most one, the heap's first and not stranded (`HeapRuns.FreeAllAsCoded`).
* Over a run of `heap_alloc` and `heap_free` every call does what it is for if and only if no split leaves 32 bytes
  and every free is of the heap's first, unstranded block (`HeapRuns.RunAsCoded`). Every call keeps the heap sound and
  all other payloads as they were if and only if no split leaves 32 bytes and every free is such a one, or leaks its
  block as above and spares all other payloads (`HeapRuns.SafeRunAsCoded`).
* A free block of 8 bytes has no room for its links: the prev link is its footer. `heap_alloc` leaves such a block if
  and only if the chosen block is exactly 32 bytes larger than the rounded request (`Heap.Heap.Alloc`,
  `HeapSteps.SplitSliver`), and releasing an 8-byte block without free neighbours makes one (`HeapRelease.AloneDone`).
* `round16` wraps for the last seven 64-bit numbers (`Heap.Round16Meaning`), and the number of pages that `grow_heap`
  computes is enough for a request if and only if the request is at most 2^64-4120 (`Heap.RequestExact`).
* `collapse_overlaps` never looks back at a region it has passed, and it passes a region when the next one is empty
  (`PMapCollapse.EmptyRegionHidesOverlap`). Its result is disjoint and non-empty if and only if the scan is smooth: no
  region that it passes before an empty one reaches into a later non-empty one, and the last region is not empty
  (`PMapCollapse.CollapseExact`, for every sorted list). Where no empty region lies strictly inside a non-empty one
  this is so if and only if none lies after all others (`PMapCollapse.ClearExact`). `collapse` moves one record too
  many, which needs a spare slot.
* The order of two `pmap_add` calls matters if and only if one of the regions is usable and covers an address that is
  a gap, reserved by normalization, when the other one is added first (`PMapNormal.AddInAnyOrder`,
  `PMapNormal.UsableOrderMatters`).
* `page_init` lists the frame that a usable region starts in even if it starts in the middle of it: a frame is listed
  if and only if its last byte is usable (`Frames.ListedIsUsable`). The frame database is reserved memory, and so it
  is mapped if and only if there is usable memory beyond it (`PageInit.DatabaseMapped`). `page_init` clears it through
  the new page table (kernel/mem/paging.c:137), and faults if it is not mapped (`PageInit.PageInit`), as on a machine
  with 12 MiB of memory (`PageInit.SmallMachineFaults`).
* `pfalloc` never decrements `pfdb.avail`, so its check does not stop an allocation from an empty list
  (`Frames.CheckMissesEmpty`); what the counter holds is proved for every run (`Frames.CounterDrifts`).
* `add_pte` advances `vnext` only after it has mapped an added table (kernel/mem/paging.c:331-332). If that needs
  tables of its own, the first of these is mapped to the same address: an added table is found at its window address
  if and only if there was a lowest table over that address already (`Paging.AddressSpace.MapTable`).
* `evict_msg` evicts one message more than needed exactly when the characters to evict end where a message ends
  (`LogText.EvictedTooMany`).
* `memsetw` counts words (include/libc/string.h:109-117), but the scroll passes bytes (kernel/device/tty.c:326-328),
  so it blanks two rows (`Tty.Console.FillRow`). What is seen is as if it had blanked one (`Tty.Console.Feed`),
  but row 50 must exist in memory.
* `vsnprintf` stores its terminator outside the buffer if and only if the output is longer than a non-empty buffer
  (`Format.Printer.Terminate`).
* An integer conversion of `vsnprintf` gives what the standard says if and only if (`FormatStandard.StandardExactly`)
  it is none of these: the value 0 with precision 0, not in alternate octal form; the value 0 in alternate hexadecimal
  form; an unsigned conversion with the flag `+`, or with a space that does not pass for padding; or a precision
  together with the flag `0` in a field wide enough for padding at the left. One input for each:
  `FormatStandard.ZeroShown`, `FormatStandard.ZeroPrefixed`, `FormatStandard.UnsignedSigned`,
  `FormatStandard.ZerosDespitePrecision`.

## Model

| member | source | states |
|---|---|---|
| `HeapBlocks.FirstFit` | kernel/mem/heap.c:225-232 | the block chosen is the first free one that is big enough, and none before it is |
| `HeapBlocks.GrowthPages` | kernel/mem/heap.c:168-179 | growth asks for enough pages if and only if maxpages leaves room for them; for at least 16 unless the window ends there, and for more than 16 only if one page less would not hold the request |
| `HeapBlocks.GrowBigEnough` | kernel/mem/heap.c:167-219 | the block that growth leaves at the end is large enough for the request |
| `HeapBlocks.CarveShape` | kernel/mem/heap.c:256-312 | carving keeps the blocks tiling the heap exactly, with no two free neighbours |
| `HeapBlocks.ReleaseShape` | kernel/mem/heap.c:327-391 | the merge of a released block with its true free neighbours keeps the blocks tiling the heap exactly, with no two free neighbours (which neighbours heap_free finds is another matter: Heap.Heap.Free) |
| `HeapBlocks.GrowShape` | kernel/mem/heap.c:181-219 | growth keeps the blocks tiling the heap, up to the new end, with no two free neighbours |
| `HeapLinks.Splice` | kernel/mem/heap.c:268-311 | the invariant of the whole heap follows from that of the blocks before, between and after a change |
| `HeapLinks.Rebuild` | kernel/mem/heap.c:268-311 | stores to one stretch of blocks and the two links around it restore the invariant of the whole heap |
| `HeapLinks.FreeBlocksRoomy` | kernel/mem/heap.c:53-58 | in a sound heap every free block is large enough for its links, so that 8-byte free blocks cannot occur |
| `HeapSteps.StaleLink` | kernel/mem/heap.c:196-205 | a block grown after an allocated last block has the previous free block still linking to nothing, against the invariant |
| `HeapSteps.GrownCarvable` | kernel/mem/heap.c:181-219 | after growth everything but that one link is in order, and no allocated payload has changed |
| `HeapSteps.WholeDone` | kernel/mem/heap.c:256-275 | the stores for a whole block restore the full invariant, whether the list was complete before or not |
| `HeapSteps.SplitDone` | kernel/mem/heap.c:279-312 | the stores of a split restore the full invariant if and only if the remainder is not exactly 32 bytes |
| `HeapSteps.SplitSliver` | kernel/mem/heap.c:293-305 | with a remainder of 32 bytes the prev link overwrites the footer, and the invariant is broken |
| `HeapSteps.CarveUntouched` | kernel/mem/heap.c:250-312 | an allocation's stores change no word of a payload that is already allocated |
| `HeapRelease.PrevDone` | kernel/mem/heap.c:344-349 | merging into a previous free block releases the block |
| `HeapRelease.BothDone` | kernel/mem/heap.c:329-340 | merging with both free neighbours releases the block |
| `HeapRelease.NextDone` | kernel/mem/heap.c:353-371 | merging with the next free block releases the block, at the same place in the list |
| `HeapRelease.AloneDone` | kernel/mem/heap.c:375-391 | a block without free neighbours is released if and only if it is larger than 8 bytes |
| `HeapRelease.MisplacedMerge` | kernel/mem/heap.c:114-126 | with the previous block's address one word too low, as it is computed, the merge never releases the block; what it stores instead is in HeapMisfree |
| `HeapRelease.SecondBlockNotFreed` | kernel/mem/heap.c:114-126 | a concrete heap of three allocated blocks in which freeing the second does not release it |
| `HeapMisfree.MisfreedWords` | kernel/mem/heap.c:318-350 | the exact effect of freeing any block but the first: the word before the previous header and one further word get a size, and, if the next block is free, the previous block's flags get its next link, and the prev link of the free block after it, if there is one, an address; all other words stay |
| `HeapMisfree.LandingAt` | kernel/mem/heap.c:318-350 | where that further word lies, computed from the sizes of the blocks around |
| `HeapMisfree.MisfreedUntouched` | kernel/mem/heap.c:318-350 | the other allocated payloads stay as they were if and only if that word lies in none of them, or already holds what is stored |
| `HeapMisfree.PayloadOverwritten` | kernel/mem/heap.c:318-350 | a concrete sound heap in which freeing the second block stores 48 into the payload of the first |
| `HeapMisfree.MisfreedSound` | kernel/mem/heap.c:318-350 | freeing any block but the first leaves a sound heap, with the block still allocated, if and only if it is the second, no link is changed, and the misplaced footer spoils no block or lies beyond the heap |
| `HeapMisfree.SecondBlockLeaks` | kernel/mem/heap.c:318-350 | a concrete heap in which freeing the second block leaves the heap sound and the other payload as it was: the block leaks |
| `HeapRuns.LiveDisjoint` | kernel/mem/heap.c:238-316 | the payloads of two allocated blocks share no word |
| `HeapRuns.CarveLive` | kernel/mem/heap.c:238-316 | an allocation adds one block to those allocated, of exactly the words asked for, or two more if these would be left over, and changes none |
| `HeapRuns.ReleaseLive` | kernel/mem/heap.c:327-391 | the merge with the true free neighbours removes its block from those allocated, and changes no other |
| `HeapRuns.GrowLive` | kernel/mem/heap.c:167-220 | growth changes no allocated block |
| `HeapRuns.NothingLive` | kernel/mem/heap.c:327-391 | a heap with nothing allocated is one free block of pages*4096-72 bytes |
| `HeapRuns.ReleaseAllLeavesOne` | kernel/mem/heap.c:327-391 | if every release merged with the true free neighbours, releasing all allocated blocks in any order would leave that one free block; heap_free as coded does not reach this, see HeapRuns.FreeAllAsCoded |
| `HeapRuns.StepSound` | kernel/mem/heap.c:238-392 | on the block lists, with the true free neighbours at each release: a request or release keeps the blocks tiling the heap and every other allocation where it is |
| `HeapRuns.RunsKeepAllocations` | kernel/mem/heap.c:238-392 | on the block lists, with the true free neighbours at each release: over any run an allocation not given back stays at its place with its size, and pages never exceed maxpages |
| `HeapRuns.RunAsCoded` | kernel/mem/heap.c:238-392 | over any run of heap_alloc and heap_free as coded, in memory, every call keeps the heap sound, does what it is for and leaves all other payloads alone if and only if no split leaves 32 bytes and every free is of the heap's first, unstranded block |
| `HeapRuns.SafeRunAsCoded` | kernel/mem/heap.c:238-392 | over any such run every call keeps the heap sound and all other payloads as they were if and only if every call is safe: no split leaves 32 bytes, and every free is of the first, unstranded block, or only leaks its block and spares the others; the blocks at the end are then those that the first block's frees leave |
| `HeapRuns.RunKeepsPayload` | kernel/mem/heap.c:238-392 | over a run in which all calls are safe, an allocation that is not given back stays where it is, and so do its payload words |
| `HeapRuns.GoodRunIsSafe` | kernel/mem/heap.c:238-392 | a run in which every call does what it is for is one in which all calls are safe |
| `HeapRuns.FreeAllAsCoded` | kernel/shell.c:191-197 | freeing all live allocations as coded releases every one of them if and only if at most one is live, and it is the heap's first block and not stranded |
| `Heap.Round16Meaning` | kernel/mem/heap.c:22-24 | rounding gives the least size of at least n that is 8 modulo 16 if and only if n is not among the last seven 64-bit numbers |
| `Heap.RequestExact` | kernel/mem/heap.c:168-172 | the largest request for which neither rounding nor the count of pages wraps: exactly those up to 2^64-4120 |
| `Heap.Heap.constructor` | kernel/mem/heap.c:60-87 | a new heap is sound and has one free block of all its pages less 72 bytes |
| `Heap.Heap.PrevAdjacent` | kernel/mem/heap.c:113-126 | the pointer returned for any block but the first is one word before the previous block's header, free or not |
| `Heap.Heap.NextAdjacent` | kernel/mem/heap.c:98-109 | the next block's header if there is a next block and it is free, otherwise NULL |
| `Heap.Heap.ScanNext` | kernel/mem/heap.c:130-143 | the scan over headers finds the first free block after a block, or NULL |
| `Heap.Heap.ScanPrev` | kernel/mem/heap.c:147-162 | the scan over footers finds the last free block before a block, or NULL |
| `Heap.Heap.GrowHeap` | kernel/mem/heap.c:167-220 | growth fails if and only if the window has fewer words left than the request and its three tags; otherwise it adds at least 16 pages, unless the window ends there, and no page more than that or the request needs, gives a large enough last block, touches no payload, and leaves the previous free block's next link unset |
| `Heap.Heap.FindFree` | kernel/mem/heap.c:224-236 | finds the first free block that fits, or grows; NULL if and only if neither is possible, and then nothing has changed |
| `Heap.Heap.Alloc` | kernel/mem/heap.c:238-316 | returns an aligned payload of at least the requested bytes and less than 32 more, in the first block that fits or the grown last one; nothing grows while a free block fits, and NULL is returned exactly when none fits and the window is too small; leaves allocated payloads alone, and keeps the heap sound if and only if no split leaves exactly 32 bytes |
| `Heap.Heap.Coalesce` | kernel/mem/heap.c:327-391 | given the true free neighbours, the three-way merge releases the block (if and only if it is not stranded) and touches no payload; given a previous neighbour one word too low it never does, and memory is exactly what HeapMisfree says |
| `Heap.Heap.Free` | kernel/mem/heap.c:318-392 | heap_free as coded releases a block if and only if it is the heap's first and not stranded; for any other block memory is exactly what HeapMisfree says, the heap stays sound if and only if the block only leaks, and all other payloads stay as they were if and only if the footer spares them |
| `Heap.Heap.Make` | kernel/mem/heap.c:238-392 | one call of heap_alloc or heap_free is a step of a run as HeapRuns.RunAsCoded and HeapRuns.SafeRunAsCoded speak of them |
| `QSort.ScanUp` | libc/stdlib/qsort.c:35-37 | the upward scan stops at a sentinel inside the array, at the first element not below the pivot |
| `QSort.ScanDown` | libc/stdlib/qsort.c:39-41 | the downward scan stops at a sentinel inside the array, at the last element not above the pivot |
| `QSort.Round` | libc/stdlib/qsort.c:34-52 | each round keeps both sentinels for the next, by swapping them in |
| `QSort.Partition` | libc/stdlib/qsort.c:24-53 | the parts are on their sides of the pivot, the array is permuted, and part+1 < num |
| `QSort.QSort` | libc/stdlib/qsort.c:13-62 | sorts the range and permutes it, for every comparison function of a total preorder, and terminates |
| `PMapRegions.ResortPermutes` | kernel/mem/pmap.c:75-86 | resort loses no record and leaves those before its start alone |
| `PMapRegions.ResortSorts` | kernel/mem/pmap.c:75-86 | resort sorts a list that is sorted but for its first record |
| `PMapRegions.TypeAtPermuted` | kernel/mem/pmap.c:278-280 | the meaning of a list of regions does not depend on their order |
| `PMapCollapse.StepProgress` | kernel/mem/pmap.c:96-199 | each round makes the pair of total size and records left smaller, in lexicographic order, though one case inserts a record |
| `PMapCollapse.ResolvedMeaning` | kernel/mem/pmap.c:117-197 | each of the alignment cases keeps, for every address, the highest type that covers it |
| `PMapCollapse.StepMeaning` | kernel/mem/pmap.c:96-199 | a round with its re-sort keeps the meaning of the whole list |
| `PMapCollapse.StepSorted` | kernel/mem/pmap.c:96-199 | a round keeps the records sorted by address and size |
| `PMapCollapse.StepBehind` | kernel/mem/pmap.c:96-199 | as long as it passes no region that reaches into a later one, the regions behind the scan are not empty and end before every later non-empty one starts |
| `PMapCollapse.StepReaches` | kernel/mem/pmap.c:96-199 | a region behind the scan that reaches into a later one still does so after any round: the scan never looks back |
| `PMapCollapse.CollapseMeaning` | kernel/mem/pmap.c:90-200 | resolving overlaps keeps the highest type at every address |
| `PMapCollapse.CollapseDisjoint` | kernel/mem/pmap.c:90-200 | if the scan is smooth the result is non-empty regions in order, pairwise disjoint, with no new endpoint |
| `PMapCollapse.CollapseExact` | kernel/mem/pmap.c:90-200 | for every sorted list the result is disjoint non-empty regions if and only if no region that the scan passes before an empty one reaches into a later one, and the scan does not end with an empty region |
| `PMapCollapse.ClearExact` | kernel/mem/pmap.c:90-200 | where no empty region lies strictly inside a non-empty one, that is so if and only if no empty region lies after all non-empty ones |
| `PMapCollapse.HarmlessResolvable` | kernel/mem/pmap.c:275-289 | if no empty region lies strictly inside a non-empty one or after all of them, the scan is smooth however the list is sorted |
| `PMapCollapse.EmptyRegionHidesOverlap` | kernel/mem/pmap.c:98-115 | with an empty region strictly inside another the scan can pass over an overlap: a concrete list stays overlapping |
| `PMapCollapse.RoomEnough` | kernel/mem/pmap.c:184 | the table never holds more than three times the records it started with, whatever empty regions it has |
| `PMapNormal.FillMeaning` | kernel/mem/pmap.c:204-241 | exactly the addresses between the first and the last region that none covers get the fill type |
| `PMapNormal.FillGapless` | kernel/mem/pmap.c:204-241 | afterwards each region ends where the next starts |
| `PMapNormal.MergeCanonical` | kernel/mem/pmap.c:244-260 | merging neighbours keeps the meaning and leaves no two neighbours of one type |
| `PMapNormal.NormalizedRight` | kernel/mem/pmap.c:275-289 | resolving, filling and merging a sorted list give the canonical form of its meaning, whenever the scan is smooth |
| `PMapNormal.NormalMeans` | kernel/mem/pmap.c:275-289 | in terms of the regions themselves: an address that some cover gets the highest of their types, one that none covers is reserved if there are regions on both sides of it, and has no type otherwise |
| `PMapNormal.CanonicalUnique` | kernel/mem/pmap.c:275-289 | two canonical maps with the same meaning are the same, but for flags |
| `PMapNormal.NormalAgain` | kernel/mem/pmap.c:275-289 | normalizing a second time changes nothing |
| `PMapNormal.AddToNormal` | kernel/mem/pmap.c:321-328 | adding a region to a normalized map is adding it to the original regions if and only if it is not a usable one over an address that was reserved as a gap |
| `PMapNormal.AddRunNormal` | kernel/mem/pmap.c:321-328 | over any run of additions the table is the normal form of all that was ever added, as long as no usable region falls in a gap |
| `PMapNormal.AddInAnyOrder` | kernel/mem/pmap.c:321-328 | two regions can be added in either order with the same result if and only if neither is a usable one over a gap that is left when the other is added first; for any two types |
| `PMapNormal.UsableOrderMatters` | kernel/mem/pmap.c:321-328 | a concrete case in which the order matters for a usable region |
| `PMap.PMap.StepAt` | kernel/mem/pmap.c:96-199 | one round in place on the table is one round on the list |
| `PMap.PMap.CollapseOverlaps` | kernel/mem/pmap.c:90-200 | for every sorted table the loop in place computes the collapsed list, within the table's room, and ends |
| `PMap.PMap.FillGaps` | kernel/mem/pmap.c:204-241 | the loop in place computes the filled list, within the table's room, and ends |
| `PMap.PMap.ConsolidateNeighbors` | kernel/mem/pmap.c:244-260 | the loop in place computes the merged list |
| `PMap.PMap.UpdateLastUsable` | kernel/mem/pmap.c:262-273 | last_usable is the least bound of the usable addresses |
| `PMap.PMap.Normalize` | kernel/mem/pmap.c:275-289 | the table becomes the normal form of its regions, with last_usable right, if the scan of the sorted table is smooth |
| `PMap.PMap.Add` | kernel/mem/pmap.c:321-328 | an uninitialized map holds one region more; an initialized one becomes the normal form of what it held with the region added, with last_usable right |
| `PMap.PMap.Init` | kernel/mem/pmap.c:291-313 | the boot map and the kernel's three regions, normalized |
| `PageTree.WithPageSound` | kernel/mem/kmem.c:85-142 | adding a page above all others keeps every slot in a table of its own level, and leaves where leaves may be |
| `PageTree.WithPageWalk` | kernel/mem/kmem.c:85-142 | the addresses of a new page find it at its size, and a walk for any other address finds what it found before |
| `PageTiling.TilesTile` | kernel/mem/kmem.c:158-185 | the pages chosen for a region follow each other from its start to its end, each aligned |
| `PageTiling.NoStraddle` | kernel/mem/kmem.c:158-185 | an aligned page that starts in an aligned page of its size or larger ends in it |
| `PageTiling.Coarsest` | kernel/mem/kmem.c:158-185 | every aligned 4K, 2M or 1G page inside a region lies within one of the pages chosen |
| `PageTiling.FewestPages` | kernel/mem/kmem.c:158-185 | no tiling of the region by aligned pages has fewer pages |
| `PageTiling.RegionWalkFrom` | kernel/mem/kmem.c:146-186 | after mapping a region each of its addresses finds the page over it, and no other address is affected |
| `PageMap.MapWalk` | kernel/mem/kmem.c:201-204 | after any number of regions a walk finds the page of the region over an address, and nothing where there is none |
| `PageMap.ReservedSide` | kernel/mem/kmem.c:153-156 | a reserved region of a normalized map lies wholly below or wholly above last_usable |
| `PageMap.MapTreeWalk` | kernel/mem/kmem.c:188-205 | for the whole map a walk finds a page exactly where the memory map says memory is to be mapped |
| `KMem.DecodeEncoded` | kernel/mem/kmem.c:73-97 | the bits of each entry, as the processor reads them, say again what the entry was made for |
| `KMem.KTable.GetPdFlags` | kernel/mem/kmem.c:20-43 | the flags of large leaves bit by bit for types 1 to 7: none for 5 and 7; otherwise present, writable, supervisor, page size, global and system, and written through and uncached exactly for 4 and 6; failure for exactly the other types |
| `KMem.KTable.GetPtFlags` | kernel/mem/kmem.c:46-69 | the same for small leaves, without the page-size bit |
| `KMem.KTable.AllocPage` | kernel/mem/kmem.c:73-82 | each table gets the next page of its own; failure exactly when none is left |
| `KMem.KTable.CreateHugePage` | kernel/mem/kmem.c:85-97 | the table pages represent the tree with the 1 GiB page added |
| `KMem.KTable.CreateLargePage` | kernel/mem/kmem.c:100-117 | the table pages represent the tree with the 2 MiB page added |
| `KMem.KTable.CreateSmallPage` | kernel/mem/kmem.c:120-142 | the table pages represent the tree with the 4 KiB page added |
| `KMem.KTable.MapPages` | kernel/mem/kmem.c:158-185 | the loop adds the coarsest tiling of the region, or stops for want of tables or an unknown type |
| `KMem.KTable.MapRegion` | kernel/mem/kmem.c:146-186 | regions not to be mapped change nothing; others are mapped |
| `KMem.KTable.WalkAgrees` | kernel/mem/kmem.c:85-142 | a walk of the table pages by the processor finds what the tree says, so that no slot is both a leaf and a pointer |
| `KMem.KTable.Init` | kernel/mem/kmem.c:188-205 | the tables of a whole normalized map, or a stop for want of tables or an unknown type |
| `KMem.KTable.IdentityMap` | kernel/mem/kmem.c:188-205 | an address is mapped if and only if it has type 1, 3, 4 or 6, or type 2 below last_usable; it then translates to itself, uncached exactly for types 4 and 6, with the page size of its tiling, and every entry on the way allows writing; every other address is not present |
| `Frames.RunConserves` | kernel/mem/paging.c:179-219 | over any run of pfalloc and pffree no frame appears or is lost, and none is available while allocated |
| `Frames.CounterDrifts` | kernel/mem/paging.c:179-219 | pfdb.avail counts frees only: after any run it is the first count plus the frees, modulo 2^32 |
| `Frames.CheckMissesEmpty` | kernel/mem/paging.c:182-184 | allocating every frame leaves an empty list with the counter unchanged, so the check does not stop the next allocation |
| `Frames.FramesAscend` | kernel/mem/paging.c:145-173 | the frames that page_init lists ascend |
| `Frames.ListedIsUsable` | kernel/mem/paging.c:145-173 | a frame is listed if and only if the memory map says that its last byte is usable, wherever regions start and end |
| `Frames.WholeFrames` | kernel/mem/paging.c:145-173 | if regions consist of whole frames, all bytes of a frame are of one type, so that listed frames are usable throughout |
| `Frames.DatabaseNotListed` | kernel/mem/paging.c:125-133 | no frame of the memory reserved for the frame database is listed |
| `Frames.ReserveRegion` | kernel/mem/paging.c:77-104 | the aligned start of the first usable region that can hold the block; NULL exactly when the block fits at no address that is a multiple of 2 MiB, in no usable region (the call of pmap_add is in PageInit.ReserveDatabase) |
| `Frames.FrameDb.PfAlloc` | kernel/mem/paging.c:179-199 | takes the first frame off the doubly linked list, which stays the list of exactly the available frames |
| `Frames.FrameDb.PfFree` | kernel/mem/paging.c:201-219 | puts an allocated frame at the front of that list; stops for any other |
| `Frames.FrameDb.PgFree` | kernel/mem/paging.c:235-241 | drops a reference, and frees the frame with the last one |
| `Frames.FrameDb.AppendRegion` | kernel/mem/paging.c:152-173 | links the chain of one region to the end of the list |
| `Frames.FrameDb.Init` | kernel/mem/paging.c:138-174 | one doubly linked list of exactly the frames of usable regions, ascending, with avail its length, if each usable region reaches into a later frame than it starts in |
| `PageInit.ReserveDatabase` | kernel/mem/paging.c:109-129 | counts the frames and reserves memory for the database: the map becomes the normal form with the block reserved, which was usable before; fails exactly when nothing is usable or no region can hold it |
| `PageInit.ListFrames` | kernel/mem/paging.c:136-174 | the database lists exactly the frames that were usable, but for its own, though last_usable may have come down since they were counted |
| `PageInit.DatabaseReached` | kernel/mem/paging.c:125-137 | once its memory is reserved the database lies wholly below last_usable or wholly beyond it, and below it if and only if the map had usable memory beyond the database before the call |
| `PageInit.PageInit` | kernel/mem/paging.c:106-177 | all of page_init, from a normal map of whole pages: without memory for the database, or tables, it stops; otherwise clearing the database faults if and only if no usable memory lies beyond it; if it does not fault, the database lists exactly the frames that were usable, but for its own, and every byte of every frame's 32-byte record was usable, is reserved, lies in no listed frame and is mapped to itself |
| `PageInit.DatabaseMapped` | kernel/mem/paging.c:131-137 | the kernel's page table maps every address of the database to itself if there is usable memory beyond it, and no address of it otherwise |
| `PageInit.SmallMachineFaults` | kernel/mem/paging.c:106-137 | with the map of a machine with 12 MiB of memory the database takes all usable memory, last_usable becomes 0, and page_init faults |
| `PageInit.KernelReserved` | kernel/mem/pmap.c:291-313 | below 10 MiB pmap_init raises every address at least to reserved, the video memory to uncached, and page 0 to unmapped |
| `PageInit.KernelKept` | kernel/mem/paging.c:145-173 | so none of the kernel's frames is listed |
| `Growth.SlotTells` | kernel/mem/paging.c:299-322 | an entry is empty exactly when the tree has nothing there, and otherwise leads back to its frame |
| `Growth.AdvancesTwice` | kernel/mem/paging.c:328-333 | what one mapping may change and what a later one may change compose |
| `Growth.LackingFalls` | kernel/mem/paging.c:299-333 | adding tables on the way to an address makes the set of prefixes without a lowest table smaller, which ends the recursion |
| `Growth.WalkAgrees` | kernel/mem/paging.c:292-323 | a walk through the frames finds what the tree says |
| `Growth.AllocatedTranslates` | kernel/mem/paging.c:414-422 | after page_alloc every address of the range translates into its page's own frame, cleared, taken from the list, and no other page's; every entry on the way allows writing, for the supervisor only |
| `Growth.OthersTranslate` | kernel/mem/paging.c:414-422 | every address outside the range and the table window that is no system address translates as before |
| `Growth.SystemTranslates` | kernel/mem/paging.c:303-308 | system addresses keep their root entry and their translation where the walk reads no frame that may be written; KernelSpace shows that it does not |
| `Growth.FreedTranslates` | kernel/mem/paging.c:424-431 | after page_free no address of the range translates |
| `Growth.FreeUndoesAlloc` | kernel/mem/paging.c:414-431 | page_free after page_alloc leaves every page outside the window as it was |
| `KernelSpace.KernelWalk` | kernel/mem/kmem.c:85-142 | a walk through the frames of the kernel's table pages finds what the kernel's tree says |
| `KernelSpace.KernelAvoids` | kernel/mem/kmem.c:85-142 | that walk reads only the kernel's own frames |
| `KernelSpace.RootEntries` | kernel/mem/paging.c:375-379 | the entries of the kernel's root table that pagetable_create copies are empty or system entries |
| `Paging.AddressSpace.PgAlloc` | kernel/mem/paging.c:221-233 | a cleared frame from the list, used by no table |
| `Paging.AddressSpace.Create` | kernel/mem/paging.c:363-380 | a fresh root with the kernel's entries and nothing else, and a window after the root's address |
| `Paging.AddressSpace.Tables` | kernel/mem/paging.c:295-320 | the lowest table over an address; if tables are added, fewer prefixes lack one |
| `Paging.AddressSpace.AddPte` | kernel/mem/paging.c:275-334 | maps the page, and only pages of the window beside it; writes only tables, no system entry; stops only for want of frames or window, or at a system address; and terminates |
| `Paging.AddressSpace.MapTables` | kernel/mem/paging.c:328-333 | the loop that maps the added tables keeps the mapped page and all pages outside the window |
| `Paging.AddressSpace.MapTable` | kernel/mem/paging.c:330-333 | an added table is found at the window address it was given if and only if there was a lowest table over that address before; otherwise a table added on the way is mapped there instead |
| `Paging.AddressSpace.PageAlloc` | kernel/mem/paging.c:414-422 | each page of the range gets its own cleared frame, and nothing outside the range and the window is mapped differently |
| `Paging.AddressSpace.RemovePte` | kernel/mem/paging.c:336-361 | unmaps exactly one page and returns its frame, or 0 for a page that is not mapped, under any address that has a lowest table |
| `Paging.AddressSpace.FreePage` | kernel/mem/paging.c:424-431 | the page is unmapped, its frame goes back to the front of the list, and only tables are written |
| `Paging.AddressSpace.PageFree` | kernel/mem/paging.c:424-431 | unmaps exactly the pages of the range, returns their frames to the list, the last one first, and writes only tables |
| `Spaces.CallSpares` | kernel/mem/paging.c:414-431 | page_alloc and page_free in one address space write no table of another one, which still represents its tree in frames that are not available |
| `Spaces.SpaceTranslates` | kernel/mem/paging.c:414-431 | so an address of the other space that is no system address translates as before |
| `Spaces.TableInFrames` | kernel/mem/kmem.c:188-205 | the kernel's table pages, read as page frames, represent the kernel's tree |
| `Spaces.NewSpace` | kernel/mem/paging.c:363-380 | pagetable_create gives an address space that carries the kernel's part: the kernel's system entries and no others, beside kernel tables that are never listed |
| `Spaces.CallCarries` | kernel/mem/paging.c:414-431 | page_alloc and page_free keep the kernel's part of their address space, if no frame of the kernel's memory is freed |
| `Spaces.CallCarriesBeside` | kernel/mem/paging.c:414-431 | and that of any other address space |
| `Spaces.CarriedIdentity` | kernel/mem/paging.c:303-308 | in an address space that carries the kernel's part a system address translates to itself exactly where the memory map has memory to be mapped, and to nothing elsewhere |
| `Spaces.RunSpares` | kernel/mem/paging.c:414-431 | over any run of page_alloc and page_free in one address space, the tables of another one stay, and its addresses translate as at the start |
| `Spaces.RunCarries` | kernel/mem/paging.c:414-431 | over any run that frees none of the kernel's memory the address space carries the kernel's part at every moment |
| `Spaces.RunCarriesBeside` | kernel/mem/paging.c:414-431 | and so does every other one that did at the start |
| `Spaces.AllocBeside` | kernel/mem/paging.c:414-422 | in place, with two address spaces on one database: page_alloc in the first keeps the second sound, with its tables allocated and its tree unchanged |
| `Spaces.FreeBeside` | kernel/mem/paging.c:424-431 | likewise page_free, of frames that hold no table of the second |
| `LogText.EvictedRight` | kernel/debug/log.c:74-97 | the messages taken away are exactly those that start within the characters asked for, or right after them |
| `LogText.EvictedEnough` | kernel/debug/log.c:74-97 | enough is taken away, and at most one message more than needed |
| `LogText.EvictedTooMany` | kernel/debug/log.c:86-96 | one message too many goes exactly when the characters asked for end where a message ends |
| `LogText.KeptFits` | kernel/debug/log.c:116-119 | after eviction there is room for the new message |
| `LogText.KeptLeast` | kernel/debug/log.c:111-119 | nothing goes if the new text fits into 64 KiB; otherwise so many messages that one fewer would leave no character unused |
| `LogText.LoggedLeast` | kernel/debug/log.c:138-192 | a new message costs the messages that must make room for its text; or, if none must and there are 1024 already, the oldest one; and no other |
| `LogText.RunKeepsNewest` | kernel/debug/log.c:187-192 | after any run the log holds an exact suffix of all messages, with the newest, within both buffers |
| `LogText.RunLosesLeast` | kernel/debug/log.c:187-192 | after any run every end of it with at most 1024 messages and less than 64 KiB of text is still in the log |
| `Log.Context.EvictMsg` | kernel/debug/log.c:74-97 | the two loops over characters evict the texts and the records of exactly those messages |
| `Log.Context.EvictOldestMsg` | kernel/debug/log.c:99-109 | takes the characters of exactly the first text |
| `Log.Context.CopyIn` | kernel/debug/log.c:121-135 | appends the text and its terminator, in two parts where it wraps around |
| `Log.Context.AddMsg` | kernel/debug/log.c:111-136 | makes room (LogText.KeptLeast says by how much) and appends; the offset returned is where the text starts, modulo the buffer's size |
| `Log.Context.AddRecord` | kernel/debug/log.c:138-162 | a full record buffer loses its oldest record with its text; the new record matches the new text |
| `Log.Context.Log` | kernel/debug/log.c:187-192 | records and texts match one to one in order, and what is live is what LogText.Logged gives, of which LogText.LoggedLeast says what goes |
| `Log.Context.RecordLeadsToText` | kernel/debug/log.c:27-32 | reading from a record's offset modulo the buffer's size gives its message's text and terminator |
| `KeyRing.IrqInv` | kernel/device/keyboard.c:132-161 | an interrupt keeps the invariant: the slot it writes holds no unread key |
| `KeyRing.ReaderStepInv` | kernel/device/keyboard.c:317-337 | every single step of the reader keeps the invariant, and can be taken |
| `KeyRing.EveryInterleaving` | kernel/device/keyboard.c:132-161 | in every interleaving, at every moment, keys taken followed by keys buffered are the accepted keys in order, the size is at most 32, and each call returned the first key that it took and that answers it: any key for kb_getkey, one with a character for kb_getchar |
| `KeyRing.GivesUpWhenEmpty` | kernel/device/keyboard.c:293-325 | a call gives up if and only if no key is unread when it checks |
| `KeyRing.IrqKeepsUnread` | kernel/device/keyboard.c:132-161 | at any step of the reader an interrupt leaves the unread keys alone and adds its own unless 32 are unread |
| `Keyboard.UninterruptedCall` | kernel/device/keyboard.c:317-337 | the reader's steps, taken without interrupts, take and return the oldest key |
| `Keyboard.KbState.PutKey` | kernel/device/keyboard.c:132-161 | appends the key, or drops it when 32 are buffered |
| `Keyboard.KbState.KbGetKey` | kernel/device/keyboard.c:317-337 | returns and removes the oldest key, or reports an empty buffer |
| `Keyboard.KbState.KbGetChar` | kernel/device/keyboard.c:293-315 | returns the first character and removes the keys up to it; 0 and an empty buffer if there is none |
| `Tty.Console.Clear` | kernel/device/tty.c:173-191 | every cell is blank in the current colours, and the cursor is in the corner |
| `Tty.Console.FillRow` | kernel/device/tty.c:326-328 | the fill blanks the row at the bottom of the screen and, as it takes words for bytes, the row after it, and no row before |
| `Tty.Console.Feed` | kernel/device/tty.c:286-339 | a line feed does to the visible rows what it does to a plain screen, across the wrap from row 50 to row 25 too |
| `Tty.Console.PrintChar` | kernel/device/tty.c:239-340 | a character, or an escape with its colour code, does to the visible rows and colours what it does to a plain screen; an escape writes nothing |
| `Tty.Console.PrintEscape` | kernel/device/tty.c:217-272 | an escape sets one colour and takes four characters if it is a colour code, and otherwise takes one and changes nothing |
| `Tty.Console.SetTextColor` | kernel/device/tty.c:121-129 | sets the colours, also those that a code can go back to |
| `Screen.ColoredText` | kernel/device/tty.c:253-272 | text between a colour code and the code for going back is printed in that colour, and the colour is then as before |
| `Screen.GroundedText` | kernel/device/tty.c:262-270 | the same for the background |
| `Layout.ColorDigits` | kernel/device/tty.c:217-237 | a colour code's character is a digit in base 16, in either case, or `-` for the original colour, and no other |
| `Layout.EscapeAlone` | kernel/device/tty.c:253-272 | an escape that starts no colour code writes nothing, and what follows it is printed |
| `Screen.TypedConcat` | kernel/device/tty.c:342-354 | text is printed as if by itself, whatever follows |
| `Layout.TextLaidOut` | kernel/device/tty.c:239-340 | any text with newlines is laid out along rows of 80 columns from the cursor on, the screen scrolls as far as it must, rows that come in are blank, and the cursor is where the text ends |
| `Layout.CharacterShown` | kernel/device/tty.c:275-299 | character i of such a text is in the row and column of its position, unless that row has left the screen |
| `Layout.BackspaceBlanks` | kernel/device/tty.c:273-279 | a backspace takes the cursor back and blanks the cell there, but not beyond the start of its row |
| `Tty.Console.Print` | kernel/device/tty.c:342-354 | printing a string, with its colour codes and characters of any code, does to the visible rows what it does to a plain screen |
| `Tty.Console.Seen` | kernel/device/tty.c:327-330 | what lies at a row and column from the top left corner is what the plain screen has there |
| `Tty.Scrolled` | kernel/device/tty.c:286-331 | the copies of single rows stand in for a full copy of the screen when the buffer wraps |
| `FormatText.StrLength` | libc/stdio/vsnprintf.c:104-140 | a string takes its width, or its cut length if that is more |
| `FormatText.IntLength` | libc/stdio/vsnprintf.c:142-248 | an integer takes exactly the larger of width and the number of its characters |
| `FormatText.IntReads` | libc/stdio/vsnprintf.c:142-248 | for all flags, widths and precisions: spaces, sign, prefix and digits, and the digits read back in the base as the magnitude |
| `FormatText.DigitsRead` | libc/stdio/vsnprintf.c:229-240 | digits generated from the lowest up read back as the value |
| `FormatText.SignedConverted` | libc/stdio/vsnprintf.c:453-498 | a value that fits its type is shown with its own sign and magnitude |
| `FormatStandard.StandardExactly` | libc/stdio/vsnprintf.c:142-248 | for all flags, widths, precisions, bases and values: the text is what section 7.21.6.1 of ISO/IEC 9899:2011 asks for if and only if none of four departures applies |
| `FormatStandard.RunNumeral` | libc/stdio/vsnprintf.c:229-240 | the digits generated backwards are the value's own after zeros |
| `FormatStandard.ZeroShown` | libc/stdio/vsnprintf.c:173-176 | an input for the first departure: the value 0 with precision 0 is written |
| `FormatStandard.ZeroPrefixed` | libc/stdio/vsnprintf.c:207-211 | an input for the second: the value 0 gets a prefix |
| `FormatStandard.UnsignedSigned` | libc/stdio/vsnprintf.c:196-205 | an input for the third: an unsigned value gets a sign |
| `FormatStandard.ZerosDespitePrecision` | libc/stdio/vsnprintf.c:213-220 | an input for the fourth: zeros pad although a precision is given |
| `FormatParser.Step` | libc/stdio/vsnprintf.c:268-550 | a turn that backs up over its character lowers the rank of the state, which ends the loop |
| `FormatParser.SpecParsed` | libc/stdio/vsnprintf.c:285-430 | any flags, any width and precision, given as numbers or as `*`, any length and any conversion, written out, are parsed into these fields; what they make of it is in FormatMeaning |
| `FormatParser.FormatParsed` | libc/stdio/vsnprintf.c:268-550 | a format of plain text and specifications writes its pieces in order, each with its own arguments |
| `FormatMeaning.NumberWritten` | libc/stdio/vsnprintf.c:430-550 | `d` and `i` show the argument's value in its type in base 10, with its sign; `u`, `x`, `X` and `o` show it modulo 2^8, 2^16, 2^32 or 2^64, as the length says, in base 10, 16, 16 and 8, in capitals exactly for `X`; `p` and `P` show 0x or 0X and at least 16 digits; `-`, `0`, `+`, space and `#`, width and precision decide side, padding, sign, prefix and number of digits |
| `FormatMeaning.FittingValue` | libc/stdio/vsnprintf.c:453-550 | a value that fits its type is shown as itself |
| `FormatMeaning.StringWritten` | libc/stdio/vsnprintf.c:432-434 | `s` writes its argument, cut to the precision, at the left of its field with `-` or a negative width, and otherwise at the right, after zeros with `0` and after blanks without |
| `FormatMeaning.CharWritten` | libc/stdio/vsnprintf.c:436-441 | `c` does the same with its argument modulo 256, and with nothing for 0 |
| `FormatMeaning.OtherWritten` | libc/stdio/vsnprintf.c:443-451 | `n` writes nothing and takes an argument; a character that is no conversion is written and takes none |
| `FormatMeaning.NumberFormatted` | libc/stdio/vsnprintf.c:268-562 | so vsnprintf of text, a number's specification and text writes both texts with that field between them |
| `FormatMeaning.WidthExample` | libc/stdio/vsnprintf.c:285-330 | the specification with flag 0 and width 4 is written %04 before its conversion |
| `FormatMeaning.PrecisionExample` | libc/stdio/vsnprintf.c:330-400 | the specification with flags - and +, width 17, precision 3 and length long is written %-+17.3l before its conversion |
| `FormatMeaning.StarExample` | libc/stdio/vsnprintf.c:330-428 | with arguments for width and precision it is written with stars; and how each length is written |
| `FormatParser.PercentWritten` | libc/stdio/vsnprintf.c:449-451 | `%%` writes a percent sign |
| `Format.Printer.AddChar` | libc/stdio/vsnprintf.c:95-102 | the buffer keeps as much of the output as it can hold |
| `Format.Printer.AddString` | libc/stdio/vsnprintf.c:104-140 | adds the padded and cut string |
| `Format.Printer.AddInt` | libc/stdio/vsnprintf.c:142-248 | adds the padded integer, generating its digits backwards |
| `Format.Printer.WriteDigits` | libc/stdio/vsnprintf.c:222-240 | digits written backwards, where the buffer reaches, are the digit string |
| `Format.Printer.Turn` | libc/stdio/vsnprintf.c:268-550 | one turn in place is one step of the parser |
| `Format.Printer.Terminate` | libc/stdio/vsnprintf.c:552-558 | the terminator is stored inside the buffer if and only if the output is no longer than the buffer or the buffer is empty |
| `Format.Printer.Vsnprintf` | libc/stdio/vsnprintf.c:250-562 | returns the length of the whole output, whatever n is; the buffer holds a prefix of that output, and its terminator where the output fits |

## Left out

* Boot loaders, interrupt assembly, port I/O, the display controller's registers, CR3 and the TLB: hardware effects.
  `fatal()` is a failure result after which nothing more is claimed.
* `kernel/mem/acpi.c` (a second, simpler page table builder), PCI, timer, system calls, shell and exceptions.
* `heap_destroy`, `pagetable_destroy` with `pgfree_recurse`, and `pagetable_activate`.
* Logging callbacks and the display of the log; keyboard layouts and meta keys; `tty_setpos`; consoles that share the
  memory before another's buffer.
* Pointer arguments of `vsnprintf` and the store of `%n`; reading an argument that was not passed, or of another type,
  is undefined in C and gives 0 or `(null)` here. Widths and precisions are unbounded integers, where the code has `int`.
* Table sizes of the memory map: the table is an array with room for three records for each one, where the code has no
  bound at all; `addr + size` is unbounded, so that regions do not wrap past 2^64.

- Heap.Heap.Alloc: requests above 2^64-4120 are excluded, as the number of pages then wraps round; Heap.RequestExact says that it does for exactly those.
- Heap.Heap.Make: excludes the same requests.
- HeapRuns.StepSound: a step is one on the block lists, with the true free neighbours at each release, and so are the runs of HeapRuns.RunsKeepAllocations and HeapRuns.ReleaseAllLeavesOne; what heap_free as coded does to memory over a run is in HeapRuns.RunAsCoded and HeapRuns.SafeRunAsCoded.
- PMap.PMap.Normalize: tables whose scan is not smooth are excluded, as the collapsed table then has overlaps, and filling gaps in it would compute sizes that wrap round; likewise in PMap.PMap.Add and PMap.PMap.Init. Types are assumed positive.
- KMem.KTable.Init: regions are assumed to consist of whole 4 KiB pages below 2^48, as the page loop would otherwise map past a region's end.
- Frames.FrameDb.Init: a usable region that lies within one frame is excluded, as its empty chain would be linked into the list.
- PageInit.PageInit: the memory map is assumed to consist of whole frames, and of fewer than 2^32-1 of them.
- Frames.FrameDb.PfAlloc: calls with an empty list and a counter that is not 0 are excluded, as the code would then read outside the database; likewise Frames.FrameDb.PfFree with an empty list, which would write outside it.
- Paging.AddressSpace.PgAlloc: stops where the list is empty, where the code would read outside the database.
- Paging.AddressSpace.PageAlloc: the requested range is assumed to lie outside the table window.
- Paging.AddressSpace.PageFree: the pages of the range are assumed mapped, to allocated frames with one reference each.
- Tty.Console.Valid: one console that is cleared before it is printed on, with the memory of one screen before its buffer to take the copies of rows 0 to 24.
- FormatText.IntReads: for the least 64-bit integer the code's negation overflows; the model takes the magnitude 2^63.
