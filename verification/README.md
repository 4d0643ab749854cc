# Early-boot physical memory manager of yui-os, in Dafny

This project models `kernel/memory.c` of yui-os. That file holds the kernel's
first memory manager, which has four parts:

- **`map_page`** identity-maps 2 MiB pages. It uses a page-directory-pointer
  table (`pdp`) and one flattened table of huge-page entries (`pte`).
- **`memory_block_new`** claims a record from a pool of block records. The
  pool fills the first page of the largest usable memory region.
- **`memory_split_block`** carves a span out of the block that contains it.
  The blocks form a doubly linked list starting at `head_memory_block`.
- **`alloc_page`** hands out a page first-fit. **`init_memory`** bootstraps
  the manager from the boot memory map.

The model is imperative where the source is:

- `Paging.PageTables` holds `pdp` and `pte` as arrays of `bv64`. Its method
  `MapPage` writes them in place.
- `RegionTables.RegionTable` holds the record pool as an array of `Block`
  records. Their `prev`/`next` links are slot indices, and `head` is
  `head_memory_block`. `BlockNew` and `SplitBlock` are loops over that pool.
  The ghost field `order` lists the slots met when walking the list.
  `Regions()` gives the blocks of the list as address ranges.
- `Allocator.AllocPage` and `Allocator.InitMemory` are the two entry points.
  The page tables and the region table are passed to them as objects.

The index arithmetic of `map_page` and the round-up `ALIGN_UP` are pure
functions (`Paging`, `Platform`).

Every operation is proved against a specification on values:

- `Paging.MapTables` specifies the tables after a mapping.
- `Regions.SplitAt` specifies the block list after a split.
- `Regions.FirstFit` and `Regions.TakePage` specify first-fit allocation.
- `Allocator.IsSelection` specifies the choice of memory-map entry.

The region list is proved to keep tiling the span it was seeded with
(`Regions.Covers`). Consequences of that tiling:

- blocks are ordered by address and never overlap;
- their lengths sum to the seeded length;
- a page handed out never overlaps an allocated block.

In several places the source breaks its own list (see Findings). The main
model implements the evident intent there. Module `AsWritten` models the
affected code exactly as written, on pool values, and exhibits each defect.

Constants that `memory.h` supplies are declared in `Platform`, with these
assumptions:

- `PAGE_SIZE_2MB` = 0x200000 and `NO_OF_PT_ENTRIES` = 512.
- `PG_PRESENT` = 1, `PG_RW` = 2 and `PG_PSE` = 0x80, as in the x86-64 paging
  structures.
- `memory_page_size()` returns the 2 MiB page size.
- `ALIGN_UP` rounds up to a multiple.
- `MEMORY_BLOCK_MAGIC` is some nonzero tag, so a zeroed slot is free.
- A block record takes 48 bytes, so the pool holds `PAGE_SIZE / 48` records.
- `MMAP_MEMORY_AVAILABLE` = 1, the E820 type of usable RAM.

## Model

| member | source | states |
|---|---|---|
| Platform.AlignUp | kernel/memory.c:113 | The rounded-up address is a multiple of the alignment, at least the input, and less than the input plus the alignment. |
| Platform.AlignUpLeast | kernel/memory.c:113 | No multiple of the alignment lies between the input and its round-up, so the round-up is the least such multiple. |
| Platform.Sub64 | kernel/memory.c:115 | `uint64_t` subtraction is exact when there is no borrow and wraps modulo 2^64 otherwise. |
| Paging.DirIndex | kernel/memory.c:10 | `pd_index` is the virtual address divided by 1 GiB. It is below 512 for every address the two tables cover. |
| Paging.PtIndex | kernel/memory.c:11 | The flattened `pt_index` equals the virtual address divided by 2 MiB. Its directory part is `pd_index`, and it is in range for every covered address. |
| Paging.HugeEntry | kernel/memory.c:17 | A huge-page entry has the present, writable and page-size bits set. |
| Paging.DirEntry | kernel/memory.c:14 | A directory-pointer entry has the present and writable bits set. |
| Paging.MapTables | kernel/memory.c:13-17 | Mapping makes the directory entry present. An entry already present is left untouched, and a missing one is pointed at the huge-page entry. The huge-page entry becomes the frame with its flags, and every other entry of both tables is unchanged. |
| Paging.MapIdempotent | kernel/memory.c:13-17 | Mapping the same address twice leaves the tables as mapping it once does. |
| Paging.PageTables.MapPage | kernel/memory.c:9-20 | Returns exactly the virtual address and leaves the tables equal to `MapTables` of the old tables. An address beyond the tables' reach is refused with nothing written. |
| Regions.TotalAppend | kernel/memory.c:58-102 | The total length of a concatenation of block lists is the sum of the two totals. |
| Regions.CoverSum | kernel/memory.c:58-102 | The lengths of a list that tiles [base, limit) sum to limit - base. |
| Regions.Ordered | kernel/memory.c:58-102 | In a contiguous list every block ends at or before the start of every later block, so blocks are sorted and disjoint. |
| Regions.InsideCover | kernel/memory.c:58-102 | Every block of a tiling of [base, limit) lies inside [base, limit). |
| Regions.Contains | kernel/memory.c:59 | The test a split uses to find its block. A span that passes it, together with the part of the block before it, is shorter than the block, so a non-empty tail remains. |
| Regions.SplitAt | kernel/memory.c:59-96 | The split replaces block k by its pieces and keeps the blocks before and after. The pieces are the shrunk original [b.address, address) when address > b.address, the unavailable [address, address+length), and the tail [address+length, old end), which is non-empty. |
| Regions.PiecesShape | kernel/memory.c:67-96 | The pieces that replace a split block tile it. There are three in the leading case and two in the start-aligned case. They start at the block's start and end at its end, the allocated block comes last but one, and the tail is non-empty. |
| Regions.PiecesTotal | kernel/memory.c:67-96 | The pieces of a split block add up to its length. |
| Regions.SplitPreservesTotal | kernel/memory.c:67-96 | A split leaves the total length of the list unchanged. |
| Regions.SplitAtCovers | kernel/memory.c:67-96 | A split of a tiling of [base, limit) is again a tiling of [base, limit). |
| Regions.FindContaining | kernel/memory.c:58-59 | Finds the first block that strictly contains the span (end strictly beyond the span's end). Returns None exactly when no block does. |
| Regions.FindContainingFirst | kernel/memory.c:58-59 | A containing block with no containing block before it is the one the scan finds. |
| Regions.FitsPage | kernel/memory.c:113-115 | The intended allocation test: the page at the block's first page boundary ends strictly inside it. A block that passes it is free and longer than a page. |
| Regions.ContainingIsUnique | kernel/memory.c:58-59 | In a contiguous list a block that contains the span is the one the walk finds. |
| Regions.FirstFit | kernel/memory.c:112-121 | Finds the first block, head to tail, that passes the allocation test. Returns None exactly when none does. |
| Regions.FitsPageContains | kernel/memory.c:113-116 | A block that passes the allocation test contains its first page-aligned page, so the split at line 116 finds it. |
| Regions.TakePage | kernel/memory.c:116 | The list after the page is taken: the page becomes an allocated block at the split block's position, or just after it when a leading piece stays. The list grows by one or two blocks, and the blocks before it are unchanged. |
| Regions.PageAvoidsAllocated | kernel/memory.c:113-117 | A page taken from a free block of a tiling does not overlap any allocated block. |
| Regions.SecondAllocationDisjoint | kernel/memory.c:107-124 | Two pages handed out one after the other from the same tiling are disjoint. |
| Arena.View | kernel/memory.c:7 | The region list is the list's records read off in walk order. |
| Arena.LinkedFrame | kernel/memory.c:45-48 | Writing a slot that is not on the list changes neither the list nor the blocks it describes. |
| Arena.LeadingOrder | kernel/memory.c:67-81 | After the leading-case splice, the walk meets the split block, then the allocated record, then the remainder, then the old successors. |
| Arena.LeadingOrderKeeps | kernel/memory.c:69-80 | The leading-case splice drops no slot from the list. |
| Arena.LeadingPool | kernel/memory.c:69-80 | The pool after the leading-case link writes. Its size is unchanged and no slot's tag changes. |
| Arena.LeadingTouchesListOnly | kernel/memory.c:67-81 | The leading-case splice writes only slots that are on the new list. |
| Arena.LeadingDistinct | kernel/memory.c:60-65 | The two records claimed for the leading case are fresh to the list, so the new walk visits no slot twice. |
| Arena.LeadingSlots | kernel/memory.c:69-80 | Gives each record's contents after the leading-case splice. The split block is shrunk and linked to the allocated record, which is linked to the remainder, and the successor points back at the remainder. |
| Arena.SpliceLeading | kernel/memory.c:67-81 | After the leading-case splice the links again follow the walk order, and the list describes `SplitAt` of the old list. |
| Arena.LeadingView | kernel/memory.c:67-81 | The blocks of the list after the leading-case splice are `SplitAt` of the old blocks. |
| Arena.LeadingSplice | kernel/memory.c:67-81 | The leading-case splice of a tiling of [base, limit) is again a linked tiling of it, equal to `SplitAt` of the old list. The head stays, the two new records follow the split block, and every slot off the new list is unchanged. |
| Arena.AlignedOrder | kernel/memory.c:82-96 | After the start-aligned splice the allocated record sits immediately before the rewritten original block. |
| Arena.AlignedOrderKeeps | kernel/memory.c:84-91 | The start-aligned splice drops no slot from the list. |
| Arena.AlignedPool | kernel/memory.c:84-91 | The pool after the start-aligned link writes. Its size is unchanged and no slot's tag changes. |
| Arena.AlignedTouchesListOnly | kernel/memory.c:82-96 | The start-aligned splice writes only slots that are on the new list. |
| Arena.AlignedDistinct | kernel/memory.c:65 | The record claimed for the start-aligned case is fresh to the list, so the new walk visits no slot twice. |
| Arena.AlignedSlots | kernel/memory.c:84-91 | Gives each record's contents after the start-aligned splice. The original becomes the tail and points back at the allocated record, which takes over the original's predecessor. |
| Arena.SpliceAligned | kernel/memory.c:82-96 | After the start-aligned splice the links follow the walk order, and the list describes `SplitAt` of the old list. |
| Arena.AlignedView | kernel/memory.c:82-96 | The blocks of the list after the start-aligned splice are `SplitAt` of the old blocks. |
| Arena.AlignedSplice | kernel/memory.c:82-96 | The start-aligned splice of a tiling of [base, limit) is again a linked tiling of it, equal to `SplitAt` of the old list. The allocated record takes the split block's place in the walk, and becomes the head exactly when the split block was the head. Every slot off the new list is unchanged. |
| RegionTables.RegionTable.constructor | kernel/memory.c:143 | The pool page starts zeroed, with `head_memory_block` at its first slot. |
| RegionTables.RegionTable.FindFreeSlot | kernel/memory.c:39-43 | Returns the first slot at or after the head whose tag is not the in-use tag. Returns None only when every slot from the head to the end of the pool is tagged. |
| RegionTables.RegionTable.BlockNew | kernel/memory.c:38-51 | Claims the first untagged slot from the head, sets its tag, address, length and availability, and changes no other slot. It fails, changing nothing, when the pool is full. |
| RegionTables.RegionTable.Seed | kernel/memory.c:146 | The first record becomes the whole region as one block, and the list tiles that region. |
| RegionTables.RegionTable.UntaggedNotListed | kernel/memory.c:41 | A slot without the in-use tag is not on the list. |
| RegionTables.OneClaimLeftNone | kernel/memory.c:41-43 | When a second claim finds no free record after the first claim took slot r, at most one slot from the head on was free before. |
| RegionTables.TwoClaimsLeft | kernel/memory.c:41-43 | Two claims that both succeed found two distinct free slots from the head on. |
| RegionTables.LeadingWellformed | kernel/memory.c:67-81 | The leading-case splice keeps the table well formed: a full-size pool whose links follow the walk order from the head and whose list tiles the same span. The list becomes `SplitAt` of the old one. |
| RegionTables.AlignedWellformed | kernel/memory.c:82-96 | The start-aligned splice keeps the table well formed, with the allocated record as the new head when the split block was the head. The list becomes `SplitAt` of the old one. |
| RegionTables.RegionTable.SplitBlock | kernel/memory.c:53-105 | Keeps the list a tiling of the same span. It reports "not found" exactly when no block strictly contains the span, and then the pool, head and list are untouched. It reports a full pool exactly when a block contains the span but the slots from the head on hold fewer free records than the split needs: two when a leading piece stays, one for a start-aligned split. Then the list is unchanged and only a free record may have been claimed. On success the list becomes `SplitAt` at the first containing block, no slot leaves the list, and every slot off the list is unchanged. |
| RegionTables.RegionTable.SplitFound | kernel/memory.c:59-98 | The block the walk stopped at is the first containing one. The split is performed there unless the pool lacks the records its case needs (`OutOfRecords`), and exactly then it reports a full pool with the list unchanged. A split keeps every listed slot listed and every slot off the list unchanged. |
| RegionTables.RegionTable.SplitLeading | kernel/memory.c:60-81 | The leading case yields `SplitAt` of the old list, with both new records linked in, every listed slot still listed and every slot off the list unchanged. It fails exactly when at most one slot from the head on is free. The failure leaves head and list as they were and changes no tagged slot. |
| RegionTables.RegionTable.LinkLeading | kernel/memory.c:69-80 | The link writes of the leading case produce `LeadingPool`. |
| RegionTables.RegionTable.CommitLeading | kernel/memory.c:69-80 | Linking the two claimed records in keeps the table valid and turns its list into `SplitAt` of the old list. The walk order becomes `LeadingOrder`: the records follow the split block. No slot off the list changes. |
| RegionTables.RegionTable.SplitAligned | kernel/memory.c:82-96 | The start-aligned case yields `SplitAt` of the old list and claims only the record it links. When the split block was the head, the allocated block becomes the head; otherwise the head stays. It fails exactly when every slot from the head on is tagged, and then nothing changes. |
| RegionTables.RegionTable.LinkAligned | kernel/memory.c:84-91 | The link writes of the start-aligned case produce `AlignedPool`. |
| RegionTables.RegionTable.CommitAligned | kernel/memory.c:84-95 | Linking the claimed record in keeps the table valid and turns its list into `SplitAt` of the old list. The walk order becomes `AlignedOrder`: the record takes the split block's place, ahead of it. The head moves to the allocated block when the split block was the head, and stays otherwise. No slot off the list changes. |
| Allocator.AllocPage | kernel/memory.c:107-124 | Reports out-of-memory exactly when no block passes the allocation test. It reports an unmappable page exactly when the first fitting block's page lies beyond the tables. It reports a full pool exactly when that page is mappable but the pool lacks the records the split needs. Otherwise it returns the page-aligned start of the first block that fits, takes that page out of the list (`TakePage`) and identity-maps it. On every error the list and the tables are unchanged. Only the full-pool error may leave a free record claimed; the other errors leave the pool untouched. On success every slot off the list is unchanged, so no record leaks. |
| Allocator.AllocFrom | kernel/memory.c:116-117 | The chosen block is the first fit. The page is carved out of it, giving `TakePage`, and then identity-mapped (`MapTables`) and returned. The carve fails exactly when the pool lacks the records the split needs, and then the list and tables are unchanged. On success every slot off the list is unchanged, so no record leaks. |
| Allocator.CarvePage | kernel/memory.c:116 | The split at the aligned address finds the chosen block and yields `TakePage`, leaving every slot off the list unchanged. It fails exactly when the pool lacks the records that split needs, leaving the list unchanged. |
| Allocator.SelectionUnique | kernel/memory.c:133-137 | At most one memory-map entry is the selection. |
| Allocator.TieKeepsEarlier | kernel/memory.c:134 | Of any two equally long available entries, the later one is never selected, because the comparison is strict. |
| Allocator.SelectLargest | kernel/memory.c:131-137 | Returns the first available entry of maximal length. It returns None exactly when the map has no available entry. |
| Allocator.IsSelection | kernel/memory.c:131-137 | The entry init_memory picks beats every other available entry. Each other entry is shorter, or as long and later in the map. |
| Allocator.InitMemory | kernel/memory.c:126-150 | Fails with "no available region" exactly when the map has no available entry; otherwise a selection exists. For the selected entry, it reports an unmappable pool page exactly when the page at its first boundary lies beyond the tables. It reports a pool page outside the region exactly when that page is mappable but not strictly inside the entry. Otherwise it maps that page, seeds the region as one free block, and records the pool page as an allocated block inside it. When the pool page lies outside the region, the page stays mapped (`MapTables`). |
| Allocator.BuildTable | kernel/memory.c:143-149 | A fresh pool seeded with the region as one free block, with the pool page carved out as an allocated block. Every slot off the list is still free. It fails exactly when that page is not strictly inside the region; the fresh pool never runs out of records. |
| AsWritten.ClaimAsWritten | kernel/memory.c:38-51 | The unbounded scan claims the first untagged slot from the head. It runs off the pool exactly when every slot from the head on is tagged. |
| AsWritten.SplitFoundAsWritten | kernel/memory.c:59-98 | The split as written. It crashes when the first scan runs off the pool (every slot from the head is tagged). It also crashes when the second scan does (at most one slot is free), and whenever a start-aligned split hits a block without predecessor. The leading case keeps the head. |
| AsWritten.Forward | kernel/memory.c:101 | A forward walk visits only pool slots, at most `fuel` of them. |
| AsWritten.MiddleSpliceDropsBlocks | kernel/memory.c:74-80 | Splitting a block that has a successor leaves the new allocated and remainder records unreachable from the head. |
| AsWritten.HeadAlignedSplitCrashes | kernel/memory.c:88-89 | A start-aligned split of the head block writes through its null predecessor. |
| AsWritten.AlignedSplitOrphansRemainder | kernel/memory.c:60-63 | A start-aligned split leaves a tagged remainder record that no walk reaches. |
| AsWritten.FitsAsWritten | kernel/memory.c:115 | The line-115 test in 64-bit arithmetic holds exactly for available blocks longer than the gap to their first page boundary (and not near 2^64 long). |
| AsWritten.FitsPageFitsAsWritten | kernel/memory.c:115 | Every block with room for a page passes the written test too, so it errs only by accepting. |
| AsWritten.AlignedIsFixed | kernel/memory.c:113 | An address on a page boundary rounds up to itself. |
| AsWritten.TooSmallBlockPasses | kernel/memory.c:115 | Every free block on a page boundary that is at most one page long passes the written test, though no page fits in it. |
| AsWritten.FirstFitAsWritten | kernel/memory.c:112-121 | Finds the first block that passes the written test. Returns None exactly when none does. |
| AsWritten.UncheckedSplitHandsOutUsedMemory | kernel/memory.c:115-117 | A too-small first block gets chosen and the split finds no block to carve from. The page handed out anyway overlaps an allocated block. |
| AsWritten.PoolPageHandedOutAgain | kernel/memory.c:149 | For a free region of exactly one page that starts on a page boundary, the pool page is not carved out. It stays free, and the first allocation picks it. |

## Left out

- `pml4` is assigned by `init_memory` but never read, so it is not modelled.
- The compiled-out block dumper (`#if 0`) is not modelled.
- Volatile accesses, TLB effects and reads of memory through the new mapping are not modelled.
- The directory-pointer entry stores the address of a huge-page entry. It is modelled as the table's base address plus 8 times the index, ORed with the flags.
- Reading `bootdata` is replaced by parameters. The tables come in as a `PageTables` object and the memory map as a sequence.
- arch/x86/boot/main.c, which sets up the tables and control registers, is not part of this model. include/types.h holds only typedefs.
- `memory.h` (the constants, `ALIGN_UP`, `memory_page_size`, `struct memory_block`, `struct mmap`) is not part of this model. The assumed values are listed above.
- Paging.PageTables.MapPage: the source writes past its tables for an address beyond 512 GiB. The model refuses such an address instead.
- 64-bit overflow: addresses and lengths are unbounded naturals. Overflow of `address + length` and of `ALIGN_UP` in 64 bits is not modelled. Only the subtraction at line 115, whose wrap-around is the point of that test, is modelled in 64 bits (`AsWritten.FitsAsWritten`).
- RegionTables.RegionTable.SplitLeading: when only one free slot is left, the remainder record is claimed before claiming the allocated record fails, as in the source. The list is unchanged but that slot stays tagged (`TaggedKept` is all that is promised about the pool then). The same leak reaches `SplitBlock`, `CarvePage`, `AllocFrom` and `AllocPage` on their full-pool errors.
- Allocator.AllocPage: uses the intended allocation test (`Regions.FitsPage`: the page at the first boundary ends strictly before the block's end). The source's own test is `AsWritten.FitsAsWritten`. The test is strict so that the split's strict containment always finds the chosen block.
- Allocator.AllocPage: reports the failed split and the unmappable page, which the source ignores (see Findings).
- Allocator.InitMemory: reports each failure that the source ignores or turns into a null dereference.
- Allocator.InitMemory: the pool page is mapped before the region is recorded, as in the source. On a later failure the mapping stays.
- Strict containment (line 59) is kept, not corrected. A span that ends exactly at a block's end is not found, and every tail piece is non-empty (`Regions.SplitAt`).

## Findings

| source | as written | input that shows it | evidently intended | confidence | as-written member | corrected member |
|---|---|---|---|---|---|---|
| kernel/memory.c:74-80 | When the split block has a successor, `block->next` is not pointed at the new allocated record. | Blocks [0x0, 0x3000) and [0x3000, 0x4000), split of [0x1000, 0x2000). The walk from the head visits only the two old blocks. | The split block links to the allocated record, which links to the remainder, which links to the old successor. | high (not executed) | AsWritten.MiddleSpliceDropsBlocks | RegionTables.RegionTable.SplitLeading |
| kernel/memory.c:88-89 | The start-aligned case writes `alloc_block->prev->next` even when the split block is the head and has no predecessor. | A region [0x200000, 0x600000), length 0x400000, with the pool page carved from its start. This is `init_memory` on any page-aligned region longer than one page; a page-aligned region of one page or less never reaches line 89, because line 59 finds no block. | With no predecessor, the allocated record becomes the head and nothing is written through `prev`. | high (not executed) | AsWritten.HeadAlignedSplitCrashes | RegionTables.RegionTable.SplitAligned |
| kernel/memory.c:60-63 | The remainder record is claimed before the case split. The start-aligned case never links it. | Blocks [0x0, 0x1000) and [0x1000, 0x4000), split of [0x1000, 0x2000). Slot 2 is tagged but not on the list. | Only records that get linked are claimed. | high (not executed) | AsWritten.AlignedSplitOrphansRemainder | RegionTables.RegionTable.SplitBlock |
| kernel/memory.c:115 | `(aligned - address) - length >= page` holds for available blocks longer than the gap to the page boundary, whether or not a page fits. | Free block [0x200000, 0x201000) passes and is chosen. The split finds nothing, and page 0x200000 is handed out over the allocated block that follows. | The page [aligned, aligned + page) lies inside the block. | high (not executed) | AsWritten.UncheckedSplitHandsOutUsedMemory | Allocator.AllocPage |
| kernel/memory.c:149 | The result of the pool-page split is ignored. | A region of exactly one page at 0x200000: the split finds no block strictly containing the page, and the first allocation hands out the pool page. | A failed bootstrap split is reported, and the pool page is never handed out. | high (not executed) | AsWritten.PoolPageHandedOutAgain | Allocator.InitMemory |
| kernel/memory.c:41-43 | The slot scan has no bound and walks past the pool page once every slot from the head is tagged. | A pool whose slots from the head on are all tagged: the scan runs off the pool. | The claim fails when the pool is full. | high (not executed) | AsWritten.ClaimAsWritten | RegionTables.RegionTable.BlockNew |
| kernel/memory.c:141 | `largest_block` is dereferenced without a null check. | A memory map with no entry of type 1: the scan leaves it null. | Init fails when no usable region exists. | high (not executed) | Allocator.SelectLargest | Allocator.InitMemory |
