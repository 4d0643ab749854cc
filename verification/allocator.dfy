/**
 * alloc_page and init_memory of kernel/memory.c, on top of the page mapper and
 * the region table.  The kernel's globals pdp, pte and head_memory_block are
 * the PageTables and RegionTable objects passed in.
 */
module Allocator {
  import opened Wrappers
  import opened Platform
  import opened Regions
  import opened Arena
  import opened Paging
  import opened RegionTables

  datatype AllocError = OutOfMemory | OutOfMetadata | Unmappable

  /**
   * alloc_page: the first block, head to tail, that passes the allocation test
   * gives up the page at its first page boundary; the page is carved out of
   * the table, identity-mapped and returned.  The test is the intended one (see
   * FitsPage); the source's own test is AsWritten.FitsAsWritten.  Unlike the
   * source, a split that fails and a page the tables cannot map are reported.
   */
  method AllocPage(rt: RegionTable, pt: PageTables) returns (res: Result<u64, AllocError>)
    requires rt.Valid() && pt.Valid()
    modifies rt, rt.pool, pt.pdp, pt.pte
    ensures rt.Valid() && rt.base == old(rt.base) && rt.limit == old(rt.limit)
    ensures var rs := old(rt.Regions()); var k := FirstFit(rs);
      && (res == Err(OutOfMemory) <==> k.None?)
      && (res == Err(Unmappable) <==> k.Some? && AlignUp(rs[k.value].address, PAGE_SIZE) >= COVERAGE)
      && (res == Err(OutOfMetadata) <==>
            && k.Some?
            && AlignUp(rs[k.value].address, PAGE_SIZE) < COVERAGE
            && OutOfRecords(old(rt.pool[..]), old(rt.head),
                            rs[k.value].address < AlignUp(rs[k.value].address, PAGE_SIZE)))
      && (res.Ok? ==>
            && k.Some?
            && res.value == AlignUp(rs[k.value].address, PAGE_SIZE)
            && res.value % PAGE_SIZE == 0
            && res.value < COVERAGE
            && rt.Regions() == TakePage(rs, k.value)
            && (pt.pdp[..], pt.pte[..])
               == MapTables(old(pt.pdp[..]), old(pt.pte[..]), pt.pteBase, res.value, res.value))
      && (res.Err? ==>
            && rt.Regions() == rs
            && pt.pdp[..] == old(pt.pdp[..]) && pt.pte[..] == old(pt.pte[..]))
    ensures res.Ok? ==> rt.OffListKept(old(rt.pool[..]))
    ensures res == Err(OutOfMemory) || res == Err(Unmappable) ==>
      rt.pool[..] == old(rt.pool[..]) && rt.head == old(rt.head) && rt.order == old(rt.order)
    ensures res == Err(OutOfMetadata) ==>
      rt.head == old(rt.head) && rt.order == old(rt.order) && rt.TaggedKept(old(rt.pool[..]))
  {
    ghost var rs := rt.Regions();
    var length := PAGE_SIZE;
    var cur := Some(rt.head);
    ghost var i := 0;
    while cur.Some?
      invariant 0 <= i <= |rt.order|
      invariant cur == (if i < |rt.order| then Some(rt.order[i]) else None)
      invariant forall j | 0 <= j < i :: !FitsPage(rs[j])
      decreases |rt.order| - i
    {
      var b := cur.value;
      assert LinkedAt(rt.pool[..], rt.order, i);
      var blk := rt.pool[b];
      var aligned := AlignUp(blk.address, length);
      assert rs[i] == RegionOf(blk);
      if blk.available && aligned + length < blk.address + blk.length {
        if aligned >= COVERAGE {
          assert FirstFit(rs) == Some(i);
          return Err(Unmappable);
        }
        res := AllocFrom(rt, pt, i, aligned);
        return;
      }
      cur := blk.next;
      i := i + 1;
    }
    return Err(OutOfMemory);
  }

  /** Lines 116-117: carve the page out of block k and identity-map it. */
  method AllocFrom(rt: RegionTable, pt: PageTables, ghost k: nat, aligned: nat)
    returns (res: Result<u64, AllocError>)
    requires rt.Valid() && pt.Valid()
    requires k < |rt.Regions()| && FitsPage(rt.Regions()[k])
    requires forall j | 0 <= j < k :: !FitsPage(rt.Regions()[j])
    requires aligned == AlignUp(rt.Regions()[k].address, PAGE_SIZE) && aligned < COVERAGE
    modifies rt, rt.pool, pt.pdp, pt.pte
    ensures rt.Valid() && rt.base == old(rt.base) && rt.limit == old(rt.limit)
    ensures FirstFit(old(rt.Regions())) == Some(k)
    ensures res == Ok(aligned) || res == Err(OutOfMetadata)
    ensures res == Err(OutOfMetadata) <==>
      OutOfRecords(old(rt.pool[..]), old(rt.head), old(rt.Regions())[k].address < aligned)
    ensures res.Ok? ==> aligned % PAGE_SIZE == 0
    ensures res.Ok? ==> rt.Regions() == TakePage(old(rt.Regions()), k)
    ensures res.Ok? ==> (pt.pdp[..], pt.pte[..])
                        == MapTables(old(pt.pdp[..]), old(pt.pte[..]), pt.pteBase, aligned, aligned)
    ensures res.Err? ==> rt.Regions() == old(rt.Regions())
    ensures res.Err? ==> pt.pdp[..] == old(pt.pdp[..]) && pt.pte[..] == old(pt.pte[..])
    ensures res.Err? ==> rt.head == old(rt.head) && rt.order == old(rt.order) && rt.TaggedKept(old(rt.pool[..]))
    ensures res.Ok? ==> rt.OffListKept(old(rt.pool[..]))
  {
    ghost var rs := rt.Regions();
    assert FirstFit(rs) == Some(k);
    var carved := CarvePage(rt, k, aligned);
    if !carved {
      return Err(OutOfMetadata);
    }
    assert unchanged(pt.pdp) && unchanged(pt.pte);
    // The page tables share no object with the region table.
    assert (rt as object) != pt.pdp && (rt as object) != pt.pte;
    assert (rt.pool as object) != pt.pdp && (rt.pool as object) != pt.pte;
    var m := pt.MapPage(aligned, aligned);
    return Ok(aligned);
  }

  /** Line 116: the split of the page out of block k, which always finds block k. */
  method CarvePage(rt: RegionTable, ghost k: nat, aligned: nat) returns (carved: bool)
    requires rt.Valid()
    requires k < |rt.Regions()| && FitsPage(rt.Regions()[k])
    requires aligned == AlignUp(rt.Regions()[k].address, PAGE_SIZE)
    modifies rt, rt.pool
    ensures rt.Valid() && rt.base == old(rt.base) && rt.limit == old(rt.limit)
    ensures carved ==> rt.Regions() == TakePage(old(rt.Regions()), k)
    ensures !carved ==> rt.Regions() == old(rt.Regions())
    ensures !carved <==> OutOfRecords(old(rt.pool[..]), old(rt.head), old(rt.Regions())[k].address < aligned)
    ensures !carved ==> rt.head == old(rt.head) && rt.order == old(rt.order) && rt.TaggedKept(old(rt.pool[..]))
    ensures carved ==> rt.OffListKept(old(rt.pool[..]))
  {
    ghost var rs := rt.Regions();
    FitsPageContains(rs[k]);
    ContainingIsUnique(rs, k, aligned, PAGE_SIZE);
    var s := rt.SplitBlock(aligned, PAGE_SIZE);
    carved := s == Split;
  }

  /** The memory-map entry type of usable RAM (type 1 of the BIOS E820 map). */
  const MMAP_MEMORY_AVAILABLE: nat := 1

  /** One entry of the boot-time memory map. */
  datatype MmapEntry = MmapEntry(addr: u64, len: u64, kind: nat)

  /**
   * Entry i is the one init_memory picks: available, of maximal length, and the
   * first such (an equally long later entry does not replace it).
   */
  ghost predicate IsSelection(mmap: seq<MmapEntry>, i: nat)
    ensures IsSelection(mmap, i) ==>
      && i < |mmap|
      && forall j | 0 <= j < |mmap| && j != i && mmap[j].kind == MMAP_MEMORY_AVAILABLE ::
           mmap[j].len < mmap[i].len || (i < j && mmap[j].len == mmap[i].len)
  {
    && i < |mmap|
    && mmap[i].kind == MMAP_MEMORY_AVAILABLE
    && (forall j | 0 <= j < |mmap| && mmap[j].kind == MMAP_MEMORY_AVAILABLE :: mmap[j].len <= mmap[i].len)
    && (forall j | 0 <= j < i && mmap[j].kind == MMAP_MEMORY_AVAILABLE :: mmap[j].len < mmap[i].len)
  }

  /** At most one entry is the selection. */
  lemma SelectionUnique(mmap: seq<MmapEntry>, i: nat, j: nat)
    requires IsSelection(mmap, i) && IsSelection(mmap, j)
    ensures i == j
  {
  }

  /** Of two equally long available entries the later one is never selected. */
  lemma TieKeepsEarlier(mmap: seq<MmapEntry>, i: nat, j: nat)
    requires i < j < |mmap| && mmap[i].len == mmap[j].len
    requires mmap[i].kind == MMAP_MEMORY_AVAILABLE && mmap[j].kind == MMAP_MEMORY_AVAILABLE
    ensures !IsSelection(mmap, j)
  {
    assert !(mmap[i].len < mmap[j].len);
  }

  /** Lines 131-137: the scan for the largest available entry; None is the null pointer. */
  method SelectLargest(mmap: seq<MmapEntry>) returns (r: Option<nat>)
    ensures r.None? <==> forall j | 0 <= j < |mmap| :: mmap[j].kind != MMAP_MEMORY_AVAILABLE
    ensures r.Some? ==> IsSelection(mmap, r.value)
  {
    r := None;
    for i := 0 to |mmap|
      invariant r.None? <==> forall j | 0 <= j < i :: mmap[j].kind != MMAP_MEMORY_AVAILABLE
      invariant r.Some? ==> r.value < i && IsSelection(mmap[..i], r.value)
    {
      if mmap[i].kind == MMAP_MEMORY_AVAILABLE && (r.None? || mmap[r.value].len < mmap[i].len) {
        r := Some(i);
      }
    }
    assert mmap[..|mmap|] == mmap;
  }

  datatype InitError = NoAvailableRegion | PoolPageUnmappable | PoolPageOutsideRegion

  /** The table init_memory leaves behind when entry e was selected. */
  ghost predicate InitialTable(rt: RegionTable, e: MmapEntry)
    reads rt, rt.pool
  {
    var addr := AlignUp(e.addr, PAGE_SIZE);
    && rt.Valid()
    && rt.base == e.addr && rt.limit == e.addr + e.len
    && rt.poolBase == addr
    && Contains(Region(e.addr, e.len, true), addr, PAGE_SIZE)
    && rt.Regions() == SplitAt([Region(e.addr, e.len, true)], 0, addr, PAGE_SIZE)
    && (forall x | 0 <= x < rt.pool.Length && x !in rt.order :: rt.pool[x] == FreeSlot)
  }

  /**
   * init_memory: pick the largest available region, map the page at its first
   * page boundary to hold the block pool, record the region as one free block
   * and carve the pool page out of it.  The source dereferences a null
   * selection and ignores a failed split; both are reported here.  The split
   * always finds the free records it needs in the freshly seeded pool.
   */
  method InitMemory(pt: PageTables, mmap: seq<MmapEntry>) returns (res: Result<RegionTable, InitError>)
    requires pt.Valid()
    modifies pt.pdp, pt.pte
    ensures res == Err(NoAvailableRegion)
            <==> forall j | 0 <= j < |mmap| :: mmap[j].kind != MMAP_MEMORY_AVAILABLE
    ensures res != Err(NoAvailableRegion) ==> exists i: nat :: IsSelection(mmap, i)
    ensures forall i: nat | IsSelection(mmap, i) ::
      var addr := AlignUp(mmap[i].addr, PAGE_SIZE);
      && (res == Err(PoolPageUnmappable) <==> addr >= COVERAGE)
      && (res == Err(PoolPageOutsideRegion)
          <==> addr < COVERAGE && !Contains(Region(mmap[i].addr, mmap[i].len, true), addr, PAGE_SIZE))
    ensures res.Ok? ==> fresh(res.value) && fresh(res.value.pool)
    ensures res.Ok? ==> forall i: nat | IsSelection(mmap, i) ::
      var addr := AlignUp(mmap[i].addr, PAGE_SIZE);
      && InitialTable(res.value, mmap[i])
      && addr < COVERAGE
      && (pt.pdp[..], pt.pte[..]) == MapTables(old(pt.pdp[..]), old(pt.pte[..]), pt.pteBase, addr, addr)
    ensures res == Err(NoAvailableRegion) || res == Err(PoolPageUnmappable)
            ==> pt.pdp[..] == old(pt.pdp[..]) && pt.pte[..] == old(pt.pte[..])
    ensures forall i: nat | IsSelection(mmap, i) ::
      var addr := AlignUp(mmap[i].addr, PAGE_SIZE);
      res == Err(PoolPageOutsideRegion) ==>
        (pt.pdp[..], pt.pte[..]) == MapTables(old(pt.pdp[..]), old(pt.pte[..]), pt.pteBase, addr, addr)
  {
    var sel := SelectLargest(mmap);
    if sel.None? {
      return Err(NoAvailableRegion);
    }
    var e := mmap[sel.value];
    var addr := AlignUp(e.addr, PAGE_SIZE);
    forall i: nat | IsSelection(mmap, i) ensures i == sel.value {
      SelectionUnique(mmap, i, sel.value);
    }
    if addr >= COVERAGE {
      return Err(PoolPageUnmappable);
    }
    var m := pt.MapPage(addr, addr);
    var t := BuildTable(e);
    if t.None? {
      return Err(PoolPageOutsideRegion);
    }
    return Ok(t.value);
  }

  /**
   * Lines 143-149: a fresh pool at the region's first page boundary, seeded
   * with the region as one free block, with the pool page carved out of it.
   * This fails only when the pool page does not lie inside the region.
   */
  method BuildTable(e: MmapEntry) returns (t: Option<RegionTable>)
    ensures t.None? <==> !Contains(Region(e.addr, e.len, true), AlignUp(e.addr, PAGE_SIZE), PAGE_SIZE)
    ensures t.Some? ==> fresh(t.value) && fresh(t.value.pool) && InitialTable(t.value, e)
  {
    var addr := AlignUp(e.addr, PAGE_SIZE);
    var rt := new RegionTable(addr);
    rt.Seed(e.addr, e.len, true);
    // Slots 1 and 2 of the seeded pool are free, so the split never lacks a record.
    assert !AtMostOneUntagged(rt.pool[..], rt.head) by {
      assert rt.pool[1] == FreeSlot && rt.pool[2] == FreeSlot;
    }
    ghost var p1 := rt.pool[..];
    var s := rt.SplitBlock(addr, PAGE_SIZE);
    if s == NotFound {
      return None;
    }
    assert s == Split;
    // Slot 0 stays on the list, and every other slot off it is as the seed left it.
    assert 0 in rt.order;
    forall x | 0 <= x < rt.pool.Length && x !in rt.order ensures rt.pool[x] == FreeSlot {
      assert x != 0 && rt.pool[x] == p1[x];
    }
    return Some(rt);
  }
}
