/**
 * memory_block_new, memory_split_block and the allocation test of alloc_page
 * exactly as kernel/memory.c writes them, as functions on a pool value.  A
 * pointer dereference the C code performs on a null or out-of-pool record is
 * the outcome Crash.  The lemmas exhibit, on small pools, the defects the
 * corrected model in RegionTables and Allocator does not have.
 */
module AsWritten {
  import opened Wrappers
  import opened Platform
  import opened Regions
  import opened Arena

  /** The slot with magic, address, length and available set, links kept. */
  function Tagged(b: Block, address: nat, length: nat, available: bool): Block {
    b.(magic := MEMORY_BLOCK_MAGIC, address := address, length := length, available := available)
  }

  /**
   * memory_block_new as written: the scan starts at the head slot and has no
   * bound, so when every slot from there on is tagged it walks off the pool
   * (None).  Otherwise the first untagged slot is claimed and no other slot
   * changes.
   */
  function ClaimAsWritten(p: seq<Block>, from: nat, address: nat, length: nat, available: bool)
    : (r: Option<(seq<Block>, nat)>)
    ensures r.None? <==> forall j | from <= j < |p| :: p[j].magic == MEMORY_BLOCK_MAGIC
    ensures r.Some? ==>
      var x := r.value.1;
      && from <= x < |p|
      && p[x].magic != MEMORY_BLOCK_MAGIC
      && (forall j | from <= j < x :: p[j].magic == MEMORY_BLOCK_MAGIC)
      && r.value.0 == p[x := Tagged(p[x], address, length, available)]
    decreases |p| - from
  {
    if from >= |p| then None
    else if p[from].magic != MEMORY_BLOCK_MAGIC then
      Some((p[from := Tagged(p[from], address, length, available)], from))
    else
      ClaimAsWritten(p, from + 1, address, length, available)
  }

  /** What a call leaves behind: a crash, or the new pool and head slot. */
  datatype Outcome = Crash | Done(pool: seq<Block>, head: nat)

  /**
   * The body of memory_split_block once block b contains the span: claim the
   * remainder record, then the allocated record, then relink.  Both links the
   * leading case writes into an existing record go through block b's next only
   * when that is null; the start-aligned case writes through block b's prev,
   * null when b is the head.
   */
  function SplitFoundAsWritten(p: seq<Block>, head: nat, b: nat, address: nat, length: nat)
    : (o: Outcome)
    requires b < |p| && p[b].magic == MEMORY_BLOCK_MAGIC
    requires Contains(RegionOf(p[b]), address, length)
    ensures AllTagged(p, head) ==> o.Crash?
    ensures AtMostOneUntagged(p, head) ==> o.Crash?
    ensures p[b].address == address && p[b].prev.None? ==> o.Crash?
    ensures o.Done? ==> |o.pool| == |p|
    ensures o.Done? && p[b].address < address ==> o.head == head
  {
    var blk := p[b];
    var end := blk.address + blk.length;
    match ClaimAsWritten(p, head, address + length, end - (address + length), true)
    case None => Crash
    case Some((p1, r)) =>
      match ClaimAsWritten(p1, head, address, length, false)
      case None => Crash
      case Some((p2, a)) =>
        if blk.address < address then
          var p3 := p2[b := p2[b].(length := address - blk.address)];
          var p4 := p3[a := p3[a].(prev := Some(b), next := Some(r))];
          var p5 := p4[r := p4[r].(prev := Some(a))];
          if p5[b].next.None? then
            Done(p5[b := p5[b].(next := Some(a))], head)
          else
            var n := p5[b].next.value;
            var p6 := p5[r := p5[r].(next := Some(n))];
            if n < |p6| then Done(p6[n := p6[n].(prev := Some(r))], head) else Crash
        else
          var p3 := p2[b := p2[b].(length := end - (address + length), address := address + length)];
          var pv := p3[b].prev;
          var p4 := p3[a := p3[a].(prev := pv)];
          if pv.None? || pv.value >= |p4| then Crash
          else
            var p5 := p4[pv.value := p4[pv.value].(next := Some(a))];
            var p6 := p5[a := p5[a].(next := Some(b))];
            var p7 := p6[b := p6[b].(prev := Some(a))];
            Done(p7, if head == b then a else head)
  }

  /** The slots a forward walk along next links visits, for at most fuel steps. */
  function Forward(p: seq<Block>, cur: Option<nat>, fuel: nat): (w: seq<nat>)
    ensures |w| <= fuel
    ensures forall i | 0 <= i < |w| :: w[i] < |p|
    decreases fuel
  {
    if fuel == 0 || cur.None? || cur.value >= |p| then []
    else [cur.value] + Forward(p, p[cur.value].next, fuel - 1)
  }

  /** A tagged, linked block record. */
  function Rec(address: nat, length: nat, available: bool, prev: Option<nat>, next: Option<nat>): Block {
    Block(MEMORY_BLOCK_MAGIC, address, length, available, prev, next)
  }

  /**
   * Lines 74-80: carving [0x1000, 0x2000) out of the first of two blocks leaves
   * its next link on the second block, so the walk from the head never meets
   * the allocated record (slot 3) nor the remainder (slot 2).
   */
  lemma MiddleSpliceDropsBlocks()
    ensures var p := [Rec(0, 0x3000, true, None, Some(1)), Rec(0x3000, 0x1000, true, Some(0), None),
                      FreeSlot, FreeSlot];
      var o := SplitFoundAsWritten(p, 0, 0, 0x1000, 0x1000);
      && o.Done?
      && RegionOf(o.pool[3]) == Region(0x1000, 0x1000, false)
      && RegionOf(o.pool[2]) == Region(0x2000, 0x1000, true)
      && Forward(o.pool, Some(o.head), 4) == [0, 1]
  {
    var p := [Rec(0, 0x3000, true, None, Some(1)), Rec(0x3000, 0x1000, true, Some(0), None),
              FreeSlot, FreeSlot];
    var p2 := p[2 := Tagged(p[2], 0x2000, 0x1000, true)];
    var p3 := p2[3 := Tagged(p2[3], 0x1000, 0x1000, false)];
    assert ClaimAsWritten(p, 0, 0x2000, 0x1000, true) == Some((p2, 2));
    assert ClaimAsWritten(p2, 0, 0x1000, 0x1000, false) == Some((p3, 3));
    var o := SplitFoundAsWritten(p, 0, 0, 0x1000, 0x1000);
    assert o.pool[0].next == Some(1) && o.pool[1].next.None?;
    assert Forward(o.pool, Some(1), 3) == [1];
  }

  /**
   * Lines 88-89: a region that starts on a page boundary is seeded as the
   * head block with no prev, and carving the pool page from its start, as
   * init_memory does at line 149, writes through that null prev.
   */
  lemma HeadAlignedSplitCrashes()
    ensures SplitFoundAsWritten([Rec(0x20_0000, 0x40_0000, true, None, None), FreeSlot, FreeSlot],
                                0, 0, 0x20_0000, 0x20_0000) == Crash
  {
  }

  /**
   * Lines 60-63: in the start-aligned case the remainder record claimed in slot
   * 2 stays tagged but is never linked; the walk meets only the old blocks and
   * the allocated record in slot 3.
   */
  lemma AlignedSplitOrphansRemainder()
    ensures var p := [Rec(0, 0x1000, false, None, Some(1)), Rec(0x1000, 0x3000, true, Some(0), None),
                      FreeSlot, FreeSlot];
      var o := SplitFoundAsWritten(p, 0, 1, 0x1000, 0x1000);
      && o.Done?
      && o.pool[2].magic == MEMORY_BLOCK_MAGIC
      && Forward(o.pool, Some(o.head), 4) == [0, 3, 1]
  {
    var p := [Rec(0, 0x1000, false, None, Some(1)), Rec(0x1000, 0x3000, true, Some(0), None),
              FreeSlot, FreeSlot];
    var p2 := p[2 := Tagged(p[2], 0x2000, 0x2000, true)];
    var p3 := p2[3 := Tagged(p2[3], 0x1000, 0x1000, false)];
    assert ClaimAsWritten(p, 0, 0x2000, 0x2000, true) == Some((p2, 2));
    assert ClaimAsWritten(p2, 0, 0x1000, 0x1000, false) == Some((p3, 3));
    var o := SplitFoundAsWritten(p, 0, 1, 0x1000, 0x1000);
    assert o.pool[0].next == Some(3) && o.pool[3].next == Some(1) && o.pool[1].next.None?;
    assert Forward(o.pool, Some(1), 2) == [1];
    assert Forward(o.pool, Some(3), 3) == [3, 1];
  }

  /** A block whose fields fit the source's 64-bit arithmetic. */
  predicate Bounded64(rg: Region) {
    rg.address < U64_MODULUS && rg.length < U64_MODULUS
    && AlignUp(rg.address, PAGE_SIZE) < U64_MODULUS
  }

  /**
   * The allocation test of line 115 in 64-bit unsigned arithmetic.  It holds
   * exactly for the available blocks that are longer than the gap g up to the
   * first page boundary (and not absurdly long): a test on the block's length
   * against the gap, not on the room left after the boundary.
   */
  predicate FitsAsWritten(rg: Region)
    requires Bounded64(rg)
    ensures FitsAsWritten(rg) <==>
      var g := AlignUp(rg.address, PAGE_SIZE) - rg.address;
      rg.available && g < rg.length <= g + U64_MODULUS - PAGE_SIZE
  {
    var aligned: u64 := AlignUp(rg.address, PAGE_SIZE);
    rg.available && Sub64(Sub64(aligned, rg.address), rg.length) >= PAGE_SIZE
  }

  /** Every block the intended test accepts passes the written one too. */
  lemma FitsPageFitsAsWritten(rg: Region)
    requires Bounded64(rg) && rg.length <= U64_MODULUS - PAGE_SIZE
    ensures FitsPage(rg) ==> FitsAsWritten(rg)
  {
  }

  /** A page boundary is its own round-up. */
  lemma AlignedIsFixed(x: nat)
    requires x % PAGE_SIZE == 0
    ensures AlignUp(x, PAGE_SIZE) == x
  {
    AlignUpLeast(x, PAGE_SIZE, x);
  }

  /**
   * Every free block that starts on a page boundary and is no longer than a
   * page passes line 115, though no page fits in it.
   */
  lemma TooSmallBlockPasses(rg: Region)
    requires rg.available && rg.address % PAGE_SIZE == 0 && rg.address < U64_MODULUS
    requires 0 < rg.length <= PAGE_SIZE
    ensures Bounded64(rg) && FitsAsWritten(rg) && !FitsPage(rg)
  {
    AlignedIsFixed(rg.address);
  }

  /** The first block, head to tail, that passes the line-115 test. */
  function FirstFitAsWritten(rs: seq<Region>): (k: Option<nat>)
    requires forall i | 0 <= i < |rs| :: Bounded64(rs[i])
    ensures k.None? <==> forall i | 0 <= i < |rs| :: !FitsAsWritten(rs[i])
    ensures k.Some? ==> k.value < |rs| && FitsAsWritten(rs[k.value])
    ensures k.Some? ==> forall i | 0 <= i < k.value :: !FitsAsWritten(rs[i])
  {
    if |rs| == 0 then None
    else if FitsAsWritten(rs[0]) then Some(0)
    else match FirstFitAsWritten(rs[1..])
      case None => None
      case Some(k) => Some(k + 1)
  }

  /**
   * Lines 115-117: with a too-small free block first, alloc_page picks it, the
   * split of the page finds no block containing it (and its false result is
   * ignored), and the page handed out overlaps the allocated block after it.
   */
  lemma UncheckedSplitHandsOutUsedMemory()
    ensures var rs := [Region(0x20_0000, 0x1000, true), Region(0x20_1000, 0x20_0000, false)];
      && (forall i | 0 <= i < |rs| :: Bounded64(rs[i]))
      && FirstFitAsWritten(rs) == Some(0)
      && AlignUp(rs[0].address, PAGE_SIZE) == 0x20_0000
      && FindContaining(rs, 0x20_0000, PAGE_SIZE).None?
      && 0x20_0000 < End(rs[1]) && rs[1].address < 0x20_0000 + PAGE_SIZE && !rs[1].available
  {
    var rs := [Region(0x20_0000, 0x1000, true), Region(0x20_1000, 0x20_0000, false)];
    TooSmallBlockPasses(rs[0]);
    assert !Contains(rs[0], 0x20_0000, PAGE_SIZE);
    assert !Contains(rs[1], 0x20_0000, PAGE_SIZE);
  }

  /**
   * Line 149: when the selected region is exactly one page on a page boundary,
   * the split of the pool page finds no block containing it (its false result
   * is ignored), so the region stays one free block, and the first alloc_page
   * hands out the very page that holds the block records.
   */
  lemma PoolPageHandedOutAgain(rg: Region)
    requires rg.available && rg.address % PAGE_SIZE == 0 && rg.address < U64_MODULUS
    requires rg.length == PAGE_SIZE
    ensures FindContaining([rg], rg.address, PAGE_SIZE).None?
    ensures Bounded64(rg) && FirstFitAsWritten([rg]) == Some(0)
    ensures AlignUp(rg.address, PAGE_SIZE) == rg.address
  {
    TooSmallBlockPasses(rg);
    AlignedIsFixed(rg.address);
  }
}
