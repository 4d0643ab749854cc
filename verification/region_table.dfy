/**
 * The region table of kernel/memory.c: a pool of block records living in one
 * page, threaded into a doubly linked list by slot index, with
 * head_memory_block as the index of the first block.  memory_block_new and
 * memory_split_block are methods that change the pool in place; the ghost
 * fields `order`, `base` and `limit` give the list as a sequence of slots and
 * the span it was seeded with, and `Regions()` is what the list describes.
 *
 * Split follows the source's containment test and its two cases.  It differs
 * from the source where the source breaks the list (see module AsWritten): the
 * successor of the split block is pointed at the new blocks, a missing
 * predecessor of the head is not written through, the start-aligned case
 * claims only the one record it links, and claiming a record fails instead of
 * running past the pool.
 */
module RegionTables {
  import opened Wrappers
  import opened Platform
  import opened Regions
  import opened Arena

  datatype SplitResult = Split | NotFound | NoFreeSlot

  /**
   * A pool `p` whose list, walked from `head`, visits the slots `ord` and
   * tiles [base, limit).
   */
  ghost predicate Wellformed(p: seq<Block>, ord: seq<nat>, head: nat, base: nat, limit: nat) {
    && |p| == POOL_CAPACITY
    && Linked(p, ord)
    && |ord| > 0
    && head == ord[0]
    && Covers(View(p, ord), base, limit)
  }

  /**
   * The pool lacks the records a split needs among the slots from the head on:
   * two when a leading piece stays in place, one for a start-aligned split.
   */
  ghost predicate OutOfRecords(p: seq<Block>, from: nat, leading: bool) {
    if leading then AtMostOneUntagged(p, from) else AllTagged(p, from)
  }

  /** Unfolds `OutOfRecords` for the case split in `SplitFound`. */
  lemma RecordsNeeded(p: seq<Block>, from: nat, leading: bool)
    ensures leading ==> (OutOfRecords(p, from, leading) <==> AtMostOneUntagged(p, from))
    ensures !leading ==> (OutOfRecords(p, from, leading) <==> AllTagged(p, from))
  {
  }

  /** The start-aligned splice of a well-formed pool is well-formed, with `a` as head when i = 0. */
  lemma AlignedWellformed(p: seq<Block>, ord: seq<nat>, i: nat, a: nat, address: nat, length: nat,
                          base: nat, limit: nat)
    requires i < |ord| && Wellformed(p, ord, ord[0], base, limit)
    requires Contains(RegionOf(p[ord[i]]), address, length) && p[ord[i]].address == address
    requires Claimed(p, ord, a, Region(address, length, false))
    ensures var q, o := AlignedPool(p, ord, i, a, address, length), AlignedOrder(ord, i, a);
      && Wellformed(q, o, if i == 0 then a else ord[0], base, limit)
      && o[i] == a
      && RegionOf(q[a]) == Region(address, length, false)
      && View(q, o) == SplitAt(View(p, ord), i, address, length)
      && (forall x | 0 <= x < |p| && x !in o :: q[x] == p[x])
  {
    AlignedSplice(p, ord, i, a, address, length, base, limit);
  }

  /** The leading splice of a well-formed pool is well-formed, with the same head. */
  lemma LeadingWellformed(p: seq<Block>, ord: seq<nat>, i: nat, a: nat, r: nat, address: nat, length: nat,
                          base: nat, limit: nat)
    requires i < |ord| && Wellformed(p, ord, ord[0], base, limit)
    requires Contains(RegionOf(p[ord[i]]), address, length) && p[ord[i]].address < address
    requires a != r
    requires Claimed(p, ord, a, Region(address, length, false))
    requires Claimed(p, ord, r, Region(address + length, End(RegionOf(p[ord[i]])) - (address + length), true))
    ensures var q, o := LeadingPool(p, ord, i, a, r, address), LeadingOrder(ord, i, a, r);
      && Wellformed(q, o, ord[0], base, limit)
      && o[i + 1] == a && o[i + 2] == r
      && View(q, o) == SplitAt(View(p, ord), i, address, length)
      && (forall x | 0 <= x < |p| && x !in o :: q[x] == p[x])
  {
    LeadingSplice(p, ord, i, a, r, address, length, base, limit);
  }

  /**
   * After the first claim tagged slot r, a second claim that finds nothing
   * means at most one slot was free to begin with.
   */
  lemma OneClaimLeftNone(p0: seq<Block>, from: nat, r: nat, p1: seq<Block>)
    requires from <= r < |p0| && p0[r].magic != MEMORY_BLOCK_MAGIC
    requires |p1| == |p0| && forall x | 0 <= x < |p0| && x != r :: p1[x] == p0[x]
    requires AllTagged(p1, from)
    ensures AtMostOneUntagged(p0, from)
  {
    forall x, y | from <= x < y < |p0|
      ensures p0[x].magic == MEMORY_BLOCK_MAGIC || p0[y].magic == MEMORY_BLOCK_MAGIC
    {
      if x != r {
        assert p1[x] == p0[x];
      } else {
        assert p1[y] == p0[y];
      }
    }
  }

  /** Two claims that both succeed found two free slots. */
  lemma TwoClaimsLeft(p0: seq<Block>, from: nat, r: nat, a: nat, p1: seq<Block>)
    requires from <= r < |p0| && p0[r].magic != MEMORY_BLOCK_MAGIC
    requires |p1| == |p0| && p1[r].magic == MEMORY_BLOCK_MAGIC
    requires forall x | 0 <= x < |p0| && x != r :: p1[x] == p0[x]
    requires from <= a < |p1| && p1[a].magic != MEMORY_BLOCK_MAGIC
    ensures !AtMostOneUntagged(p0, from)
  {
    assert a != r && p0[a] == p1[a];
    if a < r {
      assert !(p0[a].magic == MEMORY_BLOCK_MAGIC || p0[r].magic == MEMORY_BLOCK_MAGIC);
    } else {
      assert !(p0[r].magic == MEMORY_BLOCK_MAGIC || p0[a].magic == MEMORY_BLOCK_MAGIC);
    }
  }

  class RegionTable {
    /** The block records; slot 0 is at `poolBase`. */
    const pool: array<Block>
    /** Physical address of the page that holds the pool. */
    const poolBase: nat
    /** head_memory_block, as a slot index. */
    var head: nat

    /** The slots of the list, head to tail. */
    ghost var order: seq<nat>
    /** The span [base, limit) the table was seeded with. */
    ghost var base: nat
    ghost var limit: nat

    ghost predicate Valid()
      reads this, pool
    {
      Wellformed(pool[..], order, head, base, limit)
    }

    /** The blocks of the list, head to tail. */
    ghost function Regions(): seq<Region>
      reads this, pool
      requires Valid()
    {
      View(pool[..], order)
    }

    /**
     * Every slot off the list holds what it held in `p`: no record was
     * claimed or written without being linked.
     */
    ghost predicate OffListKept(p: seq<Block>)
      reads this, pool
    {
      |p| == pool.Length && forall x | 0 <= x < pool.Length && x !in order :: pool[x] == p[x]
    }

    /** Every slot of the list `o` is still on the list. */
    ghost predicate KeepsListed(o: seq<nat>)
      reads this
    {
      forall x | x in o :: x in order
    }

    /** Every slot that was tagged in `p` holds what it held: only a free record was claimed. */
    ghost predicate TaggedKept(p: seq<Block>)
      reads this, pool
    {
      |p| == pool.Length && forall x | 0 <= x < pool.Length && p[x].magic == MEMORY_BLOCK_MAGIC :: pool[x] == p[x]
    }

    /** A pool page of zeroed memory, with head_memory_block at its first slot. */
    constructor (poolBase: nat)
      ensures fresh(pool) && pool.Length == POOL_CAPACITY
      ensures forall i | 0 <= i < pool.Length :: pool[i] == FreeSlot
      ensures head == 0 && order == [] && this.poolBase == poolBase
    {
      pool := new Block[POOL_CAPACITY](_ => FreeSlot);
      this.poolBase := poolBase;
      head := 0;
      order := [];
    }

    /** The first slot at or after the head whose tag is not the in-use tag. */
    method FindFreeSlot() returns (r: Option<nat>)
      requires head <= pool.Length
      ensures r.None? ==> forall j | head <= j < pool.Length :: pool[j].magic == MEMORY_BLOCK_MAGIC
      ensures r.Some? ==> head <= r.value < pool.Length && pool[r.value].magic != MEMORY_BLOCK_MAGIC
      ensures r.Some? ==> forall j | head <= j < r.value :: pool[j].magic == MEMORY_BLOCK_MAGIC
    {
      var j := head;
      while j < pool.Length && pool[j].magic == MEMORY_BLOCK_MAGIC
        invariant head <= j <= pool.Length
        invariant forall m | head <= m < j :: pool[m].magic == MEMORY_BLOCK_MAGIC
      {
        j := j + 1;
      }
      if j == pool.Length {
        return None;
      }
      return Some(j);
    }

    /**
     * memory_block_new: tag the first unused slot from the head on and write the
     * span and flag into it; its links are left as they were.  The source scans
     * without a bound; here a pool with no unused slot left reports failure and
     * changes nothing.
     */
    method BlockNew(address: nat, length: nat, available: bool) returns (r: Option<nat>)
      requires head <= pool.Length
      modifies pool
      ensures r.None? ==> pool[..] == old(pool[..])
      ensures r.None? ==> forall j | head <= j < pool.Length :: pool[j].magic == MEMORY_BLOCK_MAGIC
      ensures r.Some? ==> head <= r.value < pool.Length && old(pool[r.value]).magic != MEMORY_BLOCK_MAGIC
      ensures r.Some? ==> forall j | head <= j < r.value :: old(pool[j]).magic == MEMORY_BLOCK_MAGIC
      ensures r.Some? ==> pool[..] == old(pool[..])[r.value := old(pool[r.value]).(
                            magic := MEMORY_BLOCK_MAGIC, address := address,
                            length := length, available := available)]
    {
      r := FindFreeSlot();
      if r.Some? {
        var j := r.value;
        pool[j] := pool[j].(magic := MEMORY_BLOCK_MAGIC, address := address,
                            length := length, available := available);
      }
    }

    /** The first memory_block_new of init_memory: the whole region as one block. */
    method Seed(address: nat, length: nat, available: bool)
      requires head == 0 && order == [] && pool.Length == POOL_CAPACITY
      requires forall i | 0 <= i < pool.Length :: pool[i] == FreeSlot
      modifies this, pool
      ensures Valid() && head == 0
      ensures Regions() == [Region(address, length, available)]
      ensures base == address && limit == address + length
      ensures forall i | 1 <= i < pool.Length :: pool[i] == FreeSlot
    {
      var r := BlockNew(address, length, available);
      assert r == Some(0) by {
        assert old(pool[0]) == FreeSlot;
      }
      order := [0];
      base, limit := address, address + length;
      assert LinkedAt(pool[..], order, 0);
    }

    /** A slot that was not tagged before a claim is not on the list. */
    lemma UntaggedNotListed(p: seq<Block>, ord: seq<nat>, x: nat)
      requires Linked(p, ord) && x < |p| && p[x].magic != MEMORY_BLOCK_MAGIC
      ensures x !in ord
    {
      forall j | 0 <= j < |ord| ensures ord[j] != x {
        assert LinkedAt(p, ord, j);
      }
    }

    /**
     * memory_split_block: carve [address, address + length) out of the first
     * block that contains it.
     */
    method SplitBlock(address: nat, length: nat) returns (res: SplitResult)
      requires Valid()
      modifies this, pool
      ensures Valid() && base == old(base) && limit == old(limit)
      ensures var k := FindContaining(old(Regions()), address, length);
        && (res == NotFound <==> k.None?)
        && (res == Split ==> Regions() == SplitAt(old(Regions()), k.value, address, length))
        && (res != Split ==> Regions() == old(Regions()))
        && (res == NoFreeSlot <==>
              k.Some? && OutOfRecords(old(pool[..]), old(head), old(Regions())[k.value].address < address))
      ensures res == Split ==> OffListKept(old(pool[..])) && KeepsListed(old(order))
      ensures res == NotFound ==> pool[..] == old(pool[..]) && head == old(head) && order == old(order)
      ensures res == NoFreeSlot ==> head == old(head) && order == old(order) && TaggedKept(old(pool[..]))
    {
      var cur := Some(head);
      ghost var i := 0;
      while cur.Some?
        invariant 0 <= i <= |order|
        invariant cur == (if i < |order| then Some(order[i]) else None)
        invariant forall j | 0 <= j < i :: !Contains(Regions()[j], address, length)
        decreases |order| - i
      {
        var b := cur.value;
        assert LinkedAt(pool[..], order, i);
        var blk := pool[b];
        assert Regions()[i] == RegionOf(blk);
        if blk.address <= address && blk.address + blk.length > address + length {
          res := SplitFound(b, i, address, length);
          return;
        }
        cur := blk.next;
        i := i + 1;
      }
      return NotFound;
    }

    /** Lines 60-98: the block found by the scan is split by one of the two cases. */
    method SplitFound(b: nat, ghost i: nat, address: nat, length: nat) returns (res: SplitResult)
      requires Valid() && i < |order| && b == order[i]
      requires Contains(Regions()[i], address, length)
      requires forall j | 0 <= j < i :: !Contains(Regions()[j], address, length)
      modifies this, pool
      ensures Valid() && base == old(base) && limit == old(limit)
      ensures var k := FindContaining(old(Regions()), address, length);
        && k == Some(i)
        && res != NotFound
        && (res == Split ==> Regions() == SplitAt(old(Regions()), i, address, length))
        && (res != Split ==> Regions() == old(Regions()))
      ensures res == NoFreeSlot <==> OutOfRecords(old(pool[..]), old(head), old(Regions())[i].address < address)
      ensures res == Split ==> OffListKept(old(pool[..])) && KeepsListed(old(order))
      ensures res == NoFreeSlot ==> head == old(head) && order == old(order) && TaggedKept(old(pool[..]))
    {
      ghost var p0, h0, rs := pool[..], head, Regions();
      assert LinkedAt(p0, order, i);
      FindContainingFirst(rs, i, address, length);
      ghost var leading := rs[i].address < address;
      assert leading == (pool[b].address < address);
      RecordsNeeded(p0, h0, leading);
      if pool[b].address < address {
        res := SplitLeading(b, i, address, length);
      } else {
        res := SplitAligned(b, i, address, length);
      }
    }

    /** Lines 67-81, corrected: block | alloc | remainder. */
    method SplitLeading(b: nat, ghost i: nat, address: nat, length: nat) returns (res: SplitResult)
      requires Valid() && i < |order| && b == order[i]
      requires Contains(Regions()[i], address, length) && Regions()[i].address < address
      modifies this, pool
      ensures Valid() && base == old(base) && limit == old(limit)
      ensures res != NotFound
      ensures res == Split ==> Regions() == SplitAt(old(Regions()), i, address, length)
      ensures res == Split ==> OffListKept(old(pool[..])) && KeepsListed(old(order))
      ensures res == NoFreeSlot ==> Regions() == old(Regions())
      ensures res == NoFreeSlot <==> AtMostOneUntagged(old(pool[..]), old(head))
      ensures res == NoFreeSlot ==> head == old(head) && order == old(order) && TaggedKept(old(pool[..]))
    {
      ghost var ord := order;
      ghost var p0 := pool[..];
      assert LinkedAt(p0, ord, i);
      var blk := pool[b];
      var rOpt := BlockNew(address + length, End(RegionOf(blk)) - (address + length), true);
      if rOpt.None? {
        assert AllTagged(p0, head);
        return NoFreeSlot;
      }
      var r := rOpt.value;
      UntaggedNotListed(p0, ord, r);
      LinkedFrame(p0, ord, r, pool[r]);
      ghost var p1 := pool[..];
      var aOpt := BlockNew(address, length, false);
      if aOpt.None? {
        OneClaimLeftNone(p0, head, r, p1);
        return NoFreeSlot;
      }
      var a := aOpt.value;
      TwoClaimsLeft(p0, head, r, a, p1);
      UntaggedNotListed(p1, ord, a);
      LinkedFrame(p1, ord, a, pool[a]);
      ghost var p2 := pool[..];
      assert p2[b] == blk;
      CommitLeading(b, i, a, r, address, length);
      LeadingOrderKeeps(ord, i, a, r);
      forall x | 0 <= x < pool.Length && x !in order ensures pool[x] == p0[x] {
        assert x != a && x != r && pool[x] == p2[x];
      }
      return Split;
    }

    /** Lines 69-80, corrected: link the claimed records `a` and `r` in after block b. */
    method CommitLeading(b: nat, ghost i: nat, a: nat, r: nat, address: nat, length: nat)
      requires Valid() && i < |order| && b == order[i]
      requires Contains(Regions()[i], address, length) && Regions()[i].address < address
      requires a != r
      requires Claimed(pool[..], order, a, Region(address, length, false))
      requires Claimed(pool[..], order, r, Region(address + length, End(Regions()[i]) - (address + length), true))
      modifies this, pool
      ensures Valid() && base == old(base) && limit == old(limit)
      ensures Regions() == SplitAt(old(Regions()), i, address, length)
      ensures order == LeadingOrder(old(order), i, a, r)
      ensures OffListKept(old(pool[..]))
    {
      ghost var ord, p := order, pool[..];
      ghost var q, o := LeadingPool(p, ord, i, a, r, address), LeadingOrder(ord, i, a, r);
      LeadingWellformed(p, ord, i, a, r, address, length, base, limit);
      assert Wellformed(q, o, head, base, limit) && View(q, o) == SplitAt(View(p, ord), i, address, length);
      LinkLeading(ord, i, b, a, r, address);
      order := o;
      assert pool[..] == q;
    }

    /** The link and length writes of the leading case, on slots already claimed. */
    method LinkLeading(ghost ord: seq<nat>, ghost i: nat, b: nat, a: nat, r: nat, address: nat)
      requires Linked(pool[..], ord) && i < |ord| && b == ord[i]
      requires pool[ord[i]].address < address
      requires a < pool.Length && r < pool.Length && a != r && a !in ord && r !in ord
      modifies pool
      ensures pool[..] == LeadingPool(old(pool[..]), ord, i, a, r, address)
    {
      ghost var p := pool[..];
      assert LinkedAt(p, ord, i);
      var blk := pool[b];
      var nxt := blk.next;
      pool[b] := blk.(length := address - blk.address, next := Some(a));
      ghost var q1 := pool[..];
      assert q1 == p[b := p[b].(length := address - p[b].address, next := Some(a))];
      pool[a] := pool[a].(prev := Some(b), next := Some(r));
      ghost var q2 := pool[..];
      assert q2 == q1[a := q1[a].(prev := Some(b), next := Some(r))];
      pool[r] := pool[r].(prev := Some(a), next := nxt);
      ghost var q3 := pool[..];
      assert q3 == q2[r := q2[r].(prev := Some(a), next := NextOf(ord, i))];
      if nxt.Some? {
        assert LinkedAt(p, ord, i + 1);
        pool[nxt.value] := pool[nxt.value].(prev := Some(r));
        assert pool[..] == q3[ord[i + 1] := q3[ord[i + 1]].(prev := Some(r))];
      }
    }

    /** Lines 82-96, corrected: alloc | block, with the block rewritten to the tail. */
    method SplitAligned(b: nat, ghost i: nat, address: nat, length: nat) returns (res: SplitResult)
      requires Valid() && i < |order| && b == order[i]
      requires Contains(Regions()[i], address, length) && Regions()[i].address == address
      modifies this, pool
      ensures Valid() && base == old(base) && limit == old(limit)
      ensures res != NotFound
      ensures res == Split ==> Regions() == SplitAt(old(Regions()), i, address, length)
      ensures res == Split ==> (old(head) == b <==> i == 0)
      ensures res == Split && i == 0 ==> RegionOf(pool[head]) == Region(address, length, false)
      ensures res == Split && i > 0 ==> head == old(head)
      ensures res == Split ==> OffListKept(old(pool[..])) && KeepsListed(old(order))
      ensures res == NoFreeSlot ==> Regions() == old(Regions())
      ensures res == NoFreeSlot <==> AllTagged(old(pool[..]), old(head))
      ensures res == NoFreeSlot ==> pool[..] == old(pool[..]) && head == old(head) && order == old(order)
    {
      ghost var ord := order;
      ghost var p0 := pool[..];
      assert LinkedAt(p0, ord, i);
      var aOpt := BlockNew(address, length, false);
      if aOpt.None? {
        assert AllTagged(p0, head);
        return NoFreeSlot;
      }
      var a := aOpt.value;
      assert !AllTagged(p0, head) by {
        assert p0[a].magic != MEMORY_BLOCK_MAGIC;
      }
      UntaggedNotListed(p0, ord, a);
      LinkedFrame(p0, ord, a, pool[a]);
      ghost var p1 := pool[..];
      CommitAligned(b, i, a, address, length);
      AlignedOrderKeeps(ord, i, a);
      forall x | 0 <= x < pool.Length && x !in order ensures pool[x] == p0[x] {
        assert x != a && pool[x] == p1[x];
      }
      return Split;
    }

    /** Lines 84-95, corrected: link the claimed record `a` in before block b. */
    method CommitAligned(b: nat, ghost i: nat, a: nat, address: nat, length: nat)
      requires Valid() && i < |order| && b == order[i]
      requires Contains(Regions()[i], address, length) && Regions()[i].address == address
      requires Claimed(pool[..], order, a, Region(address, length, false))
      modifies this, pool
      ensures Valid() && base == old(base) && limit == old(limit)
      ensures Regions() == SplitAt(old(Regions()), i, address, length)
      ensures old(head) == b <==> i == 0
      ensures i == 0 ==> head == a
      ensures i > 0 ==> head == old(head)
      ensures i == 0 ==> RegionOf(pool[head]) == Region(address, length, false)
      ensures order == AlignedOrder(old(order), i, a)
      ensures OffListKept(old(pool[..]))
    {
      ghost var ord, p := order, pool[..];
      ghost var q, o := AlignedPool(p, ord, i, a, address, length), AlignedOrder(ord, i, a);
      assert (head == b) == (i == 0) by {
        assert Distinct(ord) && ord[0] == head;
      }
      ghost var h := if i == 0 then a else head;
      AlignedWellformed(p, ord, i, a, address, length, base, limit);
      assert Wellformed(q, o, h, base, limit) && View(q, o) == SplitAt(View(p, ord), i, address, length);
      LinkAligned(ord, i, b, a, address, length);
      head := if head == b then a else head;
      order := o;
      assert pool[..] == q && head == h;
    }

    /** The link and span writes of the start-aligned case, on a slot already claimed. */
    method LinkAligned(ghost ord: seq<nat>, ghost i: nat, b: nat, a: nat, address: nat, length: nat)
      requires Linked(pool[..], ord) && i < |ord| && b == ord[i]
      requires Contains(RegionOf(pool[b]), address, length)
      requires a < pool.Length && a !in ord
      modifies pool
      ensures pool[..] == AlignedPool(old(pool[..]), ord, i, a, address, length)
    {
      ghost var p := pool[..];
      assert LinkedAt(p, ord, i);
      var blk := pool[b];
      var prv := blk.prev;
      pool[b] := blk.(address := address + length, length := End(RegionOf(blk)) - (address + length),
                      prev := Some(a));
      ghost var q1 := pool[..];
      assert q1 == p[b := p[b].(address := address + length,
                                length := End(RegionOf(p[b])) - (address + length), prev := Some(a))];
      pool[a] := pool[a].(prev := prv, next := Some(b));
      ghost var q2 := pool[..];
      assert q2 == q1[a := q1[a].(prev := PrevOf(ord, i), next := Some(b))];
      if prv.Some? {
        assert LinkedAt(p, ord, i - 1);
        pool[prv.value] := pool[prv.value].(next := Some(a));
        assert pool[..] == q2[ord[i - 1] := q2[ord[i - 1]].(next := Some(a))];
      }
    }
  }
}
