/**
 * The block pool of kernel/memory.c as a value: a sequence of slots, each a
 * block record whose prev/next links are slot indices.  A list is described by
 * the sequence of slot indices met when walking it from the head; `Linked` says
 * the records' links agree with that sequence, and `View` reads the blocks off
 * it.  The two splices a split performs are proved here to produce a linked
 * list whose view is the specified split.
 */
module Arena {
  import opened Wrappers
  import opened Platform
  import opened Regions

  /** A block record (struct memory_block). */
  datatype Block = Block(
    magic: nat,
    address: nat,
    length: nat,
    available: bool,
    prev: Option<nat>,
    next: Option<nat>)

  /** A slot of zeroed memory: not tagged, no links. */
  const FreeSlot: Block := Block(0, 0, 0, false, None, None)

  function RegionOf(b: Block): Region {
    Region(b.address, b.length, b.available)
  }

  function NextOf(ord: seq<nat>, i: nat): Option<nat>
    requires i < |ord|
  {
    if i + 1 < |ord| then Some(ord[i + 1]) else None
  }

  function PrevOf(ord: seq<nat>, i: nat): Option<nat>
    requires i < |ord|
  {
    if i == 0 then None else Some(ord[i - 1])
  }

  ghost predicate InPool(p: seq<Block>, ord: seq<nat>) {
    forall i | 0 <= i < |ord| :: ord[i] < |p|
  }

  ghost predicate Distinct(ord: seq<nat>) {
    forall i, j | 0 <= i < j < |ord| :: ord[i] != ord[j]
  }

  /** Slot ord[i] is a tagged record whose links are ord[i - 1] and ord[i + 1]. */
  ghost predicate LinkedAt(p: seq<Block>, ord: seq<nat>, i: nat)
    requires i < |ord| && ord[i] < |p|
  {
    && p[ord[i]].magic == MEMORY_BLOCK_MAGIC
    && p[ord[i]].next == NextOf(ord, i)
    && p[ord[i]].prev == PrevOf(ord, i)
  }

  /** Walking the links of `p` from ord[0] visits exactly the slots of `ord`, in order. */
  ghost predicate Linked(p: seq<Block>, ord: seq<nat>) {
    && InPool(p, ord)
    && Distinct(ord)
    && forall i | 0 <= i < |ord| :: LinkedAt(p, ord, i)
  }

  /** The blocks of the list, head to tail. */
  function View(p: seq<Block>, ord: seq<nat>): (rs: seq<Region>)
    requires InPool(p, ord)
    ensures |rs| == |ord|
    ensures forall i | 0 <= i < |ord| :: rs[i] == RegionOf(p[ord[i]])
  {
    seq(|ord|, i requires 0 <= i < |ord| => RegionOf(p[ord[i]]))
  }

  /** Writing a slot that is not on the list changes neither the list nor its blocks. */
  lemma LinkedFrame(p: seq<Block>, ord: seq<nat>, x: nat, v: Block)
    requires Linked(p, ord) && x < |p| && x !in ord
    ensures Linked(p[x := v], ord)
    ensures View(p[x := v], ord) == View(p, ord)
  {
    var q := p[x := v];
    forall i | 0 <= i < |ord| ensures q[ord[i]] == p[ord[i]] {
      assert ord[i] != x;
    }
    assert forall i | 0 <= i < |ord| :: LinkedAt(q, ord, i) by {
      forall i | 0 <= i < |ord| ensures LinkedAt(q, ord, i) {
        assert LinkedAt(p, ord, i);
      }
    }
  }

  /**
   * Leading case, corrected: block ord[i] keeps [b.address, address), and the
   * allocated slot `a` and the remainder slot `r` are spliced in after it, in
   * both directions.
   */
  function LeadingPool(p: seq<Block>, ord: seq<nat>, i: nat, a: nat, r: nat, address: nat): (q: seq<Block>)
    requires InPool(p, ord) && i < |ord| && a < |p| && r < |p|
    requires p[ord[i]].address < address
    ensures |q| == |p|
    ensures forall x | 0 <= x < |p| :: q[x].magic == p[x].magic
  {
    var b := ord[i];
    var p1 := p[b := p[b].(length := address - p[b].address, next := Some(a))];
    var p2 := p1[a := p1[a].(prev := Some(b), next := Some(r))];
    var p3 := p2[r := p2[r].(prev := Some(a), next := NextOf(ord, i))];
    if i + 1 < |ord| then p3[ord[i + 1] := p3[ord[i + 1]].(prev := Some(r))] else p3
  }

  /** The list order after the leading-case splice. */
  function LeadingOrder(ord: seq<nat>, i: nat, a: nat, r: nat): (o: seq<nat>)
    requires i < |ord|
    ensures |o| == |ord| + 2
    ensures forall j | 0 <= j <= i :: o[j] == ord[j]
    ensures o[i + 1] == a && o[i + 2] == r
    ensures forall j | i + 3 <= j < |o| :: o[j] == ord[j - 2]
  {
    ord[..i + 1] + [a, r] + ord[i + 1..]
  }

  /** The leading-case splice drops no slot from the list. */
  lemma LeadingOrderKeeps(ord: seq<nat>, i: nat, a: nat, r: nat)
    requires i < |ord|
    ensures forall x | x in ord :: x in LeadingOrder(ord, i, a, r)
  {
    var o := LeadingOrder(ord, i, a, r);
    forall x | x in ord ensures x in o {
      var j :| 0 <= j < |ord| && ord[j] == x;
      if j <= i {
        assert o[j] == x;
      } else {
        assert o[j + 2] == x;
      }
    }
  }

  /** The leading-case splice writes only slots of the new list. */
  lemma LeadingTouchesListOnly(p: seq<Block>, ord: seq<nat>, i: nat, a: nat, r: nat, address: nat)
    requires InPool(p, ord) && i < |ord| && a < |p| && r < |p|
    requires p[ord[i]].address < address
    ensures |LeadingPool(p, ord, i, a, r, address)| == |p|
    ensures forall x | 0 <= x < |p| && x !in LeadingOrder(ord, i, a, r) ::
      LeadingPool(p, ord, i, a, r, address)[x] == p[x]
  {
    var o := LeadingOrder(ord, i, a, r);
    assert o[i] == ord[i] && o[i + 1] == a && o[i + 2] == r;
    if i + 1 < |ord| {
      assert o[i + 3] == ord[i + 1];
    }
  }

  /** Every slot from `from` on carries the in-use tag, so memory_block_new finds no record. */
  ghost predicate AllTagged(p: seq<Block>, from: nat) {
    forall j | from <= j < |p| :: p[j].magic == MEMORY_BLOCK_MAGIC
  }

  /** At most one slot from `from` on lacks the in-use tag. */
  ghost predicate AtMostOneUntagged(p: seq<Block>, from: nat) {
    forall x, y | from <= x < y < |p| :: p[x].magic == MEMORY_BLOCK_MAGIC || p[y].magic == MEMORY_BLOCK_MAGIC
  }

  /** The claimed records the splices expect: tagged, with the span and flag memory_block_new wrote. */
  ghost predicate Claimed(p: seq<Block>, ord: seq<nat>, x: nat, rg: Region) {
    x < |p| && x !in ord && p[x].magic == MEMORY_BLOCK_MAGIC && RegionOf(p[x]) == rg
  }

  lemma LeadingDistinct(ord: seq<nat>, i: nat, a: nat, r: nat)
    requires Distinct(ord) && i < |ord| && a != r && a !in ord && r !in ord
    ensures Distinct(LeadingOrder(ord, i, a, r))
  {
    var o := LeadingOrder(ord, i, a, r);
    forall j, k | 0 <= j < k < |o| ensures o[j] != o[k] {
      if k == i + 1 || k == i + 2 || j == i + 1 || j == i + 2 {
        assert o[j] in ord || o[k] in ord || (o[j] == a && o[k] == r);
      } else {
        var j', k' := if j <= i then j else j - 2, if k <= i then k else k - 2;
        assert o[j] == ord[j'] && o[k] == ord[k'];
      }
    }
  }

  /** What each slot holds after the leading-case splice. */
  lemma LeadingSlots(p: seq<Block>, ord: seq<nat>, i: nat, a: nat, r: nat, address: nat)
    requires Linked(p, ord) && i < |ord| && p[ord[i]].address < address
    requires a < |p| && r < |p| && a != r && a !in ord && r !in ord
    ensures var q, b := LeadingPool(p, ord, i, a, r, address), ord[i];
      && |q| == |p|
      && q[b] == p[b].(length := address - p[b].address, next := Some(a))
      && q[a] == p[a].(prev := Some(b), next := Some(r))
      && q[r] == p[r].(prev := Some(a), next := NextOf(ord, i))
      && (i + 1 < |ord| ==> q[ord[i + 1]] == p[ord[i + 1]].(prev := Some(r)))
      && (forall j | 0 <= j < |ord| && j != i && j != i + 1 :: q[ord[j]] == p[ord[j]])
  {
    var b := ord[i];
    var q := LeadingPool(p, ord, i, a, r, address);
    if i + 1 < |ord| {
      assert ord[i + 1] != b;
    }
    forall j | 0 <= j < |ord| && j != i && j != i + 1 ensures q[ord[j]] == p[ord[j]] {
      assert ord[j] != b && ord[j] != a && ord[j] != r;
      assert i + 1 < |ord| ==> ord[j] != ord[i + 1];
    }
  }

  lemma SpliceLeading(p: seq<Block>, ord: seq<nat>, i: nat, a: nat, r: nat, address: nat, length: nat)
    requires Linked(p, ord) && i < |ord|
    requires Contains(RegionOf(p[ord[i]]), address, length) && p[ord[i]].address < address
    requires a != r
    requires Claimed(p, ord, a, Region(address, length, false))
    requires Claimed(p, ord, r, Region(address + length, End(RegionOf(p[ord[i]])) - (address + length), true))
    ensures Linked(LeadingPool(p, ord, i, a, r, address), LeadingOrder(ord, i, a, r))
    ensures View(LeadingPool(p, ord, i, a, r, address), LeadingOrder(ord, i, a, r))
         == SplitAt(View(p, ord), i, address, length)
  {
    var q := LeadingPool(p, ord, i, a, r, address);
    var o := LeadingOrder(ord, i, a, r);
    LeadingSlots(p, ord, i, a, r, address);
    LeadingDistinct(ord, i, a, r);
    assert InPool(q, o);
    forall j | 0 <= j < |o| ensures LinkedAt(q, o, j) {
      if j < i {
        assert LinkedAt(p, ord, j);
      } else if j <= i + 2 {
        assert LinkedAt(p, ord, i);
      } else if j == i + 3 {
        assert LinkedAt(p, ord, i + 1);
      } else {
        assert LinkedAt(p, ord, j - 2);
      }
    }
    LeadingView(p, ord, i, a, r, address, length);
  }

  lemma LeadingView(p: seq<Block>, ord: seq<nat>, i: nat, a: nat, r: nat, address: nat, length: nat)
    requires Linked(p, ord) && i < |ord|
    requires Contains(RegionOf(p[ord[i]]), address, length) && p[ord[i]].address < address
    requires a != r
    requires Claimed(p, ord, a, Region(address, length, false))
    requires Claimed(p, ord, r, Region(address + length, End(RegionOf(p[ord[i]])) - (address + length), true))
    requires InPool(LeadingPool(p, ord, i, a, r, address), LeadingOrder(ord, i, a, r))
    ensures View(LeadingPool(p, ord, i, a, r, address), LeadingOrder(ord, i, a, r))
         == SplitAt(View(p, ord), i, address, length)
  {
    var q := LeadingPool(p, ord, i, a, r, address);
    var o := LeadingOrder(ord, i, a, r);
    LeadingSlots(p, ord, i, a, r, address);
    var rs := View(p, ord);
    var split := SplitAt(rs, i, address, length);
    var pieces := Pieces(rs[i], address, length);
    assert split == rs[..i] + pieces + rs[i + 1..];
    forall j | 0 <= j < |o| ensures View(q, o)[j] == split[j] {
      if j < i {
        assert split[j] == rs[j];
      } else if j <= i + 2 {
        assert split[j] == pieces[j - i];
      } else {
        assert split[j] == rs[j - 2];
      }
    }
  }

  /**
   * Start-aligned case, corrected: the allocated slot `a` is spliced in before
   * block ord[i], which is rewritten in place to the tail; the predecessor, if
   * any, is pointed at `a`.
   */
  function AlignedPool(p: seq<Block>, ord: seq<nat>, i: nat, a: nat, address: nat, length: nat): (q: seq<Block>)
    requires InPool(p, ord) && i < |ord| && a < |p|
    requires Contains(RegionOf(p[ord[i]]), address, length)
    ensures |q| == |p|
    ensures forall x | 0 <= x < |p| :: q[x].magic == p[x].magic
  {
    var b := ord[i];
    var tail := End(RegionOf(p[b])) - (address + length);
    var p1 := p[b := p[b].(address := address + length, length := tail, prev := Some(a))];
    var p2 := p1[a := p1[a].(prev := PrevOf(ord, i), next := Some(b))];
    if i > 0 then p2[ord[i - 1] := p2[ord[i - 1]].(next := Some(a))] else p2
  }

  /** The list order after the start-aligned splice. */
  function AlignedOrder(ord: seq<nat>, i: nat, a: nat): (o: seq<nat>)
    requires i < |ord|
    ensures |o| == |ord| + 1
    ensures forall j | 0 <= j < i :: o[j] == ord[j]
    ensures o[i] == a
    ensures forall j | i + 1 <= j < |o| :: o[j] == ord[j - 1]
  {
    ord[..i] + [a] + ord[i..]
  }

  /** The start-aligned splice drops no slot from the list. */
  lemma AlignedOrderKeeps(ord: seq<nat>, i: nat, a: nat)
    requires i < |ord|
    ensures forall x | x in ord :: x in AlignedOrder(ord, i, a)
  {
    var o := AlignedOrder(ord, i, a);
    forall x | x in ord ensures x in o {
      var j :| 0 <= j < |ord| && ord[j] == x;
      if j < i {
        assert o[j] == x;
      } else {
        assert o[j + 1] == x;
      }
    }
  }

  /** The start-aligned splice writes only slots of the new list. */
  lemma AlignedTouchesListOnly(p: seq<Block>, ord: seq<nat>, i: nat, a: nat, address: nat, length: nat)
    requires InPool(p, ord) && i < |ord| && a < |p|
    requires Contains(RegionOf(p[ord[i]]), address, length)
    ensures |AlignedPool(p, ord, i, a, address, length)| == |p|
    ensures forall x | 0 <= x < |p| && x !in AlignedOrder(ord, i, a) ::
      AlignedPool(p, ord, i, a, address, length)[x] == p[x]
  {
    var o := AlignedOrder(ord, i, a);
    assert o[i] == a && o[i + 1] == ord[i];
    if i > 0 {
      assert o[i - 1] == ord[i - 1];
    }
  }

  lemma AlignedDistinct(ord: seq<nat>, i: nat, a: nat)
    requires Distinct(ord) && i < |ord| && a !in ord
    ensures Distinct(AlignedOrder(ord, i, a))
  {
    var o := AlignedOrder(ord, i, a);
    forall j, k | 0 <= j < k < |o| ensures o[j] != o[k] {
      if j == i || k == i {
        assert o[j] in ord || o[k] in ord;
      } else {
        var j', k' := if j < i then j else j - 1, if k < i then k else k - 1;
        assert o[j] == ord[j'] && o[k] == ord[k'];
      }
    }
  }

  /** What each slot holds after the start-aligned splice. */
  lemma AlignedSlots(p: seq<Block>, ord: seq<nat>, i: nat, a: nat, address: nat, length: nat)
    requires Linked(p, ord) && i < |ord| && Contains(RegionOf(p[ord[i]]), address, length)
    requires a < |p| && a !in ord
    ensures var q, b := AlignedPool(p, ord, i, a, address, length), ord[i];
      && |q| == |p|
      && q[b] == p[b].(address := address + length,
                       length := End(RegionOf(p[b])) - (address + length), prev := Some(a))
      && q[a] == p[a].(prev := PrevOf(ord, i), next := Some(b))
      && (i > 0 ==> q[ord[i - 1]] == p[ord[i - 1]].(next := Some(a)))
      && (forall j | 0 <= j < |ord| && j != i && j + 1 != i :: q[ord[j]] == p[ord[j]])
  {
    var b := ord[i];
    var q := AlignedPool(p, ord, i, a, address, length);
    if i > 0 {
      assert ord[i - 1] != b;
    }
    forall j | 0 <= j < |ord| && j != i && j + 1 != i ensures q[ord[j]] == p[ord[j]] {
      assert ord[j] != b && ord[j] != a;
      assert i > 0 ==> ord[j] != ord[i - 1];
    }
  }

  lemma SpliceAligned(p: seq<Block>, ord: seq<nat>, i: nat, a: nat, address: nat, length: nat)
    requires Linked(p, ord) && i < |ord|
    requires Contains(RegionOf(p[ord[i]]), address, length) && p[ord[i]].address == address
    requires Claimed(p, ord, a, Region(address, length, false))
    ensures Linked(AlignedPool(p, ord, i, a, address, length), AlignedOrder(ord, i, a))
    ensures View(AlignedPool(p, ord, i, a, address, length), AlignedOrder(ord, i, a))
         == SplitAt(View(p, ord), i, address, length)
  {
    var q := AlignedPool(p, ord, i, a, address, length);
    var o := AlignedOrder(ord, i, a);
    AlignedSlots(p, ord, i, a, address, length);
    AlignedDistinct(ord, i, a);
    assert InPool(q, o);
    forall j | 0 <= j < |o| ensures LinkedAt(q, o, j) {
      if j < i {
        assert LinkedAt(p, ord, j);
      } else if j == i {
        assert LinkedAt(p, ord, i);
      } else {
        assert LinkedAt(p, ord, j - 1);
      }
    }
    AlignedView(p, ord, i, a, address, length);
  }

  lemma AlignedView(p: seq<Block>, ord: seq<nat>, i: nat, a: nat, address: nat, length: nat)
    requires Linked(p, ord) && i < |ord|
    requires Contains(RegionOf(p[ord[i]]), address, length) && p[ord[i]].address == address
    requires Claimed(p, ord, a, Region(address, length, false))
    requires InPool(AlignedPool(p, ord, i, a, address, length), AlignedOrder(ord, i, a))
    ensures View(AlignedPool(p, ord, i, a, address, length), AlignedOrder(ord, i, a))
         == SplitAt(View(p, ord), i, address, length)
  {
    var q := AlignedPool(p, ord, i, a, address, length);
    var o := AlignedOrder(ord, i, a);
    AlignedSlots(p, ord, i, a, address, length);
    var rs := View(p, ord);
    var split := SplitAt(rs, i, address, length);
    var pieces := Pieces(rs[i], address, length);
    assert split == rs[..i] + pieces + rs[i + 1..];
    forall j | 0 <= j < |o| ensures View(q, o)[j] == split[j] {
      if j < i {
        assert split[j] == rs[j];
      } else if j <= i + 1 {
        assert split[j] == pieces[j - i];
      } else {
        assert split[j] == rs[j - 1];
      }
    }
  }

  /**
   * Everything the start-aligned case needs to know about the pool after the
   * splice: the list is linked and tiles the same span, it describes SplitAt of
   * the old list, `a` takes block ord[i]'s place (so it is the new head when
   * i = 0), and no slot off the list was written.
   */
  lemma AlignedSplice(p: seq<Block>, ord: seq<nat>, i: nat, a: nat, address: nat, length: nat,
                      base: nat, limit: nat)
    requires Linked(p, ord) && i < |ord|
    requires Contains(RegionOf(p[ord[i]]), address, length) && p[ord[i]].address == address
    requires Claimed(p, ord, a, Region(address, length, false))
    requires Covers(View(p, ord), base, limit)
    ensures var q, o := AlignedPool(p, ord, i, a, address, length), AlignedOrder(ord, i, a);
      && |q| == |p| && Linked(q, o)
      && o[0] == (if i == 0 then a else ord[0]) && o[i] == a
      && RegionOf(q[a]) == Region(address, length, false)
      && View(q, o) == SplitAt(View(p, ord), i, address, length)
      && Covers(View(q, o), base, limit)
      && (forall x | 0 <= x < |p| && x !in o :: q[x] == p[x])
  {
    SpliceAligned(p, ord, i, a, address, length);
    AlignedSlots(p, ord, i, a, address, length);
    AlignedTouchesListOnly(p, ord, i, a, address, length);
    SplitAtCovers(View(p, ord), base, limit, i, address, length);
  }

  /**
   * Everything the leading case needs to know about the pool after the splice:
   * the list is linked and tiles the same span, it describes SplitAt of the old
   * list with `a` and `r` right after block ord[i], and no slot off the list
   * was written.
   */
  lemma LeadingSplice(p: seq<Block>, ord: seq<nat>, i: nat, a: nat, r: nat, address: nat, length: nat,
                      base: nat, limit: nat)
    requires Linked(p, ord) && i < |ord|
    requires Contains(RegionOf(p[ord[i]]), address, length) && p[ord[i]].address < address
    requires a != r
    requires Claimed(p, ord, a, Region(address, length, false))
    requires Claimed(p, ord, r, Region(address + length, End(RegionOf(p[ord[i]])) - (address + length), true))
    requires Covers(View(p, ord), base, limit)
    ensures var q, o := LeadingPool(p, ord, i, a, r, address), LeadingOrder(ord, i, a, r);
      && |q| == |p| && Linked(q, o)
      && o[0] == ord[0] && o[i + 1] == a && o[i + 2] == r
      && View(q, o) == SplitAt(View(p, ord), i, address, length)
      && Covers(View(q, o), base, limit)
      && (forall x | 0 <= x < |p| && x !in o :: q[x] == p[x])
  {
    SpliceLeading(p, ord, i, a, r, address, length);
    LeadingTouchesListOnly(p, ord, i, a, r, address);
    SplitAtCovers(View(p, ord), base, limit, i, address, length);
  }
}
