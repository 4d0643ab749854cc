/**
 * The region table seen as a value: the list of blocks, head to tail, reduced to
 * address, length and availability.  The split and allocation operations of
 * kernel/memory.c are specified here as functions on such lists, and the table's
 * invariant (the blocks tile the seeded span in address order) is proved to be
 * preserved by them.
 */
module Regions {
  import opened Wrappers
  import opened Platform

  /** One block of the table: the span [address, address + length). */
  datatype Region = Region(address: nat, length: nat, available: bool)

  function End(rg: Region): nat {
    rg.address + rg.length
  }

  /**
   * The test a split uses to find its block: the block starts at or before the
   * span and ends strictly after it, so a span ending exactly at the block's end
   * is never found.
   */
  predicate Contains(rg: Region, address: nat, length: nat)
    ensures Contains(rg, address, length) ==> (address - rg.address) + length < rg.length
  {
    rg.address <= address && End(rg) > address + length
  }

  /** Each block ends where the next one starts. */
  ghost predicate Contiguous(rs: seq<Region>) {
    forall i | 0 <= i < |rs| - 1 :: End(rs[i]) == rs[i + 1].address
  }

  /** The blocks tile [base, limit) in address order. */
  ghost predicate Covers(rs: seq<Region>, base: nat, limit: nat) {
    && |rs| > 0
    && rs[0].address == base
    && End(rs[|rs| - 1]) == limit
    && Contiguous(rs)
  }

  function TotalLength(rs: seq<Region>): nat {
    if rs == [] then 0 else rs[0].length + TotalLength(rs[1..])
  }

  lemma {:induction false} TotalAppend(xs: seq<Region>, ys: seq<Region>)
    ensures TotalLength(xs + ys) == TotalLength(xs) + TotalLength(ys)
  {
    if xs == [] {
      assert xs + ys == ys;
    } else {
      assert (xs + ys)[1..] == xs[1..] + ys;
      TotalAppend(xs[1..], ys);
    }
  }

  /** A tiling of [base, limit) has lengths summing to limit - base. */
  lemma {:induction false} CoverSum(rs: seq<Region>, base: nat, limit: nat)
    requires Covers(rs, base, limit)
    ensures base <= limit
    ensures TotalLength(rs) == limit - base
  {
    if |rs| > 1 {
      var rest := rs[1..];
      assert Covers(rest, End(rs[0]), limit) by {
        forall i | 0 <= i < |rest| - 1 ensures End(rest[i]) == rest[i + 1].address {
          assert rest[i] == rs[i + 1] && rest[i + 1] == rs[i + 2];
        }
      }
      CoverSum(rest, End(rs[0]), limit);
    }
  }

  /** In a contiguous list every block lies entirely below every later block. */
  lemma {:induction false} Ordered(rs: seq<Region>, i: nat, j: nat)
    requires Contiguous(rs)
    requires i < j < |rs|
    ensures End(rs[i]) <= rs[j].address
    decreases j - i
  {
    if i + 1 < j {
      Ordered(rs, i + 1, j);
    }
  }

  /** Every block of a tiling of [base, limit) lies inside it. */
  lemma {:induction false} InsideCover(rs: seq<Region>, base: nat, limit: nat, i: nat)
    requires Covers(rs, base, limit)
    requires i < |rs|
    ensures base <= rs[i].address && End(rs[i]) <= limit
  {
    if i > 0 {
      Ordered(rs, 0, i);
    }
    if i < |rs| - 1 {
      Ordered(rs, i, |rs| - 1);
    }
  }

  /**
   * The blocks that replace block `b` when [address, address + length) is carved
   * out of it: in the leading case the block shrunk to [b.address, address), the
   * allocated block and a free tail; in the start-aligned case the allocated
   * block and the rewritten original as tail, which keeps b's availability.
   */
  function Pieces(b: Region, address: nat, length: nat): (ps: seq<Region>)
    requires Contains(b, address, length)
  {
    var tail := End(b) - (address + length);
    if b.address < address then
      [Region(b.address, address - b.address, b.available),
       Region(address, length, false),
       Region(address + length, tail, true)]
    else
      [Region(address, length, false),
       Region(address + length, tail, b.available)]
  }

  /**
   * The pieces tile block `b`: they start where it starts and end where it
   * ends, the allocated block comes last but one, and the free tail is never
   * empty.
   */
  lemma PiecesShape(b: Region, address: nat, length: nat)
    requires Contains(b, address, length)
    ensures var ps := Pieces(b, address, length);
      && |ps| == (if b.address < address then 3 else 2)
      && Contiguous(ps)
      && ps[0].address == b.address && End(ps[|ps| - 1]) == End(b)
      && ps[|ps| - 2] == Region(address, length, false) && ps[|ps| - 1].length > 0
  {
  }

  /** Index, within SplitAt's result, of the allocated block. */
  function AllocIndex(rs: seq<Region>, k: nat, address: nat): nat
    requires k < |rs|
  {
    if rs[k].address < address then k + 1 else k
  }

  /** The list after block k has had [address, address + length) carved out of it. */
  function SplitAt(rs: seq<Region>, k: nat, address: nat, length: nat): (r: seq<Region>)
    requires k < |rs| && Contains(rs[k], address, length)
    ensures var j := AllocIndex(rs, k, address);
      && |r| == |rs| + j - k + 1
      && r[..k] == rs[..k]
      && r[j] == Region(address, length, false)
      && r[j + 1].address == address + length && End(r[j + 1]) == End(rs[k]) && r[j + 1].length > 0
      && (j == k + 1 ==> r[k] == Region(rs[k].address, address - rs[k].address, rs[k].available))
      && r[j + 2..] == rs[k + 1..]
  {
    var r := rs[..k] + Pieces(rs[k], address, length) + rs[k + 1..];
    assert r[AllocIndex(rs, k, address) + 2..] == rs[k + 1..];
    r
  }

  lemma PiecesTotal(b: Region, address: nat, length: nat)
    requires Contains(b, address, length)
    ensures TotalLength(Pieces(b, address, length)) == b.length
  {
    var p := Pieces(b, address, length);
    if b.address < address {
      assert TotalLength(p[2..]) == p[2].length by {
        assert p[2..][1..] == [];
      }
      assert TotalLength(p[1..]) == p[1].length + TotalLength(p[2..]) by {
        assert p[1..][1..] == p[2..];
      }
    } else {
      assert TotalLength(p[1..]) == p[1].length by {
        assert p[1..][1..] == [];
      }
    }
  }

  /** A split replaces block k by its pieces, and the list is block k between its neighbours. */
  lemma SplitAtIsSplice(rs: seq<Region>, k: nat, address: nat, length: nat)
    requires k < |rs| && Contains(rs[k], address, length)
    ensures SplitAt(rs, k, address, length) == rs[..k] + (Pieces(rs[k], address, length) + rs[k + 1..])
    ensures rs == rs[..k] + ([rs[k]] + rs[k + 1..])
  {
    assert rs == rs[..k] + ([rs[k]] + rs[k + 1..]);
  }

  /** Replacing one block by blocks of the same total length keeps the list's total. */
  lemma TotalReplace(pre: seq<Region>, x: Region, p: seq<Region>, post: seq<Region>)
    requires TotalLength(p) == x.length
    ensures TotalLength(pre + (p + post)) == TotalLength(pre + ([x] + post))
  {
    TotalAppend(pre, p + post);
    TotalAppend(p, post);
    TotalAppend(pre, [x] + post);
    TotalAppend([x], post);
    assert [x][1..] == [];
  }

  /** Carving a span out of a block does not change the total length. */
  lemma SplitPreservesTotal(rs: seq<Region>, k: nat, address: nat, length: nat)
    requires k < |rs| && Contains(rs[k], address, length)
    ensures TotalLength(SplitAt(rs, k, address, length)) == TotalLength(rs)
  {
    PiecesTotal(rs[k], address, length);
    TotalReplace(rs[..k], rs[k], Pieces(rs[k], address, length), rs[k + 1..]);
    SplitAtIsSplice(rs, k, address, length);
  }

  /** Carving a span out of a block keeps the list a tiling of the same span. */
  lemma SplitAtCovers(rs: seq<Region>, base: nat, limit: nat, k: nat, address: nat, length: nat)
    requires Covers(rs, base, limit)
    requires k < |rs| && Contains(rs[k], address, length)
    ensures Covers(SplitAt(rs, k, address, length), base, limit)
  {
    var r := SplitAt(rs, k, address, length);
    var j := AllocIndex(rs, k, address);
    forall i | 0 <= i < |r| - 1 ensures End(r[i]) == r[i + 1].address {
      if i < k - 1 {
        assert r[i] == rs[i] && r[i + 1] == rs[i + 1];
      } else if i == k - 1 {
        assert r[i] == rs[i];
      } else if i <= j + 1 {
      } else {
        assert r[i] == rs[i - (j - k) - 1] && r[i + 1] == rs[i - (j - k)];
      }
    }
    if k == |rs| - 1 {
      assert r[|r| - 1] == r[j + 1];
    } else {
      assert r[|r| - 1] == rs[|rs| - 1];
    }
  }

  /**
   * The first block containing [address, address + length), scanning from the
   * head as the split does.
   */
  function FindContaining(rs: seq<Region>, address: nat, length: nat): (k: Option<nat>)
    ensures k.None? <==> forall j | 0 <= j < |rs| :: !Contains(rs[j], address, length)
    ensures k.Some? ==> k.value < |rs| && Contains(rs[k.value], address, length)
    ensures k.Some? ==> forall j | 0 <= j < k.value :: !Contains(rs[j], address, length)
  {
    if rs == [] then None
    else if Contains(rs[0], address, length) then Some(0)
    else match FindContaining(rs[1..], address, length)
      case None => None
      case Some(k) => Some(k + 1)
  }

  /** The first block that contains the span is the one the scan finds. */
  lemma FindContainingFirst(rs: seq<Region>, k: nat, address: nat, length: nat)
    requires k < |rs| && Contains(rs[k], address, length)
    requires forall j | 0 <= j < k :: !Contains(rs[j], address, length)
    ensures FindContaining(rs, address, length) == Some(k)
  {
  }

  /** In a contiguous list at most one block contains a span, so the scan finds that one. */
  lemma ContainingIsUnique(rs: seq<Region>, k: nat, address: nat, length: nat)
    requires Contiguous(rs)
    requires k < |rs| && Contains(rs[k], address, length)
    ensures FindContaining(rs, address, length) == Some(k)
  {
    var f := FindContaining(rs, address, length);
    if f.value < k {
      Ordered(rs, f.value, k);
    }
  }

  /**
   * The allocator's test for a block, as intended: the block is free and a whole
   * page fits between the first page boundary in it and its end.  The bound is
   * strict, which is exactly what the split of that page needs.
   */
  predicate FitsPage(rg: Region)
    ensures FitsPage(rg) ==> rg.available && PAGE_SIZE < rg.length
  {
    rg.available && AlignUp(rg.address, PAGE_SIZE) + PAGE_SIZE < End(rg)
  }

  /** The first block the allocator picks. */
  function FirstFit(rs: seq<Region>): (k: Option<nat>)
    ensures k.None? <==> forall j | 0 <= j < |rs| :: !FitsPage(rs[j])
    ensures k.Some? ==> k.value < |rs| && FitsPage(rs[k.value])
    ensures k.Some? ==> forall j | 0 <= j < k.value :: !FitsPage(rs[j])
  {
    if rs == [] then None
    else if FitsPage(rs[0]) then Some(0)
    else match FirstFit(rs[1..])
      case None => None
      case Some(k) => Some(k + 1)
  }

  /** The page the allocator takes from a block that passes the test is aligned and lies inside it. */
  lemma FitsPageContains(rg: Region)
    requires FitsPage(rg)
    ensures Contains(rg, AlignUp(rg.address, PAGE_SIZE), PAGE_SIZE)
    ensures AlignUp(rg.address, PAGE_SIZE) % PAGE_SIZE == 0
  {
  }

  /**
   * A page taken from a free block never overlaps a block that is already
   * allocated: blocks of a tiling do not overlap.
   */
  lemma {:induction false} PageAvoidsAllocated(rs: seq<Region>, base: nat, limit: nat, k: nat, j: nat)
    requires Covers(rs, base, limit)
    requires k < |rs| && j < |rs| && FitsPage(rs[k]) && !rs[j].available
    ensures var a := AlignUp(rs[k].address, PAGE_SIZE);
      a + PAGE_SIZE <= rs[j].address || End(rs[j]) <= a
  {
    if j < k {
      Ordered(rs, j, k);
    } else {
      Ordered(rs, k, j);
    }
  }

  /** The list after the allocator has taken the page at the start of block k. */
  function TakePage(rs: seq<Region>, k: nat): (r: seq<Region>)
    requires k < |rs| && FitsPage(rs[k])
    ensures var a := AlignUp(rs[k].address, PAGE_SIZE);
      && |r| == |rs| + (if rs[k].address < a then 2 else 1)
      && r[..k] == rs[..k]
      && r[AllocIndex(rs, k, a)] == Region(a, PAGE_SIZE, false)
  {
    FitsPageContains(rs[k]);
    SplitAt(rs, k, AlignUp(rs[k].address, PAGE_SIZE), PAGE_SIZE)
  }

  /**
   * Two pages allocated one after the other from the same tiling are disjoint:
   * the first is recorded as an allocated block, and the second is taken from a
   * free one.
   */
  lemma SecondAllocationDisjoint(rs: seq<Region>, base: nat, limit: nat)
    requires Covers(rs, base, limit)
    requires FirstFit(rs).Some?
    ensures var k := FirstFit(rs).value;
      var rs2 := TakePage(rs, k);
      FirstFit(rs2).Some? ==>
        var a1 := AlignUp(rs[k].address, PAGE_SIZE);
        var a2 := AlignUp(rs2[FirstFit(rs2).value].address, PAGE_SIZE);
        a1 + PAGE_SIZE <= a2 || a2 + PAGE_SIZE <= a1
  {
    var k := FirstFit(rs).value;
    var a1 := AlignUp(rs[k].address, PAGE_SIZE);
    FitsPageContains(rs[k]);
    var rs2 := TakePage(rs, k);
    if FirstFit(rs2).Some? {
      SplitAtCovers(rs, base, limit, k, a1, PAGE_SIZE);
      var j := AllocIndex(rs, k, a1);
      PageAvoidsAllocated(rs2, base, limit, FirstFit(rs2).value, j);
    }
  }
}
