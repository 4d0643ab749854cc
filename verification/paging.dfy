/**
 * map_page: the flattened two-level huge-page mapper of kernel/memory.c.
 *
 * A virtual address selects a directory-pointer entry (one per 1 GiB) and a
 * flat huge-page entry (one per 2 MiB).  The directory entry is installed only
 * when it is not present; the huge-page entry is always overwritten.  The
 * directory entry stores the physical address of its slice of the huge-page
 * table, which here is the table's base address plus 8 bytes per entry.
 */
module Paging {
  import opened Wrappers
  import opened Platform

  /** Index of the directory-pointer entry covering `v`. */
  function DirIndex(v: nat): (d: nat)
    ensures d == v / (PAGE_SIZE_2MB * NO_OF_PT_ENTRIES)
    ensures v < COVERAGE ==> d < NO_OF_PT_ENTRIES
  {
    (v / PAGE_SIZE_2MB) / NO_OF_PT_ENTRIES
  }

  /** Index of the huge-page entry for `v` in the flattened table: one entry per 2 MiB. */
  function PtIndex(v: nat): (t: nat)
    ensures t == v / PAGE_SIZE_2MB
    ensures t / NO_OF_PT_ENTRIES == DirIndex(v)
    ensures v < COVERAGE ==> t < NO_OF_PT_ENTRIES * NO_OF_PT_ENTRIES
  {
    DirIndex(v) * NO_OF_PT_ENTRIES + (v / PAGE_SIZE_2MB) % NO_OF_PT_ENTRIES
  }

  predicate Present(e: bv64) {
    e & PG_PRESENT != 0
  }

  /** A huge-page entry: the frame, present, writable, page-size bit set. */
  function HugeEntry(phys: u64): (e: bv64)
    ensures Present(e) && e & PG_RW != 0 && e & PG_PSE != 0
  {
    (phys as bv64) | PG_PRESENT | PG_RW | PG_PSE
  }

  /** A directory-pointer entry pointing at huge-page entry `t` of the table at `pteBase`. */
  function DirEntry(pteBase: nat, t: nat): (e: bv64)
    requires pteBase + 8 * t < U64_MODULUS
    ensures Present(e) && e & PG_RW != 0
  {
    ((pteBase + 8 * t) as bv64) | PG_PRESENT | PG_RW
  }

  ghost predicate TableSizes(pdp: seq<bv64>, pte: seq<bv64>, pteBase: nat) {
    && |pdp| == NO_OF_PT_ENTRIES
    && |pte| == NO_OF_PT_ENTRIES * NO_OF_PT_ENTRIES
    && pteBase + 8 * |pte| <= U64_MODULUS
  }

  /** The two tables after mapping `virt` to `phys`. */
  function MapTables(pdp: seq<bv64>, pte: seq<bv64>, pteBase: nat, phys: u64, virt: u64)
    : (r: (seq<bv64>, seq<bv64>))
    requires TableSizes(pdp, pte, pteBase) && virt < COVERAGE
    ensures TableSizes(r.0, r.1, pteBase)
    ensures var d, t := DirIndex(virt), PtIndex(virt);
      && Present(r.0[d])
      && (Present(pdp[d]) ==> r.0 == pdp)
      && (!Present(pdp[d]) ==> r.0[d] == DirEntry(pteBase, t))
      && (forall i | 0 <= i < |pdp| && i != d :: r.0[i] == pdp[i])
      && r.1[t] == HugeEntry(phys)
      && (forall i | 0 <= i < |pte| && i != t :: r.1[i] == pte[i])
  {
    var d, t := DirIndex(virt), PtIndex(virt);
    var pdp' := if Present(pdp[d]) then pdp else pdp[d := DirEntry(pteBase, t)];
    (pdp', pte[t := HugeEntry(phys)])
  }

  /** Mapping the same address twice leaves the tables as mapping it once does. */
  lemma MapIdempotent(pdp: seq<bv64>, pte: seq<bv64>, pteBase: nat, phys: u64, virt: u64)
    requires TableSizes(pdp, pte, pteBase) && virt < COVERAGE
    ensures var once := MapTables(pdp, pte, pteBase, phys, virt);
      MapTables(once.0, once.1, pteBase, phys, virt) == once
  {
    var once := MapTables(pdp, pte, pteBase, phys, virt);
    var twice := MapTables(once.0, once.1, pteBase, phys, virt);
    assert twice.0 == once.0;
    assert twice.1 == once.1;
  }

  /** The page-table storage handed over by the boot code (pml4 is never read). */
  class PageTables {
    const pdp: array<bv64>
    const pte: array<bv64>
    /** Physical address of the huge-page table. */
    const pteBase: nat

    ghost predicate Valid()
      reads this
    {
      && pdp != pte
      && pdp.Length == NO_OF_PT_ENTRIES
      && pte.Length == NO_OF_PT_ENTRIES * NO_OF_PT_ENTRIES
      && pteBase + 8 * pte.Length <= U64_MODULUS
    }

    constructor (pteBase: nat)
      requires pteBase + 8 * NO_OF_PT_ENTRIES * NO_OF_PT_ENTRIES <= U64_MODULUS
      ensures Valid() && fresh(pdp) && fresh(pte) && this.pteBase == pteBase
      ensures forall i | 0 <= i < pdp.Length :: !Present(pdp[i])
      ensures forall i | 0 <= i < pte.Length :: !Present(pte[i])
    {
      pdp := new bv64[NO_OF_PT_ENTRIES](_ => 0);
      pte := new bv64[NO_OF_PT_ENTRIES * NO_OF_PT_ENTRIES](_ => 0);
      this.pteBase := pteBase;
    }

    /**
     * map_page.  The source does not check that the tables reach `virt`; here a
     * virtual address beyond what the two levels cover is refused and nothing
     * is written.
     */
    method MapPage(phys: u64, virt: u64) returns (r: Option<u64>)
      requires Valid()
      modifies pdp, pte
      ensures Valid()
      ensures r.None? <==> virt >= COVERAGE
      ensures r.None? ==> pdp[..] == old(pdp[..]) && pte[..] == old(pte[..])
      ensures r.Some? ==> (r.value == virt
        && (pdp[..], pte[..]) == MapTables(old(pdp[..]), old(pte[..]), pteBase, phys, virt))
    {
      if virt >= COVERAGE {
        return None;
      }
      var d := DirIndex(virt);
      var t := PtIndex(virt);
      if pdp[d] & PG_PRESENT == 0 {
        pdp[d] := DirEntry(pteBase, t);
      }
      pte[t] := HugeEntry(phys);
      return Some(virt);
    }
  }
}
