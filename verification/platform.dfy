/**
 * Constants of the early-boot memory code and the integer arithmetic it relies on.
 *
 * The header that defines these constants is not part of this model; the values
 * below are the x86-64 ones (Intel SDM Vol. 3A, chapter 4: present bit 0,
 * read/write bit 1, page-size bit 7, 512 entries per table, 2 MiB huge pages).
 */
module Platform {
  /** An unsigned 64-bit integer. */
  type u64 = x: int | 0 <= x < 0x1_0000_0000_0000_0000

  const U64_MODULUS: nat := 0x1_0000_0000_0000_0000

  const PAGE_SIZE_2MB: nat := 0x20_0000
  const NO_OF_PT_ENTRIES: nat := 512

  const PG_PRESENT: bv64 := 0x1
  const PG_RW: bv64 := 0x2
  const PG_PSE: bv64 := 0x80

  /**
   * The size of the page that the allocator hands out.  The kernel maps every
   * page with one 2 MiB huge-page entry, so the page size is assumed to be the
   * huge-page size.
   */
  const PAGE_SIZE: nat := PAGE_SIZE_2MB

  /** Tag of a pool slot that holds a block record; zeroed memory is an unused slot. */
  const MEMORY_BLOCK_MAGIC: nat := 0xB10C_B10C

  /** Assumed size in bytes of one block record; the pool is one page of records. */
  const BLOCK_RECORD_SIZE: nat := 48
  const POOL_CAPACITY: nat := PAGE_SIZE / BLOCK_RECORD_SIZE

  /** Number of bytes the two flattened page-table levels can map. */
  const COVERAGE: nat := PAGE_SIZE_2MB * NO_OF_PT_ENTRIES * NO_OF_PT_ENTRIES

  lemma MulAtLeast(d: int, a: int)
    requires d >= 1 && a > 0
    ensures d * a >= a
  {
    assert d * a == (d - 1) * a + a;
  }

  /** n = q * a + m with 0 <= m < a determines the quotient and the remainder. */
  lemma DivModUnique(n: int, a: int, q: int, m: int)
    requires a > 0 && 0 <= m < a && n == q * a + m
    ensures n / a == q && n % a == m
  {
    var q0, m0 := n / a, n % a;
    assert q * a + m == q0 * a + m0;
    if q > q0 {
      assert (q - q0) * a == q * a - q0 * a;
      MulAtLeast(q - q0, a);
    } else if q < q0 {
      assert (q0 - q) * a == q0 * a - q * a;
      MulAtLeast(q0 - q, a);
    }
  }

  /** ALIGN_UP: the least multiple of `a` that is not below `x`. */
  function AlignUp(x: nat, a: nat): (r: nat)
    requires a > 0
    ensures r % a == 0
    ensures x <= r < x + a
  {
    var q := (x + a - 1) / a;
    DivModUnique(x + a - 1, a, q, (x + a - 1) % a);
    assert q * a >= 0 by { assert q >= 0; }
    DivModUnique(q * a, a, q, 0);
    q * a
  }

  /** AlignUp gives the least multiple: no multiple of `a` lies below it and above `x`. */
  lemma AlignUpLeast(x: nat, a: nat, m: nat)
    requires a > 0 && m % a == 0 && x <= m
    ensures AlignUp(x, a) <= m
  {
    var r := AlignUp(x, a);
    if m < r {
      // r would be m plus less than a, so r % a would not be 0.
      assert m == (m / a) * a;
      DivModUnique(r, a, m / a, r - m);
    }
  }

  /** Subtraction of two u64 values as the machine does it: modulo 2^64. */
  function Sub64(x: u64, y: u64): (r: u64)
    ensures x >= y ==> r == x - y
    ensures x < y ==> r == U64_MODULUS - (y - x)
  {
    (x - y) % U64_MODULUS
  }
}
