/**
 * The virtual-address constants of the i386 Pintos kernel (threads/vaddr.h)
 * and the page arithmetic built on them. threads/vaddr.h is not part of this
 * model; its usual values are taken as constants here.
 */
module Vaddr {
  import opened Bytes

  /** Page size: 1 << PGBITS with PGBITS = 12. PGMASK is PGSIZE - 1. */
  const PGSIZE: nat := 4096

  /** First kernel virtual address; user space is [0, PHYS_BASE). */
  const PHYS_BASE: nat := 0xC000_0000

  /** The page just below PHYS_BASE, where the initial user stack lives. */
  const STACK_PAGE: nat := PHYS_BASE - PGSIZE

  predicate IsUserVaddr(v: nat) {
    v < PHYS_BASE
  }

  /** v & PGMASK: the offset of v within its page. */
  function PgOfs(v: nat): (r: nat)
    ensures r < PGSIZE && (v - r) % PGSIZE == 0
  {
    v % PGSIZE
  }

  /** v & ~PGMASK: the start of the page holding v. */
  function PgRoundDown(v: nat): (r: nat)
    ensures r % PGSIZE == 0 && r <= v < r + PGSIZE
  {
    v - v % PGSIZE
  }

  /** ROUND_UP (x, PGSIZE) evaluated in exact arithmetic: the least multiple of PGSIZE not below x. */
  function PgRoundUp(x: nat): (r: nat)
    ensures r % PGSIZE == 0 && x <= r < x + PGSIZE
  {
    (x + PGSIZE - 1) / PGSIZE * PGSIZE
  }

  /** ROUND_UP (x, PGSIZE) as the uint32_t macro expansion computes it. */
  function PgRoundUp32(x: u32): (r: u32)
    ensures x + PGSIZE - 1 < U32_LIMIT ==> r == PgRoundUp(x)
  {
    Wrap32(x + PGSIZE - 1) / PGSIZE * PGSIZE
  }
}
