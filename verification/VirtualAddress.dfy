/** Pages and addresses, from threads/vaddr.h. */
module VirtualAddress {
  const PGSIZE: nat := 4096

  /** The address at which physical memory is mapped. */
  const PHYS_BASE: nat := 0xc000_0000

  function PgOfs(va: nat): nat {
    va % PGSIZE
  }

  function PgNo(va: nat): nat {
    va / PGSIZE
  }

  /** The largest page boundary at or below VA. */
  function PgRoundDown(va: nat): (r: nat)
    ensures PgOfs(r) == 0 && r <= va < r + PGSIZE && r == PGSIZE * PgNo(va)
  {
    va - PgOfs(va)
  }
}
