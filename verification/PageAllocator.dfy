/** The page allocator of threads/palloc.c: two pools, each a bitmap over a row of pages and
    the memory in them. */
module PageAllocator {
  import opened Sequences
  import opened VirtualAddress
  import opened Bitmap
  import opened CString

  /** Physical address 1 MB, where free memory starts. */
  const FREE_START: nat := PHYS_BASE + 0x10_0000

  /** The pages at the base of a pool that hold its own bitmap. */
  function BitmapPages(pageCnt: nat): (n: nat)
    ensures PGSIZE * (n - 1) < 8 + 4 * ElemCnt(pageCnt) <= PGSIZE * n
  {
    (8 + 4 * ElemCnt(pageCnt) + PGSIZE - 1) / PGSIZE
  }

  /** The user pool's share of the free pages: half, but at most the limit. */
  function UserPages(freePages: nat, limit: nat): (n: nat)
    ensures n <= limit && 2 * n <= freePages && (n == limit || freePages <= 2 * n + 1)
  {
    if freePages / 2 > limit then limit else freePages / 2
  }

  /** Arrays of words and of bytes are never the same. */
  predicate Apart(bits: array<bv32>, mem: array<Byte>) {
    var m: object := mem;
    m != bits
  }

  class Pool {
    const usedMap: Bitmap
    const mem: array<Byte>
    const base: nat

    ghost predicate Valid() {
      && usedMap.Valid() && base % PGSIZE == 0 && base > 0
      && mem.Length == PGSIZE * usedMap.bitCnt && Apart(usedMap.bits, mem)
    }

    ghost function Contents(): seq<bool>
      requires Valid()
      reads usedMap.bits
    {
      usedMap.Contents()
    }

    /** The first address after the pool. */
    function End(): nat {
      base + PGSIZE * usedMap.bitCnt
    }

    /** init_pool; a pool too small for its own bitmap panics. */
    constructor (start: nat, pageCnt: nat)
      requires start % PGSIZE == 0 && start > 0 && BitmapPages(pageCnt) <= pageCnt
      ensures Valid() && fresh(usedMap.bits) && fresh(mem)
      ensures base == start + PGSIZE * BitmapPages(pageCnt) && End() == start + PGSIZE * pageCnt
      ensures true !in Contents()
    {
      usedMap := new Bitmap(pageCnt - BitmapPages(pageCnt));
      mem := new Byte[PGSIZE * (pageCnt - BitmapPages(pageCnt))];
      base := start + PGSIZE * BitmapPages(pageCnt);
    }

    /** memset of N bytes from the one at offset AT on */
    method Memset(at: nat, value: Byte, n: nat)
      requires at + n <= mem.Length
      modifies mem
      ensures mem[..] == Filled(old(mem[..]), at, n, value)
    {
      var i := 0;
      while i < n
        invariant 0 <= i <= n
        invariant forall k :: 0 <= k < mem.Length ==> mem[k] == if at <= k < at + i then value else old(mem[k])
      {
        mem[at + i] := value;
        i := i + 1;
      }
    }

    /** page_from_pool */
    predicate Holds(page: nat) {
      PgNo(base) <= PgNo(page) < PgNo(base) + usedMap.bitCnt
    }

    /** A page-aligned address is in the pool just when it lies between its ends. */
    lemma HoldsIff(page: nat)
      requires Valid() && page % PGSIZE == 0
      ensures Holds(page) <==> base <= page < End()
      ensures Holds(page) ==> page == base + PGSIZE * (PgNo(page) - PgNo(base))
    {
    }
  }

  lemma RunEnds(bitCnt: nat, idx: nat, pageCnt: nat)
    requires idx + pageCnt <= bitCnt
    ensures PGSIZE * idx + PGSIZE * pageCnt <= PGSIZE * bitCnt
  {
  }

  class PageAllocator {
    const kernel: Pool
    const user: Pool

    ghost predicate Valid() {
      && kernel.Valid() && user.Valid() && kernel.End() <= user.base
      && kernel.usedMap.bits != user.usedMap.bits && kernel.mem != user.mem
      && Apart(kernel.usedMap.bits, user.mem) && Apart(user.usedMap.bits, kernel.mem)
    }

    /** palloc_init: free memory is split between the pools, the kernel's first. */
    constructor (initRamPages: nat, userPageLimit: nat)
      requires initRamPages >= 256
      requires var u := UserPages(initRamPages - 256, userPageLimit);
        BitmapPages(u) <= u && BitmapPages(initRamPages - 256 - u) <= initRamPages - 256 - u
      ensures Valid() && fresh(kernel.usedMap.bits) && fresh(user.usedMap.bits) && fresh(kernel.mem) && fresh(user.mem)
      ensures var u := UserPages(initRamPages - 256, userPageLimit);
        var k := initRamPages - 256 - u;
        && kernel.base == FREE_START + PGSIZE * BitmapPages(k) && kernel.End() == FREE_START + PGSIZE * k
        && user.base == FREE_START + PGSIZE * k + PGSIZE * BitmapPages(u)
        && user.End() == PHYS_BASE + PGSIZE * initRamPages
      ensures true !in kernel.Contents() && true !in user.Contents()
    {
      hide BitmapPages, ElemCnt;
      var freePages := initRamPages - 256;
      var userPages := UserPages(freePages, userPageLimit);
      var kernelPages := freePages - userPages;
      kernel := new Pool(FREE_START, kernelPages);
      user := new Pool(FREE_START + PGSIZE * kernelPages, userPages);
    }

    /** No page belongs to both pools. */
    lemma PoolsApart(page: nat)
      requires Valid() && page % PGSIZE == 0
      ensures !(kernel.Holds(page) && user.Holds(page))
    {
      kernel.HoldsIff(page);
      user.HoldsIff(page);
    }

    /** palloc_get_multiple from one pool, with PAL_ZERO and PAL_ASSERT: the first run of free
        pages, now marked used and cleared if asked for, or a null pointer or a panic when there
        is none. */
    method GetMultiple(fromUser: bool, zero: bool, must: bool, pageCnt: nat) returns (pages: nat, panics: bool)
      requires Valid()
      modifies kernel.usedMap.bits, user.usedMap.bits, kernel.mem, user.mem
      ensures fromUser ==> kernel.Contents() == old(kernel.Contents()) && kernel.mem[..] == old(kernel.mem[..])
      ensures !fromUser ==> user.Contents() == old(user.Contents()) && user.mem[..] == old(user.mem[..])
      ensures var pool := if fromUser then user else kernel;
        var run := if pageCnt == 0 then None else FirstRun(old(pool.Contents()), 0, pageCnt, false);
        && panics == (must && pageCnt > 0 && run == None)
        && if run.Some? then
             && pages == pool.base + PGSIZE * run.value && pages % PGSIZE == 0 && pages > 0
             && pool.Contents() == Filled(old(pool.Contents()), run.value, pageCnt, true)
             && PGSIZE * run.value + PGSIZE * pageCnt <= pool.mem.Length
             && pool.mem[..] ==
                  (if zero then Filled(old(pool.mem[..]), PGSIZE * run.value, PGSIZE * pageCnt, 0)
                   else old(pool.mem[..]))
           else
             pages == 0 && pool.Contents() == old(pool.Contents()) && pool.mem[..] == old(pool.mem[..])
    {
      hide FirstRun, Filled, ElemCnt;
      var pool := if fromUser then user else kernel;
      if pageCnt == 0 {
        return 0, false;
      }
      var idx := pool.usedMap.ScanAndFlip(0, pageCnt, false);
      if idx.None? {
        return 0, must;
      }
      pages, panics := pool.base + PGSIZE * idx.value, false;
      RunEnds(pool.usedMap.bitCnt, idx.value, pageCnt);
      if zero {
        pool.Memset(PGSIZE * idx.value, 0, PGSIZE * pageCnt);
      }
    }

    /** PAGE_CNT pages from PAGES on are in use in POOL. */
    ghost predicate InUse(pool: Pool, pages: nat, pageCnt: nat)
      requires pool.Valid()
      reads pool.usedMap.bits
    {
      pool.Holds(pages) && IsRun(pool.Contents(), PgNo(pages) - PgNo(pool.base), pageCnt, true)
    }

    /** Pages IDX to IDX + PAGE_CNT of POOL, which had USED and MEM before, are free and filled. */
    ghost predicate Returned(pool: Pool, used: seq<bool>, mem: Text, idx: nat, pageCnt: nat)
      requires pool.Valid()
      reads pool.usedMap.bits, pool.mem
    {
      && idx + pageCnt <= |used| && pool.Contents() == Filled(used, idx, pageCnt, false)
      && PGSIZE * idx + PGSIZE * pageCnt <= |mem|
      && pool.mem[..] == Filled(mem, PGSIZE * idx, PGSIZE * pageCnt, 0xcc)
    }

    /** palloc_free_multiple: marks the pages free, in the pool they came from, and fills them
        so that use after free is noticed. */
    method FreeMultiple(pages: nat, pageCnt: nat)
      requires Valid() && pages % PGSIZE == 0
      requires pages == 0 || pageCnt == 0 || InUse(kernel, pages, pageCnt) || InUse(user, pages, pageCnt)
      modifies kernel.usedMap.bits, user.usedMap.bits, kernel.mem, user.mem
      ensures pages == 0 || pageCnt == 0 || old(InUse(user, pages, pageCnt)) ==>
        kernel.Contents() == old(kernel.Contents()) && kernel.mem[..] == old(kernel.mem[..])
      ensures pages == 0 || pageCnt == 0 || old(InUse(kernel, pages, pageCnt)) ==>
        user.Contents() == old(user.Contents()) && user.mem[..] == old(user.mem[..])
      ensures pages != 0 && pageCnt != 0 && old(InUse(kernel, pages, pageCnt)) ==>
        Returned(kernel, old(kernel.Contents()), old(kernel.mem[..]), PgNo(pages) - PgNo(kernel.base), pageCnt)
      ensures pages != 0 && pageCnt != 0 && old(InUse(user, pages, pageCnt)) ==>
        Returned(user, old(user.Contents()), old(user.mem[..]), PgNo(pages) - PgNo(user.base), pageCnt)
    {
      if pages == 0 || pageCnt == 0 {
        return;
      }
      PoolsApart(pages);
      var pool := if kernel.Holds(pages) then kernel else user;
      var idx := PgNo(pages) - PgNo(pool.base);
      RunEnds(pool.usedMap.bitCnt, idx, pageCnt);
      pool.Memset(PGSIZE * idx, 0xcc, PGSIZE * pageCnt);
      var unused := pool.usedMap.Contains(idx, pageCnt, false);
      assert !unused;
      pool.usedMap.SetMultiple(idx, pageCnt, false);
    }
  }
}
