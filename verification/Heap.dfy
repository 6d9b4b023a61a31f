/** threads/malloc.c: descriptors, arenas and free lists changed in place, over the page
    allocator.  Each call is proved to do what the function of the same name in HeapModel
    does. */
module Heap {
  import opened Sequences
  import opened VirtualAddress
  import opened Bitmap
  import PageAllocator
  import opened CString
  import opened HeapModel

  datatype Desc = Desc(blockSize: nat, blocksPerArena: nat)

  /** The descriptors malloc_init makes. */
  ghost predicate Described(descs: seq<Desc>, n: nat) {
    && |descs| == n <= DESC_CNT
    && forall d :: 0 <= d < n ==> descs[d] == Desc(BlockSize(d), PerArena(d))
  }

  /** malloc_init: block sizes double from 16 up to half a page, exclusive. */
  method MallocInit() returns (descs: seq<Desc>)
    ensures Described(descs, DESC_CNT)
  {
    descs := [];
    var blockSize := 16;
    while blockSize < PGSIZE / 2
      invariant Described(descs, |descs|)
      invariant blockSize == if |descs| < DESC_CNT then BlockSize(|descs|) else 2048
      decreases DESC_CNT - |descs|
    {
      descs := descs + [Desc(blockSize, (PGSIZE - HEADER) / blockSize)];
      blockSize := blockSize * 2;
    }
  }

  lemma {:induction false} SiftAlso(l: seq<nat>, blocks: seq<nat>, b: nat)
    ensures Sift(Sift(l, blocks), [b]) == Sift(l, blocks + [b])
  {
    if l != [] {
      SiftAlso(l[1..], blocks, b);
      var r := Sift(l[1..], blocks);
      if l[0] !in blocks {
        assert ([l[0]] + r)[1..] == r;
      }
    }
  }

  lemma SiftNone(l: seq<nat>)
    ensures Sift(l, []) == l
  {
  }

  lemma ListGrows(base: nat, k: nat, d: nat, i: nat)
    requires d < DESC_CNT && i < PerArena(d)
    ensures BlockList(base, k, d, i + 1) == BlockList(base, k, d, i) + [BlockAt(base, k, d, i)]
  {
  }

  /** Marking the pages of an arena in the bitmap. */
  lemma UsedFilled(owner: seq<Owner>, k: nat, n: nat, o: Owner)
    requires k + n <= |owner|
    ensures Used(Filled(owner, k, n, o)) == Filled(Used(owner), k, n, o != Nobody)
  {
  }

  lemma FilledOne<T>(s: seq<T>, k: nat, x: T)
    requires k < |s|
    ensures Filled(s, k, 1, x) == s[k := x]
  {
  }

  /** The whole of live block P, requested or not, is apart from what any other holds. */
  lemma CapacityApart(s: State, p: nat, r: nat)
    requires Inv(s) && p in s.live && r in s.live && p != r
    ensures s.base <= p && p + Capacity(s, p) <= PageAt(s.base, |s.owner|)
    ensures p + Capacity(s, p) <= r || r + s.live[r] <= p
  {
    hide IsBlock, PageOf, ArenaOk, ListOk, PagesOk, Inv;
    BlockSpan(s, p);
    BlockSpan(s, r);
    CapacitySpan(s, p);
    var j, k := PageOf(s.base, p), PageOf(s.base, r);
    if j != k {
      ArenasApart(s, j, k);
    } else {
      SharedArena(s, p, r);
    }
  }

  lemma CapacitySpan(s: State, p: nat)
    requires Inv(s) && p in s.live
    ensures PageOf(s.base, p) in s.arenas
    ensures var k := PageOf(s.base, p); p + Capacity(s, p) <= PageAt(s.base, k + Pages(s.arenas[k]))
    ensures s.base <= p && p + Capacity(s, p) <= PageAt(s.base, |s.owner|) && s.live[p] <= Capacity(s, p)
  {
    assert LiveOk(s, p);
    var k := PageOf(s.base, p);
    FreedPages(s, k);
    if s.arenas[k].Small? {
      BlockFacts(s.base, k, s.arenas[k].desc, p);
    }
  }

  lemma SharedArena(s: State, p: nat, r: nat)
    requires Inv(s) && p in s.live && r in s.live && p != r && PageOf(s.base, p) == PageOf(s.base, r)
    ensures p + Capacity(s, p) <= r || r + s.live[r] <= p
  {
    hide IsBlock, ArenaOk, ListOk, PagesOk;
    assert LiveOk(s, p) && LiveOk(s, r);
    var k := PageOf(s.base, p);
    BlocksOfArenaApart(s.base, k, s.arenas[k].desc, p, r);
  }

  lemma LiveIs(s: State, p: nat)
    requires Inv(s) && p in s.live
    ensures LiveOk(s, p) && Core(s)
  {
  }

  lemma FreeIsBig(s: State, p: nat)
    requires Inv(s) && p in s.live && LiveOk(s, p) && s.arenas[PageOf(s.base, p)].Big?
    ensures var k := PageOf(s.base, p);
      k + s.arenas[k].pages <= |s.owner| && HeapModel.Free(s, p) == BigFree(s, k) && PageAt(s.base, k) + HEADER == p
  {
    FreedPages(s, PageOf(s.base, p));
  }

  lemma FilledApart<T>(s: seq<T>, at: nat, n: nat, x: T, i: nat, j: nat)
    requires at + n <= |s| && i <= j <= |s| && (at + n <= i || j <= at || n == 0)
    ensures Filled(s, at, n, x)[i..j] == s[i..j]
  {
  }

  lemma InFirstPage(base: nat, k: nat)
    requires base % PGSIZE == 0
    ensures PgOfs(PageAt(base, k) + HEADER) == HEADER
  {
  }

  /** The bytes of live block P when the pool's memory is MEM. */
  ghost function BytesIn(s: State, mem: Text, p: nat): (r: Text)
    requires Inv(s) && p in s.live && |mem| == PGSIZE * |s.owner|
    ensures |r| == s.live[p]
  {
    CapacitySpan(s, p);
    mem[p - s.base..p - s.base + s.live[p]]
  }

  /** N bytes copied within MEM from SRC to DST. */
  function Moved(mem: Text, dst: nat, src: nat, n: nat): (r: Text)
    requires dst + n <= |mem| && src + n <= |mem|
    ensures |r| == |mem|
    ensures forall k :: 0 <= k < |mem| ==> r[k] == if dst <= k < dst + n then mem[k - dst + src] else mem[k]
  {
    mem[..dst] + mem[src..src + n] + mem[dst + n..]
  }

  lemma MovedApart(mem: Text, dst: nat, src: nat, n: nat, i: nat, j: nat)
    requires dst + n <= |mem| && src + n <= |mem| && i <= j <= |mem| && (dst + n <= i || j <= dst)
    ensures Moved(mem, dst, src, n)[i..j] == mem[i..j]
  {
  }

  lemma MovedIn(mem: Text, dst: nat, src: nat, n: nat, m: nat)
    requires dst + n <= |mem| && src + n <= |mem| && m <= n
    ensures Moved(mem, dst, src, n)[dst..dst + m] == mem[src..src + m]
  {
  }

  /** Copying to block Q what fits of block P leaves the other blocks. */
  lemma MovedOthers(s: State, mem: Text, q: nat, p: nat, n: nat, r: nat)
    requires Inv(s) && |mem| == PGSIZE * |s.owner| && p in s.live && q in s.live && p != q
    requires n <= s.live[q] && n <= Capacity(s, p)
    requires r in s.live && r != q
    ensures s.base <= p && s.base <= q && q - s.base + n <= |mem| && p - s.base + n <= |mem|
    ensures BytesIn(s, Moved(mem, q - s.base, p - s.base, n), r) == BytesIn(s, mem, r)
  {
    hide Inv, Capacity, Moved;
    CapacitySpan(s, p);
    CapacitySpan(s, q);
    CapacitySpan(s, r);
    CapacityApart(s, q, r);
    MovedApart(mem, q - s.base, p - s.base, n, r - s.base, r - s.base + s.live[r]);
  }

  lemma MovedBytes(s: State, mem: Text, q: nat, p: nat, n: nat, m: nat)
    requires Inv(s) && |mem| == PGSIZE * |s.owner| && p in s.live && q in s.live
    requires n <= s.live[q] && n <= Capacity(s, p)
    requires m <= n && m <= s.live[p]
    ensures s.base <= p && s.base <= q && q - s.base + n <= |mem| && p - s.base + n <= |mem|
    ensures BytesIn(s, Moved(mem, q - s.base, p - s.base, n), q)[..m] == BytesIn(s, mem, p)[..m]
  {
    hide Inv, Capacity, Moved;
    CapacitySpan(s, p);
    CapacitySpan(s, q);
    MovedIn(mem, q - s.base, p - s.base, n, m);
    var mem' := Moved(mem, q - s.base, p - s.base, n);
    assert mem'[q - s.base..q - s.base + s.live[q]][..m] == mem'[q - s.base..q - s.base + m];
    assert mem[p - s.base..p - s.base + s.live[p]][..m] == mem[p - s.base..p - s.base + m];
  }

  /** Scribbling over block P leaves the other blocks. */
  lemma FilledOthers(s: State, mem: Text, p: nat, x: Byte, r: nat)
    requires Inv(s) && |mem| == PGSIZE * |s.owner| && p in s.live && r in s.live && r != p
    ensures s.base <= p && p - s.base + Capacity(s, p) <= |mem|
    ensures BytesIn(s, Filled(mem, p - s.base, Capacity(s, p), x), r) == BytesIn(s, mem, r)
  {
    hide Inv, Capacity, Filled;
    CapacitySpan(s, p);
    CapacitySpan(s, r);
    CapacityApart(s, p, r);
    FilledApart(mem, p - s.base, Capacity(s, p), x, r - s.base, r - s.base + s.live[r]);
  }

  /** Filling pages that nobody uses leaves every block. */
  lemma PagesFilledOthers(s: State, mem: Text, k: nat, n: nat, r: nat)
    requires Inv(s) && |mem| == PGSIZE * |s.owner| && r in s.live && k + n <= |s.owner|
    requires forall j :: k <= j < k + n ==> s.owner[j] == Nobody
    ensures PGSIZE * k + PGSIZE * n <= |mem|
    ensures BytesIn(s, Filled(mem, PGSIZE * k, PGSIZE * n, 0xcc), r) == BytesIn(s, mem, r)
  {
    hide Inv, Filled, PageOf;
    PageFits(|s.owner|, k, n);
    BlockSpan(s, r);
    CapacitySpan(s, r);
    var a: nat := PageOf(s.base, r);
    var b: nat := a + Pages(s.arenas[a]);
    assert a < b && s.owner[a] == HeapModel.Heap(a);
    assert !(k <= a < k + n);
    if a <= k < b {
      assert s.owner[k] == HeapModel.Heap(a);
      assert n == 0;
    }
    FilledApart(mem, PGSIZE * k, PGSIZE * n, 0xcc, r - s.base, r - s.base + s.live[r]);
  }

  lemma SmallFreedOthers(s: State, t: State, m: Text, m': Text, p: nat, k: nat, r: nat)
    requires Inv(s) && Inv(t) && |m| == PGSIZE * |s.owner| && |t.owner| == |s.owner| && t.base == s.base
    requires p in s.live && r in s.live && r in t.live && t.live[r] == s.live[r] && r != p
    requires k < |t.owner| && (k !in t.arenas ==> t.owner[k] == Nobody) && PGSIZE * k + PGSIZE <= |m|
    requires s.base <= p && p - s.base + Capacity(s, p) <= |m|
    requires m' == var m1 := Filled(m, p - s.base, Capacity(s, p), 0xcc);
                   if k in t.arenas then m1 else Filled(m1, PGSIZE * k, PGSIZE, 0xcc)
    ensures BytesIn(t, m', r) == BytesIn(s, m, r)
  {
    hide Inv, Capacity, Filled, BytesIn;
    var m1 := Filled(m, p - s.base, Capacity(s, p), 0xcc);
    FilledOthers(s, m, p, 0xcc, r);
    SameBytes(s, t, m1, r);
    if k !in t.arenas {
      PagesFilledOthers(t, m1, k, 1, r);
    }
  }

  lemma BigFreedOthers(s: State, t: State, m: Text, m': Text, k: nat, n: nat, r: nat)
    requires Inv(s) && Inv(t) && |m| == PGSIZE * |s.owner| && |t.owner| == |s.owner| && t.base == s.base
    requires r in s.live && r in t.live && t.live[r] == s.live[r] && k + n <= |t.owner|
    requires forall j :: k <= j < k + n ==> t.owner[j] == Nobody
    requires PGSIZE * k + PGSIZE * n <= |m| && m' == Filled(m, PGSIZE * k, PGSIZE * n, 0xcc)
    ensures BytesIn(t, m', r) == BytesIn(s, m, r)
  {
    hide Inv, Filled, BytesIn;
    SameBytes(s, t, m, r);
    PagesFilledOthers(t, m, k, n, r);
  }

  lemma PageFits(count: nat, k: nat, n: nat)
    requires k + n <= count
    ensures PGSIZE * k + PGSIZE * n <= PGSIZE * count
  {
  }

  /** The same block in the same place has the same bytes. */
  lemma SameBytes(s: State, t: State, mem: Text, r: nat)
    requires Inv(s) && Inv(t) && |mem| == PGSIZE * |s.owner| && |t.owner| == |s.owner| && t.base == s.base
    requires r in s.live && r in t.live && t.live[r] == s.live[r]
    ensures BytesIn(t, mem, r) == BytesIn(s, mem, r)
  {
    hide Inv;
  }

  class Heap {
    const pages: PageAllocator.PageAllocator
    const descs: seq<Desc>
    var arenas: map<nat, Arena>
    var free: seq<seq<nat>>
    ghost var owner: seq<Owner>
    ghost var live: map<nat, nat>

    ghost function Contents(): State
      reads this
    {
      State(pages.kernel.base, owner, arenas, free, live)
    }

    /** The pool's bitmap shows the pages that have an owner. */
    ghost predicate Mapped()
      reads this, pages.kernel.usedMap.bits
    {
      && pages.Valid() && pages.kernel.Contents() == Used(owner)
      && Described(descs, DESC_CNT) && |free| == DESC_CNT
    }

    /** The user pool is as it was with USED and MEM. */
    ghost predicate UserKept(used: seq<bool>, mem: Text)
      requires pages.Valid()
      reads pages.user.usedMap.bits, pages.user.mem
    {
      pages.user.Contents() == used && pages.user.mem[..] == mem
    }

    ghost predicate Valid()
      reads this, pages.kernel.usedMap.bits
    {
      Mapped() && Inv(Contents())
    }

    /** The bytes that the owner of live block P has in it. */
    ghost function Bytes(p: nat): (r: Text)
      requires Valid() && p in live
      reads this, pages.kernel.usedMap.bits, pages.kernel.mem
      ensures |r| == live[p]
    {
      BytesIn(Contents(), pages.kernel.mem[..], p)
    }

    /** Pages in use when the heap starts belong to others. */
    constructor (pages: PageAllocator.PageAllocator)
      requires pages.Valid()
      ensures Valid() && this.pages == pages && live == map[] && arenas == map[]
      ensures unchanged(pages.kernel.usedMap.bits)
    {
      this.pages := pages;
      var ds := MallocInit();
      descs := ds;
      arenas := map[];
      free := seq(DESC_CNT, _ => []);
      live := map[];
      var used := pages.kernel.Contents();
      owner := seq(|used|, i requires 0 <= i < |used| => if used[i] then Client else Nobody);
      new;
      assert Used(owner) == used;
    }

    /** N pages for an arena at the first of them, K. */
    method GetArena(n: nat) returns (ok: bool, k: nat)
      requires Mapped()
      modifies this`owner, pages.kernel.usedMap.bits, pages.user.usedMap.bits,
        pages.kernel.mem, pages.user.mem
      ensures Mapped() && UserKept(old(pages.user.Contents()), old(pages.user.mem[..]))
      ensures pages.kernel.mem[..] == old(pages.kernel.mem[..])
      ensures ok <==> n > 0 && GetPages(old(Contents()), n).Some?
      ensures ok ==> k == GetPages(old(Contents()), n).value && k + n <= |old(owner)|
      ensures owner == if ok then Filled(old(owner), k, n, HeapModel.Heap(k)) else old(owner)
    {
      hide IsRun, ElemCnt;
      ghost var run := GetPages(Contents(), n);
      var a, _ := pages.GetMultiple(false, false, false, n);
      if a == 0 {
        return false, 0;
      }
      k := (a - pages.kernel.base) / PGSIZE;
      assert k == run.value;
      UsedFilled(owner, k, n, HeapModel.Heap(k));
      owner := Filled(owner, k, n, HeapModel.Heap(k));
      ok := true;
    }

    /** Puts the blocks of the new arena in page K at the end of the free list. */
    method AddBlocks(k: nat, d: nat)
      requires Described(descs, DESC_CNT) && |free| == DESC_CNT && d < DESC_CNT
      modifies this`free
      ensures free == old(free)[d := old(free[d]) + BlockList(pages.kernel.base, k, d, PerArena(d))]
    {
      var base, i := pages.kernel.base, 0;
      ghost var l := free[d];
      while i < descs[d].blocksPerArena
        invariant 0 <= i <= PerArena(d)
        invariant |free| == DESC_CNT && forall e :: 0 <= e < DESC_CNT && e != d ==> free[e] == old(free[e])
        invariant free[d] == l + BlockList(base, k, d, i)
      {
        var b := base + PGSIZE * k + HEADER + i * descs[d].blockSize;
        ListGrows(base, k, d, i);
        free := free[d := free[d] + [b]];
        i := i + 1;
      }
    }

    /** The first block on the free list of D, handed out. */
    method TakeBlock(d: nat, ghost size: nat) returns (b: nat)
      requires d < DESC_CNT && Takeable(Contents(), d) && Core(Contents())
      modifies this`arenas, this`free, this`live
      ensures Contents() == Take(old(Contents()), d, size) && b == old(free[d][0]) && |free| == |old(free)|
    {
      HeadTakeable(Contents(), d);
      b := free[d][0];
      free := free[d := free[d][1..]];
      var k := PageIn(b);
      arenas := arenas[k := Small(arenas[k].desc, arenas[k].freeCnt - 1)];
      live := live[b := size];
    }

    /** block_to_arena, as a page of the pool. */
    function PageIn(b: nat): (k: nat)
      requires pages.kernel.base % PGSIZE == 0 && pages.kernel.base <= b
      ensures k == PageOf(pages.kernel.base, b)
    {
      (PgRoundDown(b) - pages.kernel.base) / PGSIZE
    }

    method AllocBig(size: nat) returns (p: nat)
      requires Mapped() && size > 0
      modifies this`arenas, this`owner, this`live, pages.kernel.usedMap.bits, pages.user.usedMap.bits,
        pages.kernel.mem, pages.user.mem
      ensures Mapped() && UserKept(old(pages.user.Contents()), old(pages.user.mem[..]))
      ensures pages.kernel.mem[..] == old(pages.kernel.mem[..])
      ensures (Contents(), p) == MallocBig(old(Contents()), size)
    {
      hide ElemCnt, Vacant;
      var n := (size + HEADER + PGSIZE - 1) % SIZES / PGSIZE;
      var ok, k := GetArena(n);
      if !ok {
        return 0;
      }
      arenas := arenas[k := Big(n)];
      p := pages.kernel.base + PGSIZE * k + HEADER;
      live := live[p := size];
    }

    /** A new arena for descriptor D, if there is a page for it. */
    method MakeArena(d: nat) returns (ok: bool)
      requires Mapped() && d < DESC_CNT
      modifies this`arenas, this`free, this`owner, pages.kernel.usedMap.bits, pages.user.usedMap.bits,
        pages.kernel.mem, pages.user.mem
      ensures Mapped() && UserKept(old(pages.user.Contents()), old(pages.user.mem[..]))
      ensures pages.kernel.mem[..] == old(pages.kernel.mem[..])
      ensures ok <==> GetPages(old(Contents()), 1).Some?
      ensures ok ==> GetPages(old(Contents()), 1).value < |old(owner)|
      ensures Contents() ==
        if ok then NewArena(old(Contents()), d, GetPages(old(Contents()), 1).value) else old(Contents())
    {
      hide ElemCnt, BlockList, GetPages;
      var k;
      ok, k := GetArena(1);
      if ok {
        FilledOne(old(owner), k, HeapModel.Heap(k));
        arenas := arenas[k := Small(d, descs[d].blocksPerArena)];
        AddBlocks(k, d);
      }
    }

    method AllocSmall(d: nat, size: nat) returns (p: nat)
      requires Valid() && d < DESC_CNT && 0 < size <= BlockSize(d)
      modifies this, pages.kernel.usedMap.bits, pages.user.usedMap.bits,
        pages.kernel.mem, pages.user.mem
      ensures Mapped() && UserKept(old(pages.user.Contents()), old(pages.user.mem[..]))
      ensures pages.kernel.mem[..] == old(pages.kernel.mem[..])
      ensures (Contents(), p) == MallocSmall(old(Contents()), d, size)
    {
      hide ElemCnt, ArenaOk, ListOk, LiveOk, PagesOk, NewArena, Take;
      ghost var s := Contents();
      if free[d] == [] {
        var ok := MakeArena(d);
        if !ok {
          return 0;
        }
        NewArenaCore(s, d, GetPages(s, 1).value);
        NewArenaTakeable(s, d, GetPages(s, 1).value);
      } else {
        HeadTakeable(s, d);
      }
      p := TakeBlock(d, size);
    }

    /** malloc */
    method Malloc(size: nat) returns (p: nat)
      requires Valid() && Servable(size)
      modifies this, pages.kernel.usedMap.bits, pages.user.usedMap.bits,
        pages.kernel.mem, pages.user.mem
      ensures Valid() && UserKept(old(pages.user.Contents()), old(pages.user.mem[..]))
      ensures pages.kernel.mem[..] == old(pages.kernel.mem[..])
      ensures (Contents(), p) == HeapModel.Malloc(old(Contents()), size)
      ensures p == 0 <==> size == 0 || OutOfMemory(old(Contents()), size)
    {
      hide MallocBig, MallocSmall, Core, OutOfMemory;
      if size > 0 {
        MallocFails(Contents(), size);
      }
      MallocInv(Contents(), size);
      if size == 0 {
        return 0;
      }
      var d := FindDesc(size);
      if d == |descs| {
        p := AllocBig(size);
      } else {
        p := AllocSmall(d, size);
      }
    }

    /** The smallest descriptor for SIZE bytes, or DESC_CNT. */
    method FindDesc(size: nat) returns (d: nat)
      requires Described(descs, DESC_CNT)
      ensures d == match Fit(0, size) case None => DESC_CNT case Some(e) => e
    {
      d := 0;
      while d < |descs| && descs[d].blockSize < size
        invariant d <= DESC_CNT && Fit(0, size) == Fit(d, size)
      {
        d := d + 1;
      }
    }

    /** Takes the blocks of the wholly free arena in page K off the free list. */
    method RemoveBlocks(k: nat, d: nat)
      requires Described(descs, DESC_CNT) && |free| == DESC_CNT && d < DESC_CNT
      modifies this`free
      ensures free == old(free)[d := Sift(old(free[d]), BlockList(pages.kernel.base, k, d, PerArena(d)))]
    {
      var base, i := pages.kernel.base, 0;
      ghost var l := free[d];
      assert BlockList(base, k, d, 0) == [];
      SiftNone(l);
      while i < descs[d].blocksPerArena
        invariant 0 <= i <= PerArena(d)
        invariant |free| == DESC_CNT && forall e :: 0 <= e < DESC_CNT && e != d ==> free[e] == old(free[e])
        invariant free[d] == Sift(l, BlockList(base, k, d, i))
      {
        var b := base + PGSIZE * k + HEADER + i * descs[d].blockSize;
        ListGrows(base, k, d, i);
        SiftAlso(l, BlockList(base, k, d, i), b);
        free := free[d := Sift(free[d], [b])];
        i := i + 1;
      }
    }

    /** palloc_free_multiple of the arena at page K. */
    method ReturnPages(k: nat, n: nat)
      requires Mapped() && n > 0 && k + n <= |owner| && forall j :: k <= j < k + n ==> owner[j] == HeapModel.Heap(k)
      modifies this`owner, pages.kernel.usedMap.bits, pages.user.usedMap.bits,
        pages.kernel.mem, pages.user.mem
      ensures Mapped() && UserKept(old(pages.user.Contents()), old(pages.user.mem[..]))
      ensures PGSIZE * k + PGSIZE * n <= pages.kernel.mem.Length
      ensures pages.kernel.mem[..] == Filled(old(pages.kernel.mem[..]), PGSIZE * k, PGSIZE * n, 0xcc)
      ensures owner == Filled(old(owner), k, n, Nobody)
    {
      hide ElemCnt;
      var a := pages.kernel.base + PGSIZE * k;
      assert PgNo(a) - PgNo(pages.kernel.base) == k;
      assert IsRun(Used(owner), k, n, true);
      pages.FreeMultiple(a, n);
      UsedFilled(owner, k, n, Nobody);
      owner := Filled(owner, k, n, Nobody);
    }

    /** memcpy, between blocks that do not overlap */
    method Memcpy(q: nat, p: nat, n: nat)
      requires pages.kernel.base <= p && p - pages.kernel.base + n <= pages.kernel.mem.Length
      requires pages.kernel.base <= q && q - pages.kernel.base + n <= pages.kernel.mem.Length
      requires p + n <= q || q + n <= p
      modifies pages.kernel.mem
      ensures pages.kernel.mem[..] ==
        Moved(old(pages.kernel.mem[..]), q - pages.kernel.base, p - pages.kernel.base, n)
    {
      var mem, dst, src, i := pages.kernel.mem, q - pages.kernel.base, p - pages.kernel.base, 0;
      while i < n
        invariant 0 <= i <= n
        invariant forall k :: 0 <= k < mem.Length ==>
          mem[k] == if dst <= k < dst + i then old(pages.kernel.mem[k - dst + src]) else old(pages.kernel.mem[k])
      {
        mem[dst + i] := mem[src + i];
        i := i + 1;
      }
    }

    /** block_size */
    method BlockSizeOf(p: nat) returns (n: nat)
      requires Valid() && p in live
      ensures n == Capacity(Contents(), p)
    {
      hide ArenaOk, ListOk, PagesOk, PageOf, IsBlock;
      assert LiveOk(Contents(), p);
      var k := PageIn(p);
      if arenas[k].Small? {
        n := descs[arenas[k].desc].blockSize;
      } else {
        InFirstPage(pages.kernel.base, k);
        n := PGSIZE * arenas[k].pages - PgOfs(p);
      }
    }

    /** Scribbles over block P and puts it back; if its arena is now wholly free, that goes
        back too. */
    method FreeSmall(p: nat, k: nat)
      requires Valid() && p in live && LiveOk(Contents(), p)
      requires k == PageOf(pages.kernel.base, p) && arenas[k].Small?
      modifies this, pages.kernel.usedMap.bits, pages.user.usedMap.bits,
        pages.kernel.mem, pages.user.mem
      ensures Mapped() && UserKept(old(pages.user.Contents()), old(pages.user.mem[..]))
      ensures Contents() == HeapModel.Free(old(Contents()), p)
      ensures k < |owner| && (k !in arenas ==> owner[k] == Nobody)
      ensures p - pages.kernel.base + Capacity(old(Contents()), p) <= pages.kernel.mem.Length
      ensures PGSIZE * k + PGSIZE <= pages.kernel.mem.Length
      ensures var m := Filled(old(pages.kernel.mem[..]), p - pages.kernel.base, Capacity(old(Contents()), p), 0xcc);
        pages.kernel.mem[..] == if k in arenas then m else Filled(m, PGSIZE * k, PGSIZE, 0xcc)
    {
      hide ElemCnt, ArenaOk, ListOk, PagesOk, PageOf, Sift, BlockList;
      ghost var s := Contents();
      FreedPages(s, k);
      CapacitySpan(s, p);
      var d := arenas[k].desc;
      PageFits(|owner|, k, 1);
      pages.kernel.Memset(p - pages.kernel.base, 0xcc, descs[d].blockSize);
      free := free[d := [p] + free[d]];
      arenas := arenas[k := Small(d, arenas[k].freeCnt + 1)];
      live := live - {p};
      assert Contents() == Put(s, p, k);
      if arenas[k].freeCnt >= descs[d].blocksPerArena {
        RemoveBlocks(k, d);
        ReturnPages(k, 1);
        FilledOne(s.owner, k, Nobody);
        arenas := arenas - {k};
      }
    }

    /** free; the blocks still in use keep their bytes. */
    method Free(p: nat)
      requires Valid() && (p == 0 || p in live)
      modifies this, pages.kernel.usedMap.bits, pages.user.usedMap.bits,
        pages.kernel.mem, pages.user.mem
      ensures Valid() && UserKept(old(pages.user.Contents()), old(pages.user.mem[..]))
      ensures Contents() == HeapModel.Free(old(Contents()), p)
      ensures forall r :: r in live ==> r in old(live) && Bytes(r) == old(Bytes(r))
    {
      hide ArenaOk, ListOk, PagesOk, PageOf, Inv, HeapModel.Free, BytesIn, Capacity, Filled;
      ghost var s, m := Contents(), pages.kernel.mem[..];
      FreeInv(s, p);
      if p == 0 {
        FreeNull(s);
        return;
      }
      LiveIs(s, p);
      var k := PageIn(p);
      FreedPages(s, k);
      if arenas[k].Small? {
        FreeSmall(p, k);
        forall r | r in live ensures Bytes(r) == BytesIn(s, m, r) {
          SmallFreedOthers(s, Contents(), m, pages.kernel.mem[..], p, k, r);
        }
      } else {
        var n := arenas[k].pages;
        FreeIsBig(s, p);
        ReturnPages(k, n);
        arenas := arenas - {k};
        live := live - {p};
        forall r | r in live ensures Bytes(r) == BytesIn(s, m, r) {
          BigFreedOthers(s, Contents(), m, pages.kernel.mem[..], k, n, r);
        }
      }
    }

    /** Copies what fits of block P to block Q. */
    method CopyBlock(q: nat, p: nat, size: nat)
      requires Valid() && p in live && q in live && p != q && live[q] == size
      modifies pages.kernel.mem
      ensures Valid() && forall r :: r in live && r != q ==> Bytes(r) == old(Bytes(r))
      ensures var m := if size < live[p] then size else live[p]; Bytes(q)[..m] == old(Bytes(p))[..m]
    {
      hide Inv, Moved, BytesIn, Capacity;
      ghost var s, was := Contents(), pages.kernel.mem[..];
      var n := BlockSizeOf(p);
      CapacitySpan(s, p);
      n := if size < n then size else n;
      MovedBytes(s, was, q, p, n, if size < live[p] then size else live[p]);
      CapacityApart(s, p, q);
      Memcpy(q, p, n);
      forall r | r in live && r != q ensures Bytes(r) == BytesIn(s, was, r) {
        MovedOthers(s, was, q, p, n, r);
      }
    }

    /** realloc; the new block starts with the old one's bytes, as far as both go, and the
        others keep theirs. */
    method Realloc(p: nat, size: nat) returns (q: nat)
      requires Valid() && (p == 0 || p in live) && Servable(size)
      modifies this, pages.kernel.usedMap.bits, pages.user.usedMap.bits,
        pages.kernel.mem, pages.user.mem
      ensures Valid() && UserKept(old(pages.user.Contents()), old(pages.user.mem[..]))
      ensures (Contents(), q) == HeapModel.Realloc(old(Contents()), p, size)
      ensures q == 0 <==> size == 0 || OutOfMemory(old(Contents()), size)
      ensures forall r :: r in live && r != q ==> r in old(live) && Bytes(r) == old(Bytes(r))
      ensures p != 0 && q != 0 ==> q in live && live[q] == size
      ensures p != 0 && q != 0 ==>
        var m := if size < old(live[p]) then size else old(live[p]); Bytes(q)[..m] == old(Bytes(p))[..m]
    {
      hide Inv, BytesIn, HeapModel.Malloc, HeapModel.Free, OutOfMemory;
      if size == 0 {
        Free(p);
        return 0;
      }
      ghost var s := Contents();
      MallocInv(s, size);
      q := Malloc(size);
      forall r | r in s.live ensures r in live && Bytes(r) == old(Bytes(r)) {
        SameBytes(s, Contents(), pages.kernel.mem[..], r);
      }
      if p != 0 && q != 0 {
        ghost var t := Contents();
        CopyBlock(q, p, size);
        label copied:
        FreeInv(t, p);
        Free(p);
        assert Bytes(q) == old@copied(Bytes(q));
      }
    }
  }
}
