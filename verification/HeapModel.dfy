/** The block allocator of threads/malloc.c on values.

    The kernel pool is a row of pages at BASE.  A page is nobody's, in use by a client
    of the page allocator, or part of an arena; an arena is named by its first page.
    Blocks are named by their addresses. */
module HeapModel {
  import opened Sequences
  import opened VirtualAddress
  import opened Bitmap

  /** sizeof (struct arena) */
  const HEADER: nat := 12

  const DESC_CNT: nat := 7

  /** What malloc_init leaves in each descriptor. */
  function BlockSize(d: nat): (r: nat)
    requires d < DESC_CNT
    ensures 16 <= r <= 1024
  {
    if d == 0 then 16 else if d == 1 then 32 else if d == 2 then 64 else if d == 3 then 128
    else if d == 4 then 256 else if d == 5 then 512 else 1024
  }

  function PerArena(d: nat): (r: nat)
    requires d < DESC_CNT
    ensures r >= 3 && HEADER + r * BlockSize(d) <= PGSIZE < HEADER + (r + 1) * BlockSize(d)
  {
    if d == 0 then 255 else if d == 1 then 127 else if d == 2 then 63 else if d == 3 then 31
    else if d == 4 then 15 else if d == 5 then 7 else 3
  }

  /** The smallest descriptor from D on whose blocks hold SIZE bytes. */
  function Fit(d: nat, size: nat): (r: Option<nat>)
    requires d <= DESC_CNT
    ensures r.Some? ==> d <= r.value < DESC_CNT && size <= BlockSize(r.value)
    ensures r.Some? ==> forall e :: d <= e < r.value ==> BlockSize(e) < size
    ensures r.None? ==> forall e :: d <= e < DESC_CNT ==> BlockSize(e) < size
    decreases DESC_CNT - d
  {
    if d == DESC_CNT then None
    else if size <= BlockSize(d) then Some(d)
    else Fit(d + 1, size)
  }

  /** The pages a big block of SIZE bytes and its header take. */
  function PagesFor(size: nat): (n: nat)
    ensures PGSIZE * (n - 1) < size + HEADER <= PGSIZE * n
  {
    (size + HEADER + PGSIZE - 1) / PGSIZE
  }

  /** One more than the greatest size_t. */
  const SIZES: nat := 0x1_0000_0000

  /** The same count in 32-bit arithmetic. */
  function PagesFor32(size: nat): nat {
    (size + HEADER + PGSIZE - 1) % SIZES / PGSIZE
  }

  /** It is enough for the block and its header exactly if the sum does not wrap; if it does,
      the count is 0, or 1 exactly if SIZE and the header alone exceed 32 bits. */
  lemma PagesSufficeIff(size: nat)
    requires size < SIZES
    ensures size + HEADER <= PGSIZE * PagesFor32(size) <==> size + HEADER + PGSIZE - 1 < SIZES
    ensures PagesFor32(size) ==
      if size + HEADER + PGSIZE - 1 < SIZES then PagesFor(size) else if size + HEADER <= SIZES then 0 else 1
  {
    var sum := size + HEADER + PGSIZE - 1;
    if sum >= SIZES {
      assert sum % SIZES == sum - SIZES < 2 * PGSIZE;
      assert PagesFor32(size) < 2;
    }
  }

  /** The sizes for which malloc hands out a block that is large enough, or none. */
  predicate Servable(size: nat) {
    size + HEADER <= SIZES
  }

  function PageAt(base: nat, k: nat): nat {
    base + PGSIZE * k
  }

  /** The page an address lies in. */
  function PageOf(base: nat, p: nat): nat
    requires base <= p
  {
    (p - base) / PGSIZE
  }

  /** arena_to_block */
  function BlockAt(base: nat, k: nat, d: nat, i: nat): nat
    requires d < DESC_CNT
  {
    PageAt(base, k) + HEADER + i * BlockSize(d)
  }

  /** The blocks of an arena, in order. */
  function BlockList(base: nat, k: nat, d: nat, n: nat): (r: seq<nat>)
    requires d < DESC_CNT && n <= PerArena(d)
  {
    seq(n, i requires 0 <= i => BlockAt(base, k, d, i))
  }

  predicate IsBlock(base: nat, k: nat, d: nat, p: nat) {
    d < DESC_CNT && p in BlockList(base, k, d, PerArena(d))
  }

  /** A block lies in its arena's page, after the header. */
  lemma BlockInPage(base: nat, k: nat, d: nat, i: nat)
    requires d < DESC_CNT && i < PerArena(d)
    ensures PageAt(base, k) + HEADER <= BlockAt(base, k, d, i)
    ensures BlockAt(base, k, d, i) + BlockSize(d) <= PageAt(base, k) + PGSIZE
    ensures PageOf(base, BlockAt(base, k, d, i)) == k
  {
    assert (i + 1) * BlockSize(d) <= PerArena(d) * BlockSize(d) by {
      Monotone(i + 1, PerArena(d), BlockSize(d));
    }
    assert (i + 1) * BlockSize(d) == i * BlockSize(d) + BlockSize(d);
  }

  lemma Monotone(a: nat, b: nat, c: nat)
    requires a <= b
    ensures a * c <= b * c
  {
  }

  /** Two blocks of an arena do not overlap. */
  lemma BlocksApart(base: nat, k: nat, d: nat, i: nat, j: nat)
    requires d < DESC_CNT && i < j
    ensures BlockAt(base, k, d, i) + BlockSize(d) <= BlockAt(base, k, d, j)
  {
    Monotone(i + 1, j, BlockSize(d));
    assert (i + 1) * BlockSize(d) == i * BlockSize(d) + BlockSize(d);
  }

  lemma BlocksDistinct(base: nat, k: nat, d: nat, n: nat)
    requires d < DESC_CNT && n <= PerArena(d)
    ensures Distinct(BlockList(base, k, d, n))
  {
    var r := BlockList(base, k, d, n);
    forall i, j | 0 <= i < j < |r| ensures r[i] != r[j] {
      BlocksApart(base, k, d, i, j);
    }
  }

  lemma BlockFacts(base: nat, k: nat, d: nat, p: nat)
    requires IsBlock(base, k, d, p)
    ensures base <= p && PageOf(base, p) == k
    ensures PageAt(base, k) + HEADER <= p && p + BlockSize(d) <= PageAt(base, k) + PGSIZE
  {
    var i :| 0 <= i < PerArena(d) && BlockList(base, k, d, PerArena(d))[i] == p;
    BlockInPage(base, k, d, i);
  }

  /** free_cnt of a small arena, or the page count of a big block. */
  datatype Arena = Small(desc: nat, freeCnt: nat) | Big(pages: nat)

  function Pages(a: Arena): nat {
    if a.Small? then 1 else a.pages
  }

  datatype Owner = Nobody | Client | Heap(arena: nat)

  /** LIVE maps each block handed out to the size asked for. */
  datatype State = State(base: nat, owner: seq<Owner>, arenas: map<nat, Arena>,
                         free: seq<seq<nat>>, live: map<nat, nat>)

  /** The pool's bitmap. */
  function Used(owner: seq<Owner>): seq<bool> {
    seq(|owner|, i requires 0 <= i < |owner| => owner[i] != Nobody)
  }

  /** Nobody uses the N pages from K on. */
  ghost predicate Vacant(s: State, k: nat, n: nat) {
    k + n <= |s.owner| && forall j :: k <= j < k + n ==> s.owner[j] == Nobody
  }

  lemma VacantIsRun(s: State, k: nat, n: nat)
    ensures Vacant(s, k, n) <==> IsRun(Used(s.owner), k, n, false)
  {
    var u := Used(s.owner);
    assert forall j :: 0 <= j < |u| ==> (u[j] == false <==> s.owner[j] == Nobody);
  }

  /** The first N pages nobody uses. */
  function GetPages(s: State, n: nat): (r: Option<nat>)
    ensures r.Some? ==> Vacant(s, r.value, n)
    ensures r.None? ==> forall k: nat :: !Vacant(s, k, n)
  {
    VacantRuns(s, n);
    FirstRun(Used(s.owner), 0, n, false)
  }

  lemma VacantRuns(s: State, n: nat)
    ensures forall k: nat :: Vacant(s, k, n) <==> IsRun(Used(s.owner), k, n, false)
  {
    forall k: nat {
      VacantIsRun(s, k, n);
    }
  }

  /** The free blocks of arena K, which belongs to descriptor D. */
  ghost function FreeOf(s: State, k: nat, d: nat): set<nat>
    requires d < |s.free|
  {
    set p | p in s.free[d] && IsBlock(s.base, k, d, p)
  }

  ghost predicate ArenaOk(s: State, k: nat)
    requires |s.free| == DESC_CNT && k in s.arenas
  {
    var a := s.arenas[k];
    && Pages(a) >= 1 && k + Pages(a) <= |s.owner|
    && (a.Small? ==>
          && a.desc < DESC_CNT && a.freeCnt == |FreeOf(s, k, a.desc)|
          && forall p :: IsBlock(s.base, k, a.desc, p) ==> p in s.free[a.desc] || p in s.live)
    && (a.Big? ==> PageAt(s.base, k) + HEADER in s.live)
  }

  /** A page belongs to the arena that covers it. */
  ghost predicate PagesOk(s: State) {
    forall j: nat, k: nat :: j < |s.owner| ==>
      (s.owner[j] == Heap(k) <==> k in s.arenas && k <= j < k + Pages(s.arenas[k]))
  }

  ghost predicate ListOk(s: State, d: nat)
    requires d < |s.free|
  {
    Distinct(s.free[d]) && forall p :: p in s.free[d] ==> Blocked(s, d, p)
  }

  /** P is a block of a small arena of descriptor D. */
  ghost predicate Blocked(s: State, d: nat, p: nat) {
    && s.base <= p && PageOf(s.base, p) in s.arenas
    && s.arenas[PageOf(s.base, p)].Small? && s.arenas[PageOf(s.base, p)].desc == d
    && IsBlock(s.base, PageOf(s.base, p), d, p)
  }

  ghost predicate LiveOk(s: State, p: nat)
    requires p in s.live && |s.free| == DESC_CNT
  {
    && s.base <= p && PageOf(s.base, p) in s.arenas && s.live[p] > 0
    && var k := PageOf(s.base, p);
       match s.arenas[k]
       case Small(d, _) => d < DESC_CNT && IsBlock(s.base, k, d, p) && p !in s.free[d] && s.live[p] <= BlockSize(d)
       case Big(n) => p == PageAt(s.base, k) + HEADER && HEADER + s.live[p] <= PGSIZE * n
  }

  ghost predicate Core(s: State) {
    && s.base > 0 && s.base % PGSIZE == 0 && |s.free| == DESC_CNT
    && PagesOk(s)
    && (forall k :: k in s.arenas ==> ArenaOk(s, k))
    && (forall d :: 0 <= d < DESC_CNT ==> ListOk(s, d))
    && (forall p :: p in s.live ==> LiveOk(s, p))
  }

  /** What holds between calls: in addition, no arena is wholly free. */
  ghost predicate Inv(s: State) {
    && Core(s)
    && forall k :: k in s.arenas && s.arenas[k].Small? ==> s.arenas[k].freeCnt < PerArena(s.arenas[k].desc)
  }

  /** A page taken for descriptor D, with all its blocks at the end of the free list. */
  function NewArena(s: State, d: nat, k: nat): State
    requires d < DESC_CNT == |s.free| && k < |s.owner|
  {
    s.(owner := s.owner[k := Heap(k)],
       arenas := s.arenas[k := Small(d, PerArena(d))],
       free := s.free[d := s.free[d] + BlockList(s.base, k, d, PerArena(d))])
  }

  predicate Takeable(s: State, d: nat) {
    && d < |s.free| && s.free[d] != [] && s.base <= s.free[d][0]
    && PageOf(s.base, s.free[d][0]) in s.arenas
    && s.arenas[PageOf(s.base, s.free[d][0])].Small? && s.arenas[PageOf(s.base, s.free[d][0])].freeCnt > 0
  }

  /** The first free block of descriptor D handed out. */
  function Take(s: State, d: nat, size: nat): State
    requires Takeable(s, d)
  {
    var b := s.free[d][0];
    var k := PageOf(s.base, b);
    s.(arenas := s.arenas[k := Small(s.arenas[k].desc, s.arenas[k].freeCnt - 1)],
       free := s.free[d := s.free[d][1..]],
       live := s.live[b := size])
  }

  function BigAlloc(s: State, k: nat, n: nat, size: nat): State
    requires k + n <= |s.owner|
  {
    s.(owner := Filled(s.owner, k, n, Heap(k)),
       arenas := s.arenas[k := Big(n)],
       live := s.live[PageAt(s.base, k) + HEADER := size])
  }

  /** P back at the front of the free list of descriptor D. */
  function Put(s: State, p: nat, k: nat): State
    requires k in s.arenas && s.arenas[k].Small? && s.arenas[k].desc < |s.free|
  {
    var d := s.arenas[k].desc;
    s.(arenas := s.arenas[k := Small(d, s.arenas[k].freeCnt + 1)],
       free := s.free[d := [p] + s.free[d]],
       live := s.live - {p})
  }

  /** L without the blocks in BLOCKS. */
  function Sift(l: seq<nat>, blocks: seq<nat>): (r: seq<nat>)
    ensures forall p :: p in r <==> p in l && p !in blocks
  {
    if l == [] then []
    else if l[0] in blocks then Sift(l[1..], blocks)
    else [l[0]] + Sift(l[1..], blocks)
  }

  /** Arena K, wholly free, given back. */
  function Reclaim(s: State, k: nat): State
    requires k < |s.owner| && k in s.arenas && s.arenas[k].Small? && s.arenas[k].desc < DESC_CNT == |s.free|
  {
    var d := s.arenas[k].desc;
    s.(owner := s.owner[k := Nobody],
       arenas := s.arenas - {k},
       free := s.free[d := Sift(s.free[d], BlockList(s.base, k, d, PerArena(d)))])
  }

  function BigFree(s: State, k: nat): State
    requires k in s.arenas && s.arenas[k].Big? && k + s.arenas[k].pages <= |s.owner|
  {
    s.(owner := Filled(s.owner, k, s.arenas[k].pages, Nobody),
       arenas := s.arenas - {k},
       live := s.live - {PageAt(s.base, k) + HEADER})
  }

  /** malloc for a size no descriptor serves. */
  function MallocBig(s: State, size: nat): (State, nat) {
    var n := PagesFor32(size);
    if n == 0 then (s, 0) else
    match GetPages(s, n)
    case None => (s, 0)
    case Some(k) => (BigAlloc(s, k, n, size), PageAt(s.base, k) + HEADER)
  }

  /** malloc from descriptor D. */
  function MallocSmall(s: State, d: nat, size: nat): (State, nat)
    requires Core(s) && d < DESC_CNT
  {
    if s.free[d] != [] then
      HeadTakeable(s, d);
      (Take(s, d, size), s.free[d][0])
    else
      match GetPages(s, 1)
      case None => (s, 0)
      case Some(k) =>
        NewArenaTakeable(s, d, k);
        (Take(NewArena(s, d, k), d, size), NewArena(s, d, k).free[d][0])
  }

  /** malloc: the new state and the block, 0 for a null pointer. */
  function Malloc(s: State, size: nat): (State, nat)
    requires Inv(s)
  {
    if size == 0 then (s, 0) else
    match Fit(0, size)
    case None => MallocBig(s, size)
    case Some(d) => MallocSmall(s, d, size)
  }

  /** free, of a null pointer or of a block handed out. */
  function Free(s: State, p: nat): State
    requires Inv(s) && (p == 0 || p in s.live)
  {
    if p == 0 then s else
    assert LiveOk(s, p);
    var k := PageOf(s.base, p);
    assert ArenaOk(s, k);
    if s.arenas[k].Big? then BigFree(s, k) else
    var t := Put(s, p, k);
    if t.arenas[k].freeCnt >= PerArena(t.arenas[k].desc) then Reclaim(t, k) else t
  }

  /* The lists and their counts. */

  lemma {:induction false} SiftDistinct(l: seq<nat>, blocks: seq<nat>)
    requires Distinct(l)
    ensures Distinct(Sift(l, blocks))
  {
    if l != [] {
      SiftDistinct(l[1..], blocks);
      assert l[0] !in l[1..];
    }
  }

  lemma {:induction false} SubsetCount(a: set<nat>, b: set<nat>)
    requires a <= b
    ensures |a| <= |b| && (|a| == |b| ==> a == b)
  {
    if a != {} {
      var x :| x in a;
      SubsetCount(a - {x}, b - {x});
      assert a == (a - {x}) + {x} && b == (b - {x}) + {x};
    }
  }

  /** An arena never has more free blocks than blocks; with as many, all are free. */
  lemma FreeBound(s: State, k: nat, d: nat)
    requires d < DESC_CNT == |s.free|
    ensures |FreeOf(s, k, d)| <= PerArena(d)
    ensures |FreeOf(s, k, d)| == PerArena(d) <==> forall p :: IsBlock(s.base, k, d, p) ==> p in s.free[d]
  {
    var l := BlockList(s.base, k, d, PerArena(d));
    BlocksDistinct(s.base, k, d, PerArena(d));
    DistinctCount(l);
    var all := Elements(l);
    SubsetCount(FreeOf(s, k, d), all);
    if forall p :: IsBlock(s.base, k, d, p) ==> p in s.free[d] {
      assert FreeOf(s, k, d) == all;
    }
    if |FreeOf(s, k, d)| == PerArena(d) {
      forall p | IsBlock(s.base, k, d, p) ensures p in s.free[d] {
        assert p in all;
      }
    }
  }

  lemma FreeOfSame(s: State, t: State, k: nat, d: nat)
    requires d < |s.free| == |t.free| && s.base == t.base
    requires forall p :: IsBlock(s.base, k, d, p) ==> (p in s.free[d] <==> p in t.free[d])
    ensures FreeOf(s, k, d) == FreeOf(t, k, d)
  {
  }

  /** An arena whose blocks stay where they are is still in order. */
  lemma ArenaKept(s: State, t: State, j: nat)
    requires |s.free| == |t.free| == DESC_CNT && j in s.arenas && ArenaOk(s, j)
    requires j in t.arenas && t.arenas[j] == s.arenas[j] && t.base == s.base && |t.owner| == |s.owner|
    requires s.arenas[j].Small? ==> forall p :: IsBlock(s.base, j, s.arenas[j].desc, p) ==>
      (p in s.free[s.arenas[j].desc] <==> p in t.free[s.arenas[j].desc]) && (p in s.live ==> p in t.live)
    requires s.arenas[j].Big? ==> PageAt(s.base, j) + HEADER in t.live
    ensures ArenaOk(t, j)
  {
    hide IsBlock;
    if s.arenas[j].Small? {
      FreeOfSame(s, t, j, s.arenas[j].desc);
    }
  }

  /* Handing out a block. */

  lemma HeadTakeable(s: State, d: nat)
    requires Core(s) && d < DESC_CNT && s.free[d] != []
    ensures Takeable(s, d) && Blocked(s, d, s.free[d][0]) && s.free[d][0] !in s.live
  {
    var b := s.free[d][0];
    assert ListOk(s, d) && b in s.free[d];
    assert Blocked(s, d, b);
    var k := PageOf(s.base, b);
    assert ArenaOk(s, k);
    assert b in FreeOf(s, k, d);
    assert b in s.live ==> LiveOk(s, b);
  }

  lemma TakeLists(s: State, d: nat, size: nat, e: nat)
    requires Core(s) && d < DESC_CNT && s.free[d] != [] && Takeable(s, d) && e < DESC_CNT
    ensures ListOk(Take(s, d, size), e)
    ensures forall p :: p in Take(s, d, size).free[e] <==> p in s.free[e] && (e == d ==> p != s.free[d][0])
  {
    var t := Take(s, d, size);
    assert ListOk(s, e) && ListOk(s, d);
    forall p | p in t.free[e] ensures Blocked(t, e, p) {
      assert p in s.free[e];
      assert Blocked(s, e, p);
    }
  }

  lemma TakeOwnArena(s: State, d: nat, size: nat, j: nat)
    requires Core(s) && d < DESC_CNT && s.free[d] != [] && Takeable(s, d) && Blocked(s, d, s.free[d][0])
    requires j == PageOf(s.base, s.free[d][0])
    ensures ArenaOk(Take(s, d, size), j)
  {
    var t, b := Take(s, d, size), s.free[d][0];
    assert ArenaOk(s, j);
    TakeLists(s, d, size, d);
    assert FreeOf(t, j, d) == FreeOf(s, j, d) - {b};
  }

  lemma TakeOtherArena(s: State, d: nat, size: nat, j: nat)
    requires |s.free| == DESC_CNT && d < DESC_CNT && Takeable(s, d)
    requires j in s.arenas && ArenaOk(s, j) && j != PageOf(s.base, s.free[d][0])
    ensures ArenaOk(Take(s, d, size), j)
  {
    hide IsBlock, PageOf;
    var t := Take(s, d, size);
    if s.arenas[j].Small? {
      var e := s.arenas[j].desc;
      forall p | IsBlock(s.base, j, e, p) ensures p in s.free[e] <==> p in t.free[e] {
        BlockFacts(s.base, j, e, p);
      }
    }
    ArenaKept(s, t, j);
  }

  lemma TakeLive(s: State, d: nat, size: nat, p: nat)
    requires Core(s) && d < DESC_CNT && s.free[d] != [] && Takeable(s, d) && Blocked(s, d, s.free[d][0])
    requires 0 < size <= BlockSize(d) && p in Take(s, d, size).live
    ensures LiveOk(Take(s, d, size), p)
  {
    var t, b := Take(s, d, size), s.free[d][0];
    TakeLists(s, d, size, d);
    if p != b {
      assert LiveOk(s, p);
      var e := s.arenas[PageOf(s.base, p)];
      if e.Small? {
        TakeLists(s, d, size, e.desc);
      }
    }
  }

  lemma TakeCore(s: State, d: nat, size: nat)
    requires Core(s) && d < DESC_CNT && s.free[d] != [] && 0 < size <= BlockSize(d)
    ensures Takeable(s, d) && Core(Take(s, d, size))
  {
    HeadTakeable(s, d);
    var t := Take(s, d, size);
    forall j | j in t.arenas ensures ArenaOk(t, j) {
      if j == PageOf(s.base, s.free[d][0]) {
        TakeOwnArena(s, d, size, j);
      } else {
        TakeOtherArena(s, d, size, j);
      }
    }
    forall e | 0 <= e < DESC_CNT ensures ListOk(t, e) {
      TakeLists(s, d, size, e);
    }
    forall p | p in t.live ensures LiveOk(t, p) {
      TakeLive(s, d, size, p);
    }
  }

  /* Making an arena. */

  /** No block lies in a page that is not an arena's. */
  lemma NoBlocks(s: State, k: nat, d: nat, e: nat, p: nat)
    requires Core(s) && k !in s.arenas && d < DESC_CNT && e < DESC_CNT && IsBlock(s.base, k, d, p)
    ensures p !in s.free[e] && p !in s.live
  {
    BlockFacts(s.base, k, d, p);
    assert ListOk(s, e);
    assert p in s.free[e] ==> Blocked(s, e, p);
    assert p in s.live ==> LiveOk(s, p);
  }

  lemma NewArenaLists(s: State, d: nat, k: nat, e: nat)
    requires Core(s) && d < DESC_CNT && k < |s.owner| && k !in s.arenas && e < DESC_CNT
    ensures ListOk(NewArena(s, d, k), e)
  {
    var t := NewArena(s, d, k);
    assert ListOk(s, e);
    if e == d {
      var l := BlockList(s.base, k, d, PerArena(d));
      BlocksDistinct(s.base, k, d, PerArena(d));
      forall i | 0 <= i < |l| ensures l[i] !in s.free[d] && Blocked(t, d, l[i]) {
        assert IsBlock(s.base, k, d, l[i]);
        NoBlocks(s, k, d, d, l[i]);
        BlockFacts(s.base, k, d, l[i]);
      }
    }
    forall p | p in s.free[e] ensures Blocked(t, e, p) {
      assert Blocked(s, e, p);
    }
  }

  lemma NewOtherArena(s: State, d: nat, k: nat, j: nat)
    requires |s.free| == DESC_CNT && d < DESC_CNT && k < |s.owner|
    requires j in s.arenas && ArenaOk(s, j) && j != k
    ensures ArenaOk(NewArena(s, d, k), j)
  {
    if s.arenas[j].Small? && s.arenas[j].desc == d {
      BlocksElsewhere(s.base, j, k, d);
    }
    ArenaKept(s, NewArena(s, d, k), j);
  }

  lemma BlocksElsewhere(base: nat, j: nat, k: nat, d: nat)
    requires d < DESC_CNT && j != k
    ensures forall p :: IsBlock(base, j, d, p) ==> !IsBlock(base, k, d, p)
  {
    forall p | IsBlock(base, j, d, p) ensures !IsBlock(base, k, d, p) {
      BlockFacts(base, j, d, p);
      if IsBlock(base, k, d, p) {
        BlockFacts(base, k, d, p);
      }
    }
  }

  lemma NewArenaLive(s: State, d: nat, k: nat, p: nat)
    requires Core(s) && d < DESC_CNT && k < |s.owner| && k !in s.arenas && p in s.live
    ensures LiveOk(NewArena(s, d, k), p)
  {
    assert LiveOk(s, p);
    if IsBlock(s.base, k, d, p) {
      NoBlocks(s, k, d, d, p);
    }
  }

  lemma NewArenaCore(s: State, d: nat, k: nat)
    requires Core(s) && d < DESC_CNT && k < |s.owner| && s.owner[k] == Nobody
    ensures k !in s.arenas && Core(NewArena(s, d, k))
  {
    var t := NewArena(s, d, k);
    Unowned(s, k);
    forall j | j in t.arenas ensures ArenaOk(t, j) {
      if j == k {
        FreeBound(t, k, d);
      } else {
        assert ArenaOk(s, j);
        NewOtherArena(s, d, k, j);
      }
    }
    forall e | 0 <= e < DESC_CNT ensures ListOk(t, e) {
      NewArenaLists(s, d, k, e);
    }
    forall p | p in t.live ensures LiveOk(t, p) {
      NewArenaLive(s, d, k, p);
    }
  }

  /** A page nobody owns starts no arena. */
  lemma Unowned(s: State, k: nat)
    requires Core(s) && k < |s.owner| && s.owner[k] == Nobody
    ensures k !in s.arenas
  {
    assert k in s.arenas ==> ArenaOk(s, k);
  }

  lemma NewArenaTakeable(s: State, d: nat, k: nat)
    requires Core(s) && d < DESC_CNT && k < |s.owner| && s.owner[k] == Nobody && s.free[d] == []
    ensures Takeable(NewArena(s, d, k), d)
  {
    NewArenaCore(s, d, k);
    HeadTakeable(NewArena(s, d, k), d);
  }

  /* Big blocks. */

  /** A free list that stays as it is, while its arenas stay, is still in order. */
  lemma ListKept(s: State, t: State, e: nat)
    requires |s.free| == |t.free| == DESC_CNT && e < DESC_CNT && ListOk(s, e)
    requires t.base == s.base && t.free[e] == s.free[e]
    requires forall k :: k in s.arenas && s.arenas[k].Small? && s.arenas[k].desc == e ==>
      k in t.arenas && t.arenas[k].Small? && t.arenas[k].desc == e
    ensures ListOk(t, e)
  {
    hide IsBlock, PageOf;
    forall p | p in t.free[e] ensures Blocked(t, e, p) {
      assert Blocked(s, e, p);
    }
  }

  lemma BigAllocCore(s: State, k: nat, n: nat, size: nat)
    requires Core(s) && n > 0 && Vacant(s, k, n) && size > 0 && HEADER + size <= PGSIZE * n
    ensures k !in s.arenas && PageAt(s.base, k) + HEADER !in s.live && Core(BigAlloc(s, k, n, size))
  {
    hide IsBlock, ListOk, ArenaOk, PagesOk;
    var t := BigAlloc(s, k, n, size);
    Unowned(s, k);
    FirstBlock(s.base, k);
    forall j | j in t.arenas ensures ArenaOk(t, j) {
      BigAllocArena(s, k, n, size, j);
    }
    forall e | 0 <= e < DESC_CNT ensures ListOk(t, e) {
      ListKept(s, t, e);
    }
    forall p | p in t.live ensures LiveOk(t, p) {
      assert p in s.live ==> LiveOk(s, p);
    }
    BigAllocPages(s, k, n, size);
  }

  lemma BigAllocArena(s: State, k: nat, n: nat, size: nat, j: nat)
    requires |s.free| == DESC_CNT && n > 0 && Vacant(s, k, n)
    requires j == k || (j in s.arenas && ArenaOk(s, j))
    ensures ArenaOk(BigAlloc(s, k, n, size), j)
  {
    if j != k {
      ArenaKept(s, BigAlloc(s, k, n, size), j);
    }
  }

  lemma BigAllocPages(s: State, k: nat, n: nat, size: nat)
    requires Core(s) && n > 0 && Vacant(s, k, n)
    ensures PagesOk(BigAlloc(s, k, n, size))
  {
    hide ArenaOk, ListOk, LiveOk;
    Unowned(s, k);
    var t := BigAlloc(s, k, n, size);
    forall j: nat, i: nat | j < |t.owner|
      ensures t.owner[j] == Heap(i) <==> i in t.arenas && i <= j < i + Pages(t.arenas[i])
    {
      assert s.owner[j] == Heap(i) <==> i in s.arenas && i <= j < i + Pages(s.arenas[i]);
    }
  }

  lemma BigFreeCore(s: State, k: nat)
    requires Core(s) && k in s.arenas && s.arenas[k].Big? && k + s.arenas[k].pages <= |s.owner|
    ensures Core(BigFree(s, k))
  {
    hide IsBlock, ListOk, ArenaOk, PagesOk;
    var t := BigFree(s, k);
    forall j | j in t.arenas ensures ArenaOk(t, j) {
      BigFreeArena(s, k, j);
    }
    forall e | 0 <= e < DESC_CNT ensures ListOk(t, e) {
      ListKept(s, t, e);
    }
    forall p | p in t.live ensures LiveOk(t, p) {
      assert LiveOk(s, p);
    }
    BigFreePages(s, k);
  }

  lemma BigFreePages(s: State, k: nat)
    requires PagesOk(s) && k in s.arenas && s.arenas[k].Big? && k + s.arenas[k].pages <= |s.owner|
    ensures PagesOk(BigFree(s, k))
  {
    var t := BigFree(s, k);
    forall j: nat, i: nat | j < |t.owner|
      ensures t.owner[j] == Heap(i) <==> i in t.arenas && i <= j < i + Pages(t.arenas[i])
    {
      assert s.owner[j] == Heap(i) <==> i in s.arenas && i <= j < i + Pages(s.arenas[i]);
      assert s.owner[j] == Heap(k) <==> k <= j < k + Pages(s.arenas[k]);
    }
  }

  lemma BigFreeArena(s: State, k: nat, j: nat)
    requires |s.free| == DESC_CNT && k in s.arenas && s.arenas[k].Big? && ArenaOk(s, k)
    requires j in s.arenas && ArenaOk(s, j) && j != k
    ensures ArenaOk(BigFree(s, k), j)
  {
    hide IsBlock;
    HeaderBlock(s, k, j);
    ArenaKept(s, BigFree(s, k), j);
  }

  /** The block of a big arena lies in its own page, so it is no other arena's. */
  lemma HeaderBlock(s: State, k: nat, j: nat)
    requires j != k
    ensures forall d, p :: IsBlock(s.base, j, d, p) ==> p != PageAt(s.base, k) + HEADER
    ensures PageAt(s.base, j) != PageAt(s.base, k)
  {
    forall d, p | IsBlock(s.base, j, d, p) ensures p != PageAt(s.base, k) + HEADER {
      BlockFacts(s.base, j, d, p);
    }
  }

  /* Taking a block back. */

  lemma PutCore(s: State, p: nat)
    requires Core(s) && p in s.live && LiveOk(s, p) && s.arenas[PageOf(s.base, p)].Small?
    ensures Core(Put(s, p, PageOf(s.base, p)))
  {
    hide IsBlock, ArenaOk, ListOk, PageOf;
    var k := PageOf(s.base, p);
    var t := Put(s, p, k);
    forall j | j in t.arenas ensures ArenaOk(t, j) {
      PutArena(s, p, k, j);
    }
    forall e | 0 <= e < DESC_CNT ensures ListOk(t, e) {
      PutList(s, p, e);
    }
    forall q | q in t.live ensures LiveOk(t, q) {
      assert LiveOk(s, q);
    }
  }

  lemma PutList(s: State, p: nat, e: nat)
    requires |s.free| == DESC_CNT && e < DESC_CNT && ListOk(s, e)
    requires p in s.live && LiveOk(s, p) && s.arenas[PageOf(s.base, p)].Small?
    ensures ListOk(Put(s, p, PageOf(s.base, p)), e)
  {
    hide IsBlock, PageOf;
    var t := Put(s, p, PageOf(s.base, p));
    forall q | q in t.free[e] ensures Blocked(t, e, q) {
      assert q in s.free[e] ==> Blocked(s, e, q);
    }
  }

  lemma PutArena(s: State, p: nat, k: nat, j: nat)
    requires |s.free| == DESC_CNT && k in s.arenas && s.arenas[k].Small? && s.arenas[k].desc < DESC_CNT
    requires s.base <= p && k == PageOf(s.base, p) && p !in s.free[s.arenas[k].desc]
    requires IsBlock(s.base, k, s.arenas[k].desc, p)
    requires j in s.arenas && ArenaOk(s, j)
    ensures ArenaOk(Put(s, p, k), j)
  {
    hide IsBlock, PageOf;
    var t := Put(s, p, k);
    if j == k {
      var d := s.arenas[k].desc;
      assert FreeOf(t, k, d) == FreeOf(s, k, d) + {p};
    } else {
      if s.arenas[j].Small? {
        var e := s.arenas[j].desc;
        forall q | IsBlock(s.base, j, e, q) ensures q != p {
          BlockFacts(s.base, j, e, q);
        }
      } else {
        FirstBlock(s.base, j);
      }
      ArenaKept(s, t, j);
    }
  }

  lemma FirstBlock(base: nat, j: nat)
    ensures PageOf(base, PageAt(base, j) + HEADER) == j
  {
  }

  /** Giving back an arena all of whose blocks are on the free list. */
  lemma ReclaimCore(s: State, k: nat)
    requires Core(s) && k in s.arenas && s.arenas[k].Small? && ArenaOk(s, k)
    requires s.arenas[k].freeCnt == PerArena(s.arenas[k].desc)
    ensures Core(Reclaim(s, k))
  {
    hide IsBlock, ListOk, LiveOk, PagesOk, PageOf;
    var t := Reclaim(s, k);
    forall j | j in t.arenas ensures ArenaOk(t, j) {
      ReclaimOtherArena(s, k, j);
    }
    forall e | 0 <= e < DESC_CNT ensures ListOk(t, e) {
      ReclaimList(s, k, e);
    }
    forall q | q in t.live ensures LiveOk(t, q) {
      ReclaimLive(s, k, q);
    }
    ReclaimPages(s, k);
  }

  lemma ReclaimPages(s: State, k: nat)
    requires PagesOk(s) && |s.free| == DESC_CNT && k < |s.owner|
    requires k in s.arenas && s.arenas[k].Small? && s.arenas[k].desc < DESC_CNT
    ensures PagesOk(Reclaim(s, k))
  {
    var t := Reclaim(s, k);
    forall j: nat, i: nat | j < |t.owner|
      ensures t.owner[j] == Heap(i) <==> i in t.arenas && i <= j < i + Pages(t.arenas[i])
    {
      assert s.owner[j] == Heap(i) <==> i in s.arenas && i <= j < i + Pages(s.arenas[i]);
      assert s.owner[j] == Heap(k) <==> k <= j < k + Pages(s.arenas[k]);
    }
  }

  lemma ReclaimLive(s: State, k: nat, q: nat)
    requires |s.free| == DESC_CNT && k in s.arenas && s.arenas[k].Small? && ArenaOk(s, k)
    requires s.arenas[k].freeCnt == PerArena(s.arenas[k].desc)
    requires q in s.live && LiveOk(s, q)
    ensures LiveOk(Reclaim(s, k), q)
  {
    hide IsBlock, PageOf;
    FreeBound(s, k, s.arenas[k].desc);
  }

  lemma ReclaimOtherArena(s: State, k: nat, j: nat)
    requires |s.free| == DESC_CNT && k in s.arenas && s.arenas[k].Small? && ArenaOk(s, k)
    requires j in s.arenas && ArenaOk(s, j) && j != k
    ensures ArenaOk(Reclaim(s, k), j)
  {
    var d := s.arenas[k].desc;
    if s.arenas[j].Small? && s.arenas[j].desc == d {
      BlocksElsewhere(s.base, j, k, d);
    }
    ArenaKept(s, Reclaim(s, k), j);
  }

  lemma ReclaimList(s: State, k: nat, e: nat)
    requires |s.free| == DESC_CNT && k in s.arenas && s.arenas[k].Small? && ArenaOk(s, k)
    requires e < DESC_CNT && ListOk(s, e)
    ensures ListOk(Reclaim(s, k), e)
  {
    var t, d := Reclaim(s, k), s.arenas[k].desc;
    SiftDistinct(s.free[e], BlockList(s.base, k, d, PerArena(d)));
    forall q | q in t.free[e] ensures Blocked(t, e, q) {
      assert Blocked(s, e, q);
    }
  }

  /* The calls. */

  /** The same pool, with the page allocator's other clients left alone. */
  ghost predicate SamePool(s: State, t: State) {
    && t.base == s.base && |t.owner| == |s.owner|
    && forall j :: 0 <= j < |s.owner| ==> (s.owner[j] == Client <==> t.owner[j] == Client)
  }

  lemma TakeInv(s: State, d: nat, size: nat)
    requires Core(s) && d < DESC_CNT && 0 < size <= BlockSize(d) && Takeable(s, d)
    requires forall k :: k in s.arenas && s.arenas[k].Small? && s.arenas[k].freeCnt >= PerArena(s.arenas[k].desc) ==>
      k == PageOf(s.base, s.free[d][0])
    ensures s.free[d][0] !in s.live && Inv(Take(s, d, size))
  {
    hide IsBlock;
    HeadTakeable(s, d);
    TakeCore(s, d, size);
    var k := PageOf(s.base, s.free[d][0]);
    assert ArenaOk(s, k);
    FreeBound(s, k, s.arenas[k].desc);
  }

  lemma NewArenaInv(s: State, d: nat, k: nat, size: nat)
    requires Inv(s) && d < DESC_CNT && s.free[d] == [] && 0 < size <= BlockSize(d)
    requires k < |s.owner| && s.owner[k] == Nobody
    ensures Takeable(NewArena(s, d, k), d) && NewArena(s, d, k).free[d][0] == PageAt(s.base, k) + HEADER
    ensures PageAt(s.base, k) + HEADER !in s.live && Inv(Take(NewArena(s, d, k), d, size))
  {
    hide IsBlock, ArenaOk, ListOk, LiveOk, PagesOk;
    var t := NewArena(s, d, k);
    NewArenaCore(s, d, k);
    HeadTakeable(t, d);
    assert t.free[d][0] == BlockAt(s.base, k, d, 0);
    FirstBlock(s.base, k);
    TakeInv(t, d, size);
  }

  /** A new block P of SIZE bytes, or none and no change. */
  ghost predicate Handed(s: State, t: State, p: nat, size: nat) {
    && Inv(t) && SamePool(s, t)
    && (if p == 0 then t == s else size > 0 && p !in s.live && t.live == s.live[p := size])
  }

  lemma MallocBigInv(s: State, size: nat)
    requires Inv(s) && size > 0 && Servable(size)
    ensures Handed(s, MallocBig(s, size).0, MallocBig(s, size).1, size)
  {
    hide IsBlock, ArenaOk, ListOk, LiveOk, PagesOk, Vacant, PagesFor32;
    var n := PagesFor32(size);
    PagesSufficeIff(size);
    if n > 0 && GetPages(s, n).Some? {
      var k := GetPages(s, n).value;
      BigAllocCore(s, k, n, size);
      VacantPages(s, k, n);
    }
  }

  lemma MallocSmallInv(s: State, d: nat, size: nat)
    requires Inv(s) && d < DESC_CNT && 0 < size <= BlockSize(d)
    ensures Handed(s, MallocSmall(s, d, size).0, MallocSmall(s, d, size).1, size)
  {
    hide IsBlock, ArenaOk, ListOk, LiveOk, PagesOk, Vacant, PageOf;
    if s.free[d] != [] {
      HeadTakeable(s, d);
      TakeInv(s, d, size);
    } else if GetPages(s, 1).Some? {
      var k := GetPages(s, 1).value;
      VacantPages(s, k, 1);
      NewArenaInv(s, d, k, size);
    }
  }

  /** malloc keeps the invariant.  It returns a null pointer and changes nothing, or hands
      out a block that was not in use, adding it and nothing else to the live ones. */
  lemma MallocInv(s: State, size: nat)
    requires Inv(s) && Servable(size)
    ensures var (t, p) := Malloc(s, size);
      && Inv(t) && SamePool(s, t)
      && (if p == 0 then t == s else size > 0 && p !in s.live && t.live == s.live[p := size])
  {
    hide Core, Inv, MallocBig, MallocSmall;
    if size > 0 {
      match Fit(0, size)
      case None => MallocBigInv(s, size);
      case Some(d) => MallocSmallInv(s, d, size);
    }
  }

  lemma VacantPages(s: State, k: nat, n: nat)
    requires Vacant(s, k, n)
    ensures k + n <= |s.owner| && forall j :: k <= j < k + n ==> s.owner[j] == Nobody
  {
  }

  /** free keeps the invariant and takes exactly P out of the live blocks. */
  lemma FreeInv(s: State, p: nat)
    requires Inv(s) && (p == 0 || p in s.live)
    ensures Inv(Free(s, p)) && SamePool(s, Free(s, p))
    ensures Free(s, p).live == if p == 0 then s.live else s.live - {p}
  {
    hide Free, ArenaOk, ListOk, PagesOk;
    if p == 0 {
      FreeNull(s);
    } else {
      assert LiveOk(s, p);
      if s.arenas[PageOf(s.base, p)].Big? {
        FreeBig(s, p);
      } else {
        FreeSmall(s, p);
      }
    }
  }

  lemma FreeNull(s: State)
    requires Inv(s)
    ensures Free(s, 0) == s
  {
  }

  lemma FreeBig(s: State, p: nat)
    requires Inv(s) && p in s.live && LiveOk(s, p)
    requires s.arenas[PageOf(s.base, p)].Big?
    ensures Inv(Free(s, p)) && SamePool(s, Free(s, p)) && Free(s, p).live == s.live - {p}
  {
    hide IsBlock, ArenaOk, ListOk, PagesOk, PageOf, PerArena;
    var k := PageOf(s.base, p);
    FreedPages(s, k);
    BigFreeCore(s, k);
  }

  lemma FreeSmall(s: State, p: nat)
    requires Inv(s) && p in s.live && LiveOk(s, p)
    requires s.arenas[PageOf(s.base, p)].Small?
    ensures Inv(Free(s, p)) && SamePool(s, Free(s, p)) && Free(s, p).live == s.live - {p}
  {
    hide IsBlock, ArenaOk, ListOk, PagesOk, PageOf, PerArena, Free;
    var k := PageOf(s.base, p);
    FreedPages(s, k);
    PutCore(s, p);
    var t := Put(s, p, k);
    PutCount(t, k);
    FreeSmallIs(s, p);
    if t.arenas[k].freeCnt >= PerArena(t.arenas[k].desc) {
      ReclaimCore(t, k);
    }
  }

  lemma FreeSmallIs(s: State, p: nat)
    requires Inv(s) && p in s.live && LiveOk(s, p) && s.arenas[PageOf(s.base, p)].Small?
    ensures var k := PageOf(s.base, p);
      var t := Put(s, p, k);
      k < |s.owner| && Free(s, p) == if t.arenas[k].freeCnt >= PerArena(t.arenas[k].desc) then Reclaim(t, k) else t
  {
    hide IsBlock, ListOk, PagesOk, PageOf, PerArena, Sift, BlockList;
    FreedPages(s, PageOf(s.base, p));
  }

  lemma PutCount(s: State, k: nat)
    requires Core(s) && k in s.arenas && s.arenas[k].Small?
    ensures ArenaOk(s, k) && s.arenas[k].freeCnt <= PerArena(s.arenas[k].desc)
  {
    assert ArenaOk(s, k);
    FreeBound(s, k, s.arenas[k].desc);
  }

  /** The pages of an arena belong to it. */
  lemma FreedPages(s: State, k: nat)
    requires Core(s) && k in s.arenas
    ensures k + Pages(s.arenas[k]) <= |s.owner|
    ensures forall j :: k <= j < k + Pages(s.arenas[k]) ==> s.owner[j] == Heap(k)
  {
    assert ArenaOk(s, k);
  }

  /** realloc */
  function Realloc(s: State, p: nat, size: nat): (State, nat)
    requires Inv(s) && (p == 0 || p in s.live) && Servable(size)
  {
    if size == 0 then (Free(s, p), 0) else
    MallocInv(s, size);
    var (t, q) := Malloc(s, size);
    if p != 0 && q != 0 then (Free(t, p), q) else (t, q)
  }

  lemma ReallocInv(s: State, p: nat, size: nat)
    requires Inv(s) && (p == 0 || p in s.live) && Servable(size)
    ensures var (t, q) := Realloc(s, p, size);
      && Inv(t) && SamePool(s, t)
      && (if q == 0 then t == if size == 0 then Free(s, p) else s
          else q !in s.live && t.live == if p == 0 then s.live[q := size] else s.live[q := size] - {p})
  {
    hide Inv, Malloc, Free;
    if size == 0 {
      FreeInv(s, p);
    } else {
      MallocInv(s, size);
      var (t, q) := Malloc(s, size);
      if p != 0 && q != 0 {
        FreeInv(t, p);
      }
    }
  }

  /** A call of malloc, free or realloc, or another client getting pages from the page
      allocator or giving some back. */
  datatype Call = Mallocs(size: nat) | Frees(p: nat) | Reallocs(p: nat, size: nat)
    | GetsPages(n: nat) | FreesPages(k: nat, n: nat)

  predicate ByClient(c: Call) {
    c.GetsPages? || c.FreesPages?
  }

  predicate Callable(s: State, c: Call) {
    match c
    case Mallocs(size) => Servable(size)
    case Frees(p) => p == 0 || p in s.live
    case Reallocs(p, size) => (p == 0 || p in s.live) && Servable(size)
    case GetsPages(_) => true
    case FreesPages(k, n) => k + n <= |s.owner| && forall j :: k <= j < k + n ==> s.owner[j] == Client
  }

  function Perform(s: State, c: Call): State
    requires Inv(s) && Callable(s, c)
  {
    match c
    case Mallocs(size) => Malloc(s, size).0
    case Frees(p) => Free(s, p)
    case Reallocs(p, size) => Realloc(s, p, size).0
    case GetsPages(n) =>
      (match GetPages(s, n)
       case None => s
       case Some(k) => s.(owner := Filled(s.owner, k, n, Client)))
    case FreesPages(k, n) => s.(owner := Filled(s.owner, k, n, Nobody))
  }

  /** Another client's call leaves everything of the heap. */
  ghost predicate SameHeap(s: State, t: State) {
    && t == s.(owner := t.owner) && |t.owner| == |s.owner|
    && forall j :: 0 <= j < |s.owner| && (s.owner[j].Heap? || t.owner[j].Heap?) ==> t.owner[j] == s.owner[j]
  }

  lemma SameHeapInv(s: State, t: State)
    requires Inv(s) && SameHeap(s, t)
    ensures Inv(t)
  {
    hide IsBlock, ArenaOk, ListOk, PagesOk, PageOf;
    forall j | j in t.arenas ensures ArenaOk(t, j) {
      ArenaStays(s, t, j);
    }
    forall e | 0 <= e < DESC_CNT ensures ListOk(t, e) {
      ListKept(s, t, e);
    }
    forall p | p in t.live ensures LiveOk(t, p) {
      assert LiveOk(s, p);
    }
    SameHeapPages(s, t);
  }

  lemma ArenaStays(s: State, t: State, j: nat)
    requires |s.free| == DESC_CNT && j in s.arenas && ArenaOk(s, j) && SameHeap(s, t)
    ensures ArenaOk(t, j)
  {
    ArenaKept(s, t, j);
  }

  lemma SameHeapPages(s: State, t: State)
    requires PagesOk(s) && SameHeap(s, t)
    ensures PagesOk(t)
  {
    forall j: nat, k: nat | j < |t.owner|
      ensures t.owner[j] == Heap(k) <==> k in t.arenas && k <= j < k + Pages(t.arenas[k])
    {
      assert s.owner[j] == Heap(k) <==> k in s.arenas && k <= j < k + Pages(s.arenas[k]);
    }
  }

  /** malloc, free and realloc leave the pages of other clients, and those leave the heap. */
  lemma PerformInv(s: State, c: Call)
    requires Inv(s) && Callable(s, c)
    ensures var t := Perform(s, c);
      && Inv(t) && t.base == s.base && |t.owner| == |s.owner|
      && if ByClient(c) then SameHeap(s, t) else SamePool(s, t)
  {
    hide Inv, Malloc, Free, Realloc, Vacant;
    match c
    case Mallocs(size) => MallocInv(s, size);
    case Frees(p) => FreeInv(s, p);
    case Reallocs(p, size) => ReallocInv(s, p, size);
    case GetsPages(n) =>
      if GetPages(s, n).Some? {
        VacantPages(s, GetPages(s, n).value, n);
      }
      SameHeapInv(s, Perform(s, c));
    case FreesPages(k, n) =>
      SameHeapInv(s, Perform(s, c));
  }

  /** The calls CS, each made with what the allocator handed out, lead from S to T. */
  ghost predicate Leads(s: State, cs: seq<Call>, t: State)
    requires Inv(s)
    decreases cs
  {
    if cs == [] then t == s
    else Callable(s, cs[0]) && (PerformInv(s, cs[0]); Leads(Perform(s, cs[0]), cs[1..], t))
  }

  lemma {:induction false} LeadsInv(s: State, cs: seq<Call>, t: State)
    requires Inv(s) && Leads(s, cs, t)
    ensures Inv(t) && t.base == s.base && |t.owner| == |s.owner|
    ensures (forall i :: 0 <= i < |cs| ==> !ByClient(cs[i])) ==> SamePool(s, t)
    decreases cs
  {
    hide Inv, Perform;
    if cs != [] {
      PerformInv(s, cs[0]);
      LeadsInv(Perform(s, cs[0]), cs[1..], t);
    }
  }

  /** In every reachable state a live block is as large as asked for, clear of every
      arena's header, in pages marked used, and apart from every other live block. */
  lemma LiveBlocks(s: State, cs: seq<Call>, t: State, p: nat)
    requires Inv(s) && Leads(s, cs, t) && p in t.live
    ensures t.base <= p && p + t.live[p] <= PageAt(t.base, |t.owner|)
    ensures forall j :: 0 <= j < |t.owner| && Overlaps(t, p, j) ==> Used(t.owner)[j]
    ensures forall k :: k in t.arenas ==> p >= PageAt(t.base, k) + HEADER || p + t.live[p] <= PageAt(t.base, k)
    ensures forall q :: q in t.live && q != p ==> p + t.live[p] <= q || q + t.live[q] <= p
  {
    hide Inv, Leads, PageOf;
    LeadsInv(s, cs, t);
    BlockSpan(t, p);
    forall q | q in t.live && q != p ensures p + t.live[p] <= q || q + t.live[q] <= p {
      Apart(t, p, q);
    }
    forall k | k in t.arenas ensures p >= PageAt(t.base, k) + HEADER || p + t.live[p] <= PageAt(t.base, k) {
      if k != PageOf(t.base, p) {
        ArenasApart(t, PageOf(t.base, p), k);
      }
    }
  }

  /** Live block P has a byte in page J. */
  predicate Overlaps(s: State, p: nat, j: nat)
    requires p in s.live
  {
    PageAt(s.base, j) < p + s.live[p] && p < PageAt(s.base, j + 1)
  }

  lemma BlockSpan(s: State, p: nat)
    requires Inv(s) && p in s.live
    ensures s.base <= p && PageOf(s.base, p) in s.arenas
    ensures var k := PageOf(s.base, p);
      && k + Pages(s.arenas[k]) <= |s.owner|
      && PageAt(s.base, k) + HEADER <= p && p + s.live[p] <= PageAt(s.base, k + Pages(s.arenas[k]))
      && forall j :: k <= j < k + Pages(s.arenas[k]) ==> s.owner[j] == Heap(k)
  {
    assert LiveOk(s, p);
    var k := PageOf(s.base, p);
    FreedPages(s, k);
    if s.arenas[k].Small? {
      BlockFacts(s.base, k, s.arenas[k].desc, p);
    }
  }

  /** Two arenas share no page. */
  lemma ArenasApart(s: State, j: nat, k: nat)
    requires Inv(s) && j in s.arenas && k in s.arenas && j != k
    ensures j + Pages(s.arenas[j]) <= k || k + Pages(s.arenas[k]) <= j
  {
    hide ListOk, LiveOk;
    FreedPages(s, j);
    FreedPages(s, k);
    assert ArenaOk(s, j) && ArenaOk(s, k);
    assert j < k ==> k < |s.owner| && s.owner[k] == Heap(k);
    assert k < j ==> j < |s.owner| && s.owner[j] == Heap(j);
  }

  lemma BlocksOfArenaApart(base: nat, k: nat, d: nat, p: nat, q: nat)
    requires IsBlock(base, k, d, p) && IsBlock(base, k, d, q) && p != q
    ensures p + BlockSize(d) <= q || q + BlockSize(d) <= p
  {
    var l := BlockList(base, k, d, PerArena(d));
    var x :| 0 <= x < |l| && l[x] == p;
    var y :| 0 <= y < |l| && l[y] == q;
    if x < y {
      BlocksApart(base, k, d, x, y);
    } else {
      BlocksApart(base, k, d, y, x);
    }
  }

  lemma Apart(s: State, p: nat, q: nat)
    requires Inv(s) && p in s.live && q in s.live && p != q
    ensures p + s.live[p] <= q || q + s.live[q] <= p
  {
    hide IsBlock, PageOf, ArenaOk, ListOk, PagesOk;
    BlockSpan(s, p);
    BlockSpan(s, q);
    var j, k := PageOf(s.base, p), PageOf(s.base, q);
    if j != k {
      ArenasApart(s, j, k);
    } else {
      assert LiveOk(s, p) && LiveOk(s, q);
      BlocksOfArenaApart(s.base, j, s.arenas[j].desc, p, q);
    }
  }

  lemma OwnersAreArenas(s: State)
    requires Core(s)
    ensures forall j :: 0 <= j < |s.owner| && s.owner[j].Heap? ==> s.owner[j].arena in s.arenas
  {
    hide ArenaOk, ListOk, LiveOk;
  }

  lemma ArenaHasLive(s: State, k: nat)
    requires Inv(s) && k in s.arenas
    ensures s.live != map[]
  {
    assert ArenaOk(s, k);
    if s.arenas[k].Small? {
      FreeBound(s, k, s.arenas[k].desc);
    }
  }

  lemma FreeHasArena(s: State, d: nat)
    requires Inv(s) && d < DESC_CNT && s.free[d] != []
    ensures s.arenas != map[]
  {
    assert ListOk(s, d);
    assert Blocked(s, d, s.free[d][0]);
  }

  /** With nothing live there is no arena and no free block. */
  lemma NothingLive(s: State)
    requires Inv(s) && s.live == map[]
    ensures s.arenas == map[] && s.free == seq(DESC_CNT, _ => [])
    ensures forall j :: 0 <= j < |s.owner| ==> !s.owner[j].Heap?
  {
    hide ArenaOk, ListOk, LiveOk, PagesOk;
    OwnersAreArenas(s);
    forall k | k in s.arenas ensures false {
      ArenaHasLive(s, k);
    }
    forall d | 0 <= d < DESC_CNT ensures s.free[d] == [] {
      if s.free[d] != [] {
        FreeHasArena(s, d);
      }
    }
  }

  /** Calls that start and end with nothing live leave everything as it was, the pool's
      bitmap included, but for the pages that other clients took or gave back. */
  lemma FreeingAllRestores(s: State, cs: seq<Call>, t: State)
    requires Inv(s) && Leads(s, cs, t) && s.live == map[] && t.live == map[]
    ensures SameHeap(s, t) && (t == s <==> SamePool(s, t))
    ensures (forall i :: 0 <= i < |cs| ==> !ByClient(cs[i])) ==> t == s
  {
    hide Inv, Leads;
    LeadsInv(s, cs, t);
    NothingLive(s);
    NothingLive(t);
    if SamePool(s, t) {
      assert t.owner == s.owner by {
        forall j | 0 <= j < |s.owner| ensures s.owner[j] == t.owner[j] {
          OwnerKinds(s.owner[j], t.owner[j]);
        }
      }
    }
  }

  lemma OwnerKinds(a: Owner, b: Owner)
    requires !a.Heap? && !b.Heap? && (a == Client <==> b == Client)
    ensures a == b
  {
    assert a == Nobody || a == Client;
  }

  /** The live blocks of arena K, which belongs to descriptor D. */
  ghost function LiveOf(s: State, k: nat, d: nat): set<nat> {
    set p | p in s.live && IsBlock(s.base, k, d, p)
  }

  /** In every reachable state each block of a small arena is on its descriptor's free list
      once or live, free_cnt counts the former, and some block is live. */
  lemma BlocksConserved(s: State, cs: seq<Call>, t: State, k: nat)
    requires Inv(s) && Leads(s, cs, t) && k in t.arenas && t.arenas[k].Small?
    ensures var d := t.arenas[k].desc;
      && d < DESC_CNT == |t.free| && Distinct(t.free[d])
      && t.arenas[k].freeCnt == |FreeOf(t, k, d)| && FreeOf(t, k, d) !! LiveOf(t, k, d)
      && t.arenas[k].freeCnt + |LiveOf(t, k, d)| == PerArena(d) && LiveOf(t, k, d) != {}
  {
    hide Leads, PageOf, IsBlock, LiveOk, PagesOk;
    LeadsInv(s, cs, t);
    assert ArenaOk(t, k);
    assert ListOk(t, t.arenas[k].desc);
    LiveNotFree(t, k, t.arenas[k].desc);
    FreeOrLive(t, k, t.arenas[k].desc);
  }

  lemma FreeOrLive(s: State, k: nat, d: nat)
    requires |s.free| == DESC_CNT && d < DESC_CNT && FreeOf(s, k, d) !! LiveOf(s, k, d)
    requires forall p :: IsBlock(s.base, k, d, p) ==> p in s.free[d] || p in s.live
    ensures |FreeOf(s, k, d)| + |LiveOf(s, k, d)| == PerArena(d)
  {
    var l := BlockList(s.base, k, d, PerArena(d));
    BlocksDistinct(s.base, k, d, PerArena(d));
    DistinctCount(l);
    assert Elements(l) == FreeOf(s, k, d) + LiveOf(s, k, d);
  }

  lemma LiveNotFree(s: State, k: nat, d: nat)
    requires Inv(s) && k in s.arenas && s.arenas[k].Small? && s.arenas[k].desc == d < DESC_CNT
    ensures FreeOf(s, k, d) !! LiveOf(s, k, d)
  {
    hide ArenaOk, ListOk;
    forall p | p in LiveOf(s, k, d) ensures p !in FreeOf(s, k, d) {
      assert LiveOk(s, p);
      BlockFacts(s.base, k, d, p);
    }
  }

  /** There is no free block for SIZE bytes and not the pages to make one. */
  ghost predicate OutOfMemory(s: State, size: nat)
    requires |s.free| == DESC_CNT
  {
    match Fit(0, size)
    case None => PagesFor32(size) == 0 || forall k: nat :: !Vacant(s, k, PagesFor32(size))
    case Some(d) => s.free[d] == [] && forall k: nat :: !Vacant(s, k, 1)
  }

  /** malloc of a positive size fails exactly when it needs pages that are not there. */
  lemma MallocFails(s: State, size: nat)
    requires Inv(s) && size > 0
    ensures Malloc(s, size).1 == 0 <==> OutOfMemory(s, size)
  {
    hide ArenaOk, LiveOk, PagesOk, Vacant;
    match Fit(0, size)
    case None =>
    case Some(d) =>
      if s.free[d] != [] {
        HeadTakeable(s, d);
      } else if GetPages(s, 1).Some? {
        var k := GetPages(s, 1).value;
        VacantPages(s, k, 1);
        NewArenaInv(s, d, k, size);
      }
  }

  /** realloc to a positive size fails exactly when malloc would, and of a null pointer it is
      malloc; to size 0 it is free. */
  lemma ReallocFails(s: State, p: nat, size: nat)
    requires Inv(s) && (p == 0 || p in s.live) && Servable(size)
    ensures size > 0 ==> (Realloc(s, p, size).1 == 0 <==> OutOfMemory(s, size))
    ensures p == 0 && size > 0 ==> Realloc(s, p, size) == Malloc(s, size)
    ensures size == 0 ==> Realloc(s, p, size) == (Free(s, p), 0)
  {
    hide Inv, Malloc, Free;
    if size > 0 {
      MallocFails(s, size);
    }
  }

  /** The N pages from K on are the first run of pages that nobody uses. */
  ghost predicate FirstVacant(s: State, k: nat, n: nat) {
    Vacant(s, k, n) && forall j: nat :: j < k ==> !Vacant(s, j, n)
  }

  /** Where malloc takes a block from: a free block of the smallest descriptor that fits and no
      page, or one in the first page to be had, or for a big one the first run of pages that
      holds it. */
  lemma MallocTakes(s: State, size: nat)
    requires Inv(s) && size > 0 && Malloc(s, size).1 != 0
    ensures var (t, p) := Malloc(s, size);
      s.base <= p &&
      match Fit(0, size)
      case Some(d) =>
        if s.free[d] != [] then
          p in s.free[d] && t.owner == s.owner
        else
          var k := PageOf(s.base, p);
          && FirstVacant(s, k, 1) && t.owner == s.owner[k := Heap(k)] && IsBlock(s.base, k, d, p)
          && k in t.arenas && t.arenas[k].Small? && t.arenas[k].desc == d
      case None =>
        var k, n := PageOf(s.base, p), PagesFor32(size);
        && FirstVacant(s, k, n) && t.owner == Filled(s.owner, k, n, Heap(k)) && p == PageAt(s.base, k) + HEADER
        && k in t.arenas && t.arenas[k] == Big(n)
  {
    hide ArenaOk, LiveOk, PagesOk, Vacant, ListOk;
    match Fit(0, size)
    case None =>
      var k := GetPages(s, PagesFor32(size)).value;
      VacantPages(s, k, PagesFor32(size));
      FirstBlock(s.base, k);
      FirstPages(s, PagesFor32(size));
    case Some(d) =>
      if s.free[d] != [] {
        HeadTakeable(s, d);
      } else if GetPages(s, 1).Some? {
        var k := GetPages(s, 1).value;
        VacantPages(s, k, 1);
        NewArenaInv(s, d, k, size);
        FirstBlock(s.base, k);
        FirstPages(s, 1);
        assert BlockList(s.base, k, d, PerArena(d))[0] == PageAt(s.base, k) + HEADER;
      }
  }

  lemma FirstPages(s: State, n: nat)
    requires GetPages(s, n).Some?
    ensures FirstVacant(s, GetPages(s, n).value, n)
  {
    VacantRuns(s, n);
    forall j: nat | j < GetPages(s, n).value ensures !Vacant(s, j, n) {
      assert !IsRun(Used(s.owner), j, n, false);
    }
  }

  /** P lies in an arena. */
  predicate InArena(s: State, p: nat) {
    && s.base <= p && PageOf(s.base, p) in s.arenas
    && match s.arenas[PageOf(s.base, p)] case Small(d, _) => d < DESC_CNT case Big(n) => n > 0
  }

  /** block_size: the bytes a block can hold. */
  function Room(s: State, p: nat): nat
    requires InArena(s, p)
  {
    match s.arenas[PageOf(s.base, p)]
    case Small(d, _) => BlockSize(d)
    case Big(n) => PGSIZE * n - HEADER
  }

  function Capacity(s: State, p: nat): nat
    requires Inv(s) && p in s.live
  {
    assert LiveOk(s, p);
    Room(s, p)
  }

  /** Whatever malloc hands out is large enough, if and only if the size with the header is at
      most 2^32; only then does malloc keep the invariant when it does not fail. */
  lemma MallocSufficesIff(s: State, size: nat)
    requires Inv(s) && 0 < size < SIZES && Malloc(s, size).1 != 0
    ensures var (t, p) := Malloc(s, size);
      InArena(t, p) && (size <= Room(t, p) <==> Servable(size)) && (Inv(t) <==> Servable(size))
  {
    hide ArenaOk, ListOk, PagesOk, Vacant, IsBlock;
    var (t, p) := Malloc(s, size);
    if Servable(size) {
      MallocInv(s, size);
      assert LiveOk(t, p);
    } else {
      PagesSufficeIff(size);
      VacantPages(s, GetPages(s, 1).value, 1);
      FirstBlock(s.base, GetPages(s, 1).value);
      assert !LiveOk(t, p);
    }
  }

  /** What realloc copies holds all that was asked for, old or new, and fits in both blocks. */
  lemma ReallocCopies(s: State, p: nat, size: nat)
    requires Inv(s) && p in s.live && size > 0 && Servable(size) && Malloc(s, size).1 != 0
    ensures var (t, q) := Malloc(s, size);
      && Inv(t) && p in t.live && q in t.live && Capacity(t, p) == Capacity(s, p)
      && var n := if size < Capacity(t, p) then size else Capacity(t, p);
         (s.live[p] <= n || size <= n) && n <= Capacity(t, p) && n <= size <= Capacity(t, q)
  {
    MallocInv(s, size);
    var (t, q) := Malloc(s, size);
    assert LiveOk(s, p) && LiveOk(t, p) && LiveOk(t, q);
    KeptArena(s, size, PageOf(s.base, p));
  }

  lemma KeptArena(s: State, size: nat, k: nat)
    requires Inv(s) && k in s.arenas
    ensures k in Malloc(s, size).0.arenas
    ensures match s.arenas[k]
      case Small(d, _) => Malloc(s, size).0.arenas[k].Small? && Malloc(s, size).0.arenas[k].desc == d
      case Big(n) => Malloc(s, size).0.arenas[k] == s.arenas[k]
  {
    hide ArenaOk, ListOk, LiveOk, PagesOk, Vacant;
    if size > 0 && Fit(0, size).None? {
      var n := PagesFor32(size);
      if n > 0 && GetPages(s, n).Some? {
        VacantPages(s, GetPages(s, n).value, n);
        Unowned(s, GetPages(s, n).value);
      }
    } else if size > 0 && s.free[Fit(0, size).value] == [] && GetPages(s, 1).Some? {
      VacantPages(s, GetPages(s, 1).value, 1);
      Unowned(s, GetPages(s, 1).value);
      NewArenaInv(s, Fit(0, size).value, GetPages(s, 1).value, size);
    } else if size > 0 && s.free[Fit(0, size).value] != [] {
      HeadTakeable(s, Fit(0, size).value);
    }
  }
}
