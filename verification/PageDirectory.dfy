/** The two-level page directory of userprog/pagedir.c, with the entry format of
    threads/pte.h (section 3.7.6 of the IA-32 manual, volume 3A).

    Entries, and the kernel addresses of the pages they point to, are 32-bit words.  A page
    table is a page of 1024 entries, found through its directory entry. */
module PageDirectory {
  import opened Sequences
  import opened VirtualAddress
  import opened Words

  /* Entries. */

  type Entry = bv32

  const PTE_ADDR: bv32 := 0xffff_f000
  const PTE_P: bv32 := 0x1
  const PTE_W: bv32 := 0x2
  const PTE_U: bv32 := 0x4
  const PTE_A: bv32 := 0x20
  const PTE_D: bv32 := 0x40
  const KERNEL_BASE: bv32 := 0xc000_0000

  predicate IsFlag(bit: bv32) {
    bit == PTE_P || bit == PTE_W || bit == PTE_U || bit == PTE_A || bit == PTE_D
  }

  predicate Has(e: Entry, bit: bv32) {
    Andl(e, bit) != 0
  }

  function With(e: Entry, bit: bv32): Entry {
    Orl(e, bit)
  }

  function Without(e: Entry, bit: bv32): Entry {
    Andl(e, Not(bit))
  }

  /** A page, by its kernel address. */
  datatype Page = Page(address: bv32)

  /** Page-aligned, and not below the kernel's base. */
  predicate IsPage(page: Page) {
    page.address & !PTE_ADDR == 0 && KERNEL_BASE <= page.address
  }

  /** pte_get_page and pde_get_pt */
  function PageOf(e: Entry): Page {
    PageAt(Andl(e, PTE_ADDR))
  }

  /** ptov */
  function PageAt(paddr: bv32): Page {
    Page(paddr + KERNEL_BASE)
  }

  /** pte_create_user, and with WRITABLE set, pde_create */
  function EntryFor(page: Page, writable: bool): Entry {
    (page.address - KERNEL_BASE) | PTE_P | (if writable then PTE_W else 0) | PTE_U
  }

  lemma EntryPage(page: Page, writable: bool)
    requires IsPage(page)
    ensures PageOf(EntryFor(page, writable)) == page
  {
  }

  lemma EntryFlags(page: Page, writable: bool)
    requires IsPage(page)
    ensures Has(EntryFor(page, writable), PTE_P) && Has(EntryFor(page, writable), PTE_U)
    ensures Has(EntryFor(page, writable), PTE_W) <==> writable
    ensures !Has(EntryFor(page, writable), PTE_A) && !Has(EntryFor(page, writable), PTE_D)
  {
  }

  /** The flags are different bits, and none is an address bit. */
  lemma FlagsApart(bit: bv32, other: bv32)
    requires IsFlag(bit) && IsFlag(other)
    ensures bit != 0 && Andl(bit, PTE_ADDR) == 0
    ensures bit != other ==> Andl(bit, other) == 0
  {
  }

  /** Changing one flag leaves the others and the address alone. */
  lemma FlagChanged(e: Entry, bit: bv32, other: bv32)
    requires IsFlag(bit) && IsFlag(other)
    ensures Has(With(e, bit), other) <==> (bit == other || Has(e, other))
    ensures Has(Without(e, bit), other) <==> (bit != other && Has(e, other))
    ensures PageOf(With(e, bit)) == PageOf(e) && PageOf(Without(e, bit)) == PageOf(e)
  {
    hide Orl, Andl, Not, PageAt, IsFlag;
    FlagsApart(bit, other);
    SetOther(e, bit, PTE_ADDR);
    ClearOther(e, bit, PTE_ADDR);
    if bit == other {
      SetOwn(e, bit);
      ClearOwn(e, bit);
    } else {
      SetOther(e, bit, other);
      ClearOther(e, bit, other);
    }
  }

  /** What an entry says. */
  datatype Slot = Slot(present: bool, page: Page, writable: bool, accessed: bool, dirty: bool)

  function Decode(e: Entry): Slot {
    Slot(Has(e, PTE_P), PageOf(e), Has(e, PTE_W), Has(e, PTE_A), Has(e, PTE_D))
  }

  lemma DecodeCreated(page: Page, writable: bool)
    requires IsPage(page)
    ensures Decode(EntryFor(page, writable)) == Slot(true, page, writable, false, false)
  {
    hide EntryFor, Has, PageOf, IsPage;
    EntryPage(page, writable);
    EntryFlags(page, writable);
  }

  /** Setting or clearing a flag changes that part of the slot only. */
  lemma DecodeChanged(e: Entry)
    ensures Decode(Without(e, PTE_P)) == Decode(e).(present := false)
    ensures Decode(With(e, PTE_A)) == Decode(e).(accessed := true)
    ensures Decode(Without(e, PTE_A)) == Decode(e).(accessed := false)
    ensures Decode(With(e, PTE_D)) == Decode(e).(dirty := true)
    ensures Decode(Without(e, PTE_D)) == Decode(e).(dirty := false)
  {
    hide Has, With, Without, PageOf;
    FlagChanged(e, PTE_P, PTE_P);
    FlagChanged(e, PTE_P, PTE_W);
    FlagChanged(e, PTE_P, PTE_A);
    FlagChanged(e, PTE_P, PTE_D);
    FlagChanged(e, PTE_A, PTE_P);
    FlagChanged(e, PTE_A, PTE_W);
    FlagChanged(e, PTE_A, PTE_A);
    FlagChanged(e, PTE_A, PTE_D);
    FlagChanged(e, PTE_D, PTE_P);
    FlagChanged(e, PTE_D, PTE_W);
    FlagChanged(e, PTE_D, PTE_A);
    FlagChanged(e, PTE_D, PTE_D);
  }

  /* The directory. */

  /** Directory entries below the kernel's: pd_no (PHYS_BASE). */
  const USER_PDES: nat := 768

  /** User pages. */
  const USER_PAGES: nat := 786432

  /** pd_no and pt_no, of the page with number V */
  function PdNo(v: nat): nat {
    v / 1024
  }

  function PtNo(v: nat): (r: nat)
    ensures r < 1024
  {
    v % 1024
  }

  /** A directory and the page tables it points to, by address. */
  datatype Dir = Dir(pd: seq<Entry>, tables: map<Page, seq<Entry>>)

  /** Entry I of the directory is empty or points to a page table of its own. */
  ghost predicate PdeOk(d: Dir, i: nat)
    requires |d.pd| == 1024 && i < 1024
  {
    d.pd[i] != 0 ==> Has(d.pd[i], PTE_P) && PageOf(d.pd[i]) in d.tables && |d.tables[PageOf(d.pd[i])]| == 1024
  }

  ghost predicate Ok(d: Dir) {
    && |d.pd| == 1024
    && (forall i :: 0 <= i < USER_PDES ==> PdeOk(d, i))
    && (forall i, j :: 0 <= i < j < USER_PDES && d.pd[i] != 0 && d.pd[j] != 0 ==> PageOf(d.pd[i]) != PageOf(d.pd[j]))
  }

  /** The entry for user page V, or 0 without a page table. */
  function Raw(d: Dir, v: nat): Entry
    requires Ok(d) && v < USER_PAGES
  {
    assert PdeOk(d, PdNo(v));
    if d.pd[PdNo(v)] == 0 then 0 else d.tables[PageOf(d.pd[PdNo(v)])][PtNo(v)]
  }

  /** The directory as a flat map from user pages. */
  function Flat(d: Dir, v: nat): Slot
    requires Ok(d) && v < USER_PAGES
  {
    Decode(Raw(d, v))
  }

  /** A page table just made, all zeros, for directory entry I. */
  function AddTable(d: Dir, i: nat, pt: Page): Dir
    requires i < |d.pd|
  {
    Dir(d.pd[i := EntryFor(pt, true)], d.tables[pt := seq(1024, _ => 0)])
  }

  lemma AddTableFlat(d: Dir, i: nat, pt: Page)
    requires Ok(d) && i < USER_PDES && d.pd[i] == 0 && IsPage(pt) && pt !in d.tables
    ensures Ok(AddTable(d, i, pt)) && AddTable(d, i, pt).pd[i] != 0
    ensures forall v :: 0 <= v < USER_PAGES ==> Raw(AddTable(d, i, pt), v) == Raw(d, v)
  {
    hide EntryFor, Has, PageOf, IsPage;
    var t := AddTable(d, i, pt);
    EntryPage(pt, true);
    EntryFlags(pt, true);
    NotZero(t.pd[i]);
    forall j | 0 <= j < USER_PDES
      ensures PdeOk(t, j) && (j != i && d.pd[j] != 0 ==> PageOf(t.pd[j]) != PageOf(t.pd[i]))
    {
      assert PdeOk(d, j);
    }
    forall v | 0 <= v < USER_PAGES ensures Raw(t, v) == Raw(d, v) {
      assert PdeOk(d, PdNo(v));
    }
  }

  lemma NotZero(e: Entry)
    requires Has(e, PTE_P)
    ensures e != 0
  {
  }

  /** The entry for page V replaced. */
  function Store(d: Dir, v: nat, e: Entry): Dir
    requires Ok(d) && v < USER_PAGES && d.pd[PdNo(v)] != 0
  {
    assert PdeOk(d, PdNo(v));
    var pt := PageOf(d.pd[PdNo(v)]);
    d.(tables := d.tables[pt := d.tables[pt][PtNo(v) := e]])
  }

  /** Storing an entry changes the flat map at that page and nowhere else. */
  lemma StoreFlat(d: Dir, v: nat, e: Entry)
    requires Ok(d) && v < USER_PAGES && d.pd[PdNo(v)] != 0
    ensures Ok(Store(d, v, e))
    ensures forall u :: 0 <= u < USER_PAGES ==> Raw(Store(d, v, e), u) == if u == v then e else Raw(d, u)
  {
    hide Has, PageOf;
    var t := Store(d, v, e);
    forall j | 0 <= j < USER_PDES ensures PdeOk(t, j) {
      assert PdeOk(d, j);
    }
    forall u | 0 <= u < USER_PAGES ensures Raw(t, u) == if u == v then e else Raw(d, u) {
      assert PdeOk(d, PdNo(u)) && PdeOk(d, PdNo(v));
      assert u == 1024 * PdNo(u) + PtNo(u) && v == 1024 * PdNo(v) + PtNo(v);
    }
  }

  /* Destruction. */

  /** The present pages among the first M entries of a table. */
  function FreedOfTable(t: seq<Entry>, m: nat): seq<Page>
    requires m <= |t|
  {
    if m == 0 then []
    else FreedOfTable(t, m - 1) + if Has(t[m - 1], PTE_P) then [PageOf(t[m - 1])] else []
  }

  /** What the first N directory entries give back: for each table, its pages, then itself. */
  function FreedOf(d: Dir, n: nat): seq<Page>
    requires Ok(d) && n <= USER_PDES
  {
    if n == 0 then []
    else FreedOf(d, n - 1) + FreedOfPde(d, n - 1)
  }

  function FreedOfPde(d: Dir, i: nat): seq<Page>
    requires Ok(d) && i < USER_PDES
  {
    assert PdeOk(d, i);
    if !Has(d.pd[i], PTE_P) then []
    else NotZero(d.pd[i]); FreedOfTable(d.tables[PageOf(d.pd[i])], 1024) + [PageOf(d.pd[i])]
  }

  /** User page V is present and lies in PAGE. */
  ghost predicate Maps(d: Dir, v: nat, page: Page)
    requires Ok(d)
  {
    v < USER_PAGES && Flat(d, v).present && Flat(d, v).page == page
  }

  /** PAGE is the page table of directory entry I. */
  ghost predicate Tables(d: Dir, i: nat, page: Page)
    requires Ok(d)
  {
    i < USER_PDES && d.pd[i] != 0 && PageOf(d.pd[i]) == page
  }

  /** No page is mapped twice, and no page table is mapped. */
  ghost predicate Unshared(d: Dir)
    requires Ok(d)
  {
    && (forall u, v, page :: Maps(d, u, page) && Maps(d, v, page) ==> u == v)
    && (forall v, i, page :: Maps(d, v, page) ==> !Tables(d, i, page))
  }

  lemma {:induction false} TableFreed(t: seq<Entry>, m: nat, page: Page)
    requires m <= |t|
    ensures page in FreedOfTable(t, m) <==> exists k :: 0 <= k < m && Has(t[k], PTE_P) && PageOf(t[k]) == page
  {
    hide Has, PageOf;
    if m > 0 {
      TableFreed(t, m - 1, page);
    }
  }

  lemma {:induction false} TableFreedOnce(t: seq<Entry>, m: nat)
    requires m <= |t|
    requires forall j, k :: 0 <= j < k < |t| && Has(t[j], PTE_P) && Has(t[k], PTE_P) ==> PageOf(t[j]) != PageOf(t[k])
    ensures Distinct(FreedOfTable(t, m))
  {
    hide Has, PageOf;
    if m > 0 {
      TableFreedOnce(t, m - 1);
      if Has(t[m - 1], PTE_P) {
        TableFreed(t, m - 1, PageOf(t[m - 1]));
      }
    }
  }

  /** Page V's entry, found in its table. */
  lemma InTable(d: Dir, i: nat, k: nat)
    requires Ok(d) && i < USER_PDES && k < 1024 && d.pd[i] != 0
    ensures PdeOk(d, i) && 1024 * i + k < USER_PAGES
    ensures Raw(d, 1024 * i + k) == d.tables[PageOf(d.pd[i])][k]
  {
    assert PdNo(1024 * i + k) == i && PtNo(1024 * i + k) == k;
    assert PdeOk(d, i);
  }

  /** PAGE is the table of directory entry I or mapped in it. */
  ghost predicate Gives(d: Dir, i: nat, page: Page)
    requires Ok(d)
  {
    Tables(d, i, page) || exists v :: PdNo(v) == i && Maps(d, v, page)
  }

  lemma PdeFreed(d: Dir, i: nat, page: Page)
    requires Ok(d) && i < USER_PDES
    ensures page in FreedOfPde(d, i) <==> Gives(d, i, page)
  {
    hide Has, PageOf, FreedOfTable;
    assert PdeOk(d, i);
    ZeroNotPresent();
    if d.pd[i] != 0 {
      var t := d.tables[PageOf(d.pd[i])];
      TableFreed(t, 1024, page);
      if page in FreedOfTable(t, 1024) {
        var k :| 0 <= k < 1024 && Has(t[k], PTE_P) && PageOf(t[k]) == page;
        InTable(d, i, k);
        assert PdNo(1024 * i + k) == i && Maps(d, 1024 * i + k, page);
      }
      forall v | PdNo(v) == i && Maps(d, v, page) ensures page in FreedOfTable(t, 1024) {
        InTable(d, i, PtNo(v));
        assert v == 1024 * i + PtNo(v);
        assert Has(t[PtNo(v)], PTE_P) && PageOf(t[PtNo(v)]) == page;
      }
    }
  }

  lemma ZeroNotPresent()
    ensures !Has(0, PTE_P)
  {
  }

  /** pagedir_destroy frees exactly the pages mapped and the page tables. */
  lemma {:induction false} AllFreed(d: Dir, n: nat, page: Page)
    requires Ok(d) && n <= USER_PDES
    ensures page in FreedOf(d, n) <==> exists i: nat :: i < n && Gives(d, i, page)
  {
    hide FreedOfPde, Gives, Ok;
    if n > 0 {
      AllFreed(d, n - 1, page);
      PdeFreed(d, n - 1, page);
    }
  }

  lemma GivesOnce(d: Dir, i: nat, j: nat, page: Page)
    requires Ok(d) && Unshared(d) && i < USER_PDES && j < USER_PDES && Gives(d, i, page) && Gives(d, j, page)
    ensures i == j
  {
    hide Maps, PageOf;
  }

  lemma PdeFreedOnce(d: Dir, i: nat)
    requires Ok(d) && Unshared(d) && i < USER_PDES
    ensures Distinct(FreedOfPde(d, i))
  {
    hide Has, PageOf, FreedOfTable;
    assert PdeOk(d, i);
    ZeroNotPresent();
    if d.pd[i] != 0 {
      var t, pt := d.tables[PageOf(d.pd[i])], PageOf(d.pd[i]);
      forall j, k | 0 <= j < k < 1024 && Has(t[j], PTE_P) && Has(t[k], PTE_P) ensures PageOf(t[j]) != PageOf(t[k]) {
        InTable(d, i, j);
        InTable(d, i, k);
        assert Maps(d, 1024 * i + j, PageOf(t[j])) && Maps(d, 1024 * i + k, PageOf(t[k]));
      }
      TableFreedOnce(t, 1024);
      TableFreed(t, 1024, pt);
      forall k | 0 <= k < 1024 && Has(t[k], PTE_P) ensures PageOf(t[k]) != pt {
        InTable(d, i, k);
        assert Maps(d, 1024 * i + k, PageOf(t[k])) && Tables(d, i, pt);
      }
    }
  }

  /** If nothing is shared, no page is freed twice. */
  lemma {:induction false} FreedOnce(d: Dir, n: nat)
    requires Ok(d) && Unshared(d) && n <= USER_PDES
    ensures Distinct(FreedOf(d, n))
  {
    hide FreedOfPde, Gives, Ok, Unshared;
    if n > 0 {
      FreedOnce(d, n - 1);
      PdeFreedOnce(d, n - 1);
      var a, b := FreedOf(d, n - 1), FreedOfPde(d, n - 1);
      forall page | page in a && page in b ensures false {
        AllFreed(d, n - 1, page);
        PdeFreed(d, n - 1, page);
        var i: nat :| i < n - 1 && Gives(d, i, page);
        GivesOnce(d, i, n - 1, page);
      }
      ConcatDistinct(a, b);
    }
  }

  lemma {:induction false} TableTellsApart(t: seq<Entry>, m: nat, j: nat, k: nat)
    requires j < k < m <= |t| && Distinct(FreedOfTable(t, m)) && Has(t[j], PTE_P) && Has(t[k], PTE_P)
    ensures PageOf(t[j]) != PageOf(t[k])
  {
    hide Has, PageOf;
    DistinctParts(FreedOfTable(t, m - 1), FreedOfTable(t, m)[|FreedOfTable(t, m - 1)|..]);
    assert FreedOfTable(t, m) == FreedOfTable(t, m - 1) + FreedOfTable(t, m)[|FreedOfTable(t, m - 1)|..];
    if k == m - 1 {
      TableFreed(t, m - 1, PageOf(t[j]));
    } else {
      TableTellsApart(t, m - 1, j, k);
    }
  }

  lemma {:induction false} FreedPrefix(d: Dir, m: nat, n: nat)
    requires Ok(d) && m <= n <= USER_PDES
    ensures FreedOf(d, m) <= FreedOf(d, n)
  {
    hide FreedOfPde, Ok;
    if m < n {
      FreedPrefix(d, m, n - 1);
    }
  }

  /** Freed once, a page comes from one directory entry, and once from that. */
  lemma EntriesApart(d: Dir, i: nat, j: nat, page: Page)
    requires Ok(d) && Distinct(FreedOf(d, USER_PDES)) && i < j < USER_PDES && Gives(d, i, page)
    ensures !Gives(d, j, page)
  {
    hide FreedOfPde, Gives, Ok;
    FreedPrefix(d, j + 1, USER_PDES);
    DistinctParts(FreedOf(d, j), FreedOfPde(d, j));
    AllFreed(d, j, page);
    PdeFreed(d, j, page);
  }

  lemma EntryOnce(d: Dir, i: nat)
    requires Ok(d) && Distinct(FreedOf(d, USER_PDES)) && i < USER_PDES
    ensures Distinct(FreedOfPde(d, i))
  {
    hide FreedOfPde, Ok;
    FreedPrefix(d, i + 1, USER_PDES);
    DistinctParts(FreedOf(d, i), FreedOfPde(d, i));
  }

  /** Within one directory entry, freed once means mapped once, and not the table. */
  lemma EntryApart(d: Dir, u: nat, v: nat, page: Page)
    requires Ok(d) && Distinct(FreedOf(d, USER_PDES)) && Maps(d, u, page) && PdNo(u) < USER_PDES
    ensures !Tables(d, PdNo(u), page)
    ensures u < v && PdNo(u) == PdNo(v) ==> !Maps(d, v, page)
  {
    hide Has, PageOf, FreedOfTable;
    var i := PdNo(u);
    EntryOnce(d, i);
    assert PdeOk(d, i);
    ZeroNotPresent();
    var t := d.tables[PageOf(d.pd[i])];
    InTable(d, i, PtNo(u));
    assert u == 1024 * i + PtNo(u);
    TableFreed(t, 1024, page);
    DistinctParts(FreedOfTable(t, 1024), [PageOf(d.pd[i])]);
    if u < v && PdNo(v) == i && Maps(d, v, page) {
      InTable(d, i, PtNo(v));
      assert v == 1024 * i + PtNo(v);
      TableTellsApart(t, 1024, PtNo(u), PtNo(v));
    }
  }

  lemma FreedOnceUnshared(d: Dir)
    requires Ok(d) && Distinct(FreedOf(d, USER_PDES))
    ensures Unshared(d)
  {
    hide Maps, Tables, FreedOf, Ok;
    forall u, v, page | Maps(d, u, page) && Maps(d, v, page) && u < v ensures false {
      OnePlace(d, u, page);
      OnePlace(d, v, page);
      if PdNo(u) < PdNo(v) {
        EntriesApart(d, PdNo(u), PdNo(v), page);
      } else {
        EntryApart(d, u, v, page);
      }
    }
    forall v: nat, i: nat, page | Maps(d, v, page) && Tables(d, i, page) ensures false {
      OnePlace(d, v, page);
      TablePlace(d, i, page);
      if PdNo(v) < i {
        EntriesApart(d, PdNo(v), i, page);
      } else if i < PdNo(v) {
        EntriesApart(d, i, PdNo(v), page);
      } else {
        EntryApart(d, v, v, page);
      }
    }
  }

  lemma OnePlace(d: Dir, v: nat, page: Page)
    requires Ok(d) && Maps(d, v, page)
    ensures PdNo(v) < USER_PDES && Gives(d, PdNo(v), page)
  {
  }

  lemma TablePlace(d: Dir, i: nat, page: Page)
    requires Ok(d) && Tables(d, i, page)
    ensures i < USER_PDES && Gives(d, i, page)
  {
  }

  /** PAGE is mapped or a page table. */
  ghost predicate Given(d: Dir, page: Page)
    requires Ok(d)
  {
    exists i: nat :: i < USER_PDES && Gives(d, i, page)
  }

  /** No page is mapped twice, no page table is mapped, and the directory's own page is
      neither. */
  ghost predicate Clean(d: Dir, own: Page)
    requires Ok(d)
  {
    Unshared(d) && !Given(d, own)
  }

  /** pagedir_destroy frees every page mapped, every page table and the directory, and
      nothing else; it frees none twice if and only if the directory is clean. */
  lemma DestroyFreesOnce(d: Dir, own: Page)
    requires Ok(d)
    ensures var freed := FreedOf(d, USER_PDES) + [own];
      && (Distinct(freed) <==> Clean(d, own))
      && (forall v: nat :: v < USER_PAGES && Flat(d, v).present ==> Flat(d, v).page in freed)
      && (forall i: nat :: i < USER_PDES && d.pd[i] != 0 ==> PageOf(d.pd[i]) in freed)
      && (forall page :: page in freed ==> page == own || Given(d, page))
  {
    hide PageOf, Unshared;
    var a := FreedOf(d, USER_PDES);
    var freed := a + [own];
    AllFreed(d, USER_PDES, own);
    if Clean(d, own) {
      FreedOnce(d, USER_PDES);
      ConcatDistinct(a, [own]);
    }
    if Distinct(freed) {
      DistinctParts(a, [own]);
      FreedOnceUnshared(d);
    }
    forall page | page in freed && page != own ensures Given(d, page) {
      AllFreed(d, USER_PDES, page);
    }
    forall v: nat | v < USER_PAGES && Flat(d, v).present ensures Flat(d, v).page in freed {
      AllFreed(d, USER_PDES, Flat(d, v).page);
      assert Maps(d, v, Flat(d, v).page);
      OnePlace(d, v, Flat(d, v).page);
    }
    forall i: nat | i < USER_PDES && d.pd[i] != 0 ensures PageOf(d.pd[i]) in freed {
      AllFreed(d, USER_PDES, PageOf(d.pd[i]));
      assert Tables(d, i, PageOf(d.pd[i]));
      TablePlace(d, i, PageOf(d.pd[i]));
    }
  }

  lemma CleanIff(d: Dir, own: Page)
    requires Ok(d)
    ensures Distinct(FreedOf(d, USER_PDES) + [own]) <==> Clean(d, own)
  {
    DestroyFreesOnce(d, own);
  }

  /** A clean directory stays clean when mappings only go. */
  lemma CleanShrinks(d: Dir, t: Dir, own: Page)
    requires Ok(d) && Ok(t) && t.pd == d.pd && Clean(d, own)
    requires forall u :: 0 <= u < USER_PAGES && Flat(t, u).present ==>
      Flat(d, u).present && Flat(d, u).page == Flat(t, u).page
    ensures Clean(t, own)
  {
    hide Flat, Ok, PageOf;
    forall u: nat, page | Maps(t, u, page) ensures Maps(d, u, page) {
      StillThere(d, t, u, page);
    }
    forall i: nat, page ensures Tables(t, i, page) <==> Tables(d, i, page) {
    }
    forall i: nat | i < USER_PDES && Gives(t, i, own) ensures Gives(d, i, own) {
    }
  }

  lemma StillThere(d: Dir, t: Dir, u: nat, page: Page)
    requires Ok(d) && Ok(t) && Maps(t, u, page)
    requires u < USER_PAGES && Flat(t, u).present ==> Flat(d, u).present && Flat(d, u).page == Flat(t, u).page
    ensures Maps(d, u, page)
  {
  }

  /** A new page table that is nothing yet keeps a directory clean. */
  lemma CleanTable(d: Dir, i: nat, pt: Page, own: Page)
    requires Ok(d) && i < USER_PDES && d.pd[i] == 0 && IsPage(pt) && pt !in d.tables
    ensures Ok(AddTable(d, i, pt))
    ensures forall page :: Given(AddTable(d, i, pt), page) ==> Given(d, page) || page == pt
    ensures Clean(d, own) && !Given(d, pt) && pt != own ==> Clean(AddTable(d, i, pt), own)
  {
    hide IsPage, PageOf, EntryFor;
    AddTableFlat(d, i, pt);
    EntryPage(pt, true);
    var t := AddTable(d, i, pt);
    hide Flat, Ok, AddTable, Raw;
    TablesAdded(d, i, pt);
    forall page | Given(t, page) ensures Given(d, page) || page == pt {
      var j: nat :| j < USER_PDES && Gives(t, j, page);
      assert page != pt ==> Gives(d, j, page);
    }
    if Clean(d, own) && !Given(d, pt) && pt != own {
      forall v: nat, j: nat, page | Maps(t, v, page) && Tables(t, j, page) ensures false {
        assert Maps(d, v, page);
        OnePlace(d, v, page);
      }
    }
  }

  lemma TablesAdded(d: Dir, i: nat, pt: Page)
    requires Ok(d) && i < USER_PDES && d.pd[i] == 0 && IsPage(pt) && pt !in d.tables
    ensures Ok(AddTable(d, i, pt))
    ensures forall v: nat, page :: Maps(AddTable(d, i, pt), v, page) <==> Maps(d, v, page)
    ensures forall j: nat, page :: Tables(AddTable(d, i, pt), j, page) ==> Tables(d, j, page) || page == pt
  {
    hide IsPage, PageOf, EntryFor, Decode;
    AddTableFlat(d, i, pt);
    EntryPage(pt, true);
  }

  /** Mapping a page that is nothing yet, where none is mapped, keeps a directory clean. */
  lemma CleanMapped(d: Dir, t: Dir, v: nat, page: Page, own: Page)
    requires Ok(d) && Ok(t) && t.pd == d.pd && v < USER_PAGES && Clean(d, own) && !Given(d, page) && page != own
    requires forall u :: 0 <= u < USER_PAGES && u != v ==> Flat(t, u) == Flat(d, u)
    requires Flat(t, v).page == page
    ensures Clean(t, own)
  {
    hide Flat, Ok, PageOf;
    forall u: nat, p | Maps(t, u, p) ensures Maps(d, u, p) || (u == v && p == page) {
      MappedOrNew(d, t, u, v, p);
    }
    forall i: nat, p ensures Tables(t, i, p) <==> Tables(d, i, p) {
    }
    forall u: nat, p | Maps(d, u, p) ensures p != page {
      OnePlace(d, u, p);
    }
    forall i: nat, p | Tables(d, i, p) ensures p != page {
      TablePlace(d, i, p);
    }
    forall i: nat | i < USER_PDES && Gives(t, i, own) ensures Gives(d, i, own) {
    }
  }

  lemma MappedOrNew(d: Dir, t: Dir, u: nat, v: nat, p: Page)
    requires Ok(d) && Ok(t) && Maps(t, u, p)
    requires u < USER_PAGES && u != v ==> Flat(t, u) == Flat(d, u)
    ensures Maps(d, u, p) || u == v
    ensures u == v ==> v < USER_PAGES && p == Flat(t, v).page
  {
  }

  /** A directory that maps one page twice, and so frees it twice. */
  lemma SharedFreedTwice() returns (d: Dir, own: Page)
    ensures Ok(d) && Flat(d, 0).present && Flat(d, 1) == Flat(d, 0)
    ensures !Distinct(FreedOf(d, USER_PDES) + [own])
  {
    var pt, page := Page(0xc000_1000), Page(0xc000_2000);
    own := Page(0xc000_3000);
    var d0 := Dir(seq(1024, _ => 0), map[]);
    hide EntryFor, PageOf, FreedOf, Has;
    AddTableFlat(d0, 0, pt);
    var d1 := AddTable(d0, 0, pt);
    var e := EntryFor(page, true);
    StoreFlat(d1, 0, e);
    var d2 := Store(d1, 0, e);
    StoreFlat(d2, 1, e);
    d := Store(d2, 1, e);
    assert Raw(d, 0) == e && Raw(d, 1) == e;
    DecodeCreated(page, true);
    assert Maps(d, 0, page) && Maps(d, 1, page);
    DestroyFreesOnce(d, own);
  }

  /* The routines.  Addresses are given by page number. */

  class PageDir {
    /** The directory's own page. */
    const own: Page
    var pd: seq<Entry>
    var tables: map<Page, seq<Entry>>

    ghost function Contents(): Dir
      reads this
    {
      Dir(pd, tables)
    }

    ghost predicate Valid()
      reads this
    {
      Ok(Contents())
    }

    /** PAGE is not part of this directory. */
    ghost predicate Unused(page: Page)
      requires Valid()
      reads this
    {
      page != own && !Given(Contents(), page)
    }

    /** pagedir_create: a copy of the initial directory, which maps no user page. */
    constructor (own: Page, init: seq<Entry>)
      requires |init| == 1024 && forall i :: 0 <= i < USER_PDES ==> init[i] == 0
      ensures Valid() && this.own == own && forall v :: 0 <= v < USER_PAGES ==> !Flat(Contents(), v).present
      ensures Clean(Contents(), own)
    {
      this.own := own;
      pd, tables := init, map[];
      new;
      ZeroNotPresent();
    }

    /** lookup_page: whether there is a page table for page V, one being made if CREATE asks
        for it and memory NEWTABLE is there.  No mapping changes. */
    method LookupPage(v: nat, create: bool, newTable: Option<Page>) returns (found: bool)
      requires Valid() && v < USER_PAGES
      requires newTable.Some? ==> IsPage(newTable.value) && newTable.value !in tables
      modifies this
      ensures Valid() && (found <==> pd[PdNo(v)] != 0)
      ensures found <==> old(pd[PdNo(v)]) != 0 || (create && newTable.Some?)
      ensures !create ==> pd == old(pd) && tables == old(tables)
      ensures forall u :: 0 <= u < USER_PAGES ==> Raw(Contents(), u) == old(Raw(Contents(), u))
      ensures forall page :: Given(Contents(), page) ==> old(Given(Contents(), page)) || newTable == Some(page)
      ensures old(Clean(Contents(), own)) && (newTable.Some? ==> old(Unused(newTable.value))) ==> Clean(Contents(), own)
    {
      hide Raw, EntryFor, IsPage, Given, Unshared;
      if pd[PdNo(v)] == 0 {
        if !create || newTable.None? {
          return false;
        }
        var pt := newTable.value;
        AddTableFlat(Contents(), PdNo(v), pt);
        CleanTable(Contents(), PdNo(v), pt, own);
        pd, tables := pd[PdNo(v) := EntryFor(pt, true)], tables[pt := seq(1024, _ => 0)];
      }
      return true;
    }

    method Load(v: nat) returns (e: Entry)
      requires Valid() && v < USER_PAGES && pd[PdNo(v)] != 0
      ensures e == Raw(Contents(), v)
    {
      assert PdeOk(Contents(), PdNo(v));
      e := tables[PageOf(pd[PdNo(v)])][PtNo(v)];
    }

    method Update(v: nat, e: Entry)
      requires Valid() && v < USER_PAGES && pd[PdNo(v)] != 0
      modifies this
      ensures Valid() && pd == old(pd)
      ensures forall u :: 0 <= u < USER_PAGES ==> Raw(Contents(), u) == if u == v then e else old(Raw(Contents(), u))
    {
      hide Raw;
      StoreFlat(Contents(), v, e);
      assert PdeOk(Contents(), PdNo(v));
      var pt := PageOf(pd[PdNo(v)]);
      tables := tables[pt := tables[pt][PtNo(v) := e]];
    }

    /** pagedir_set_page: maps page V, which must not be present, and no other. */
    method SetPage(v: nat, kpage: Page, writable: bool, newTable: Option<Page>) returns (ok: bool)
      requires Valid() && v < USER_PAGES && IsPage(kpage) && !Flat(Contents(), v).present
      requires newTable.Some? ==> IsPage(newTable.value) && newTable.value !in tables
      modifies this
      ensures Valid() && (ok <==> old(pd[PdNo(v)]) != 0 || newTable.Some?)
      ensures forall u :: 0 <= u < USER_PAGES ==>
        Flat(Contents(), u) ==
          if ok && u == v then Slot(true, kpage, writable, false, false) else old(Flat(Contents(), u))
      ensures (&& old(Clean(Contents(), own) && Unused(kpage)) && newTable != Some(kpage)
               && (newTable.Some? ==> old(Unused(newTable.value)))) ==> Clean(Contents(), own)
    {
      hide Raw, Decode, IsPage, EntryFor, Given, Unshared;
      ok := LookupPage(v, true, newTable);
      if ok {
        ghost var d := Contents();
        DecodeCreated(kpage, writable);
        Update(v, EntryFor(kpage, writable));
        if Clean(d, own) && !Given(d, kpage) && kpage != own {
          CleanMapped(d, Contents(), v, kpage, own);
        }
      }
    }

    /** pagedir_get_page: where user address UADDR lies, if its page is present, as a page and
        an offset in it. */
    method GetPage(uaddr: nat) returns (r: Option<(Page, nat)>)
      requires Valid() && uaddr < PHYS_BASE
      modifies this
      ensures pd == old(pd) && tables == old(tables)
      ensures var slot := Flat(Contents(), PgNo(uaddr));
        r == if slot.present then Some((slot.page, PgOfs(uaddr))) else None
    {
      ZeroNotPresent();
      var v := PgNo(uaddr);
      var found := LookupPage(v, false, None);
      if !found {
        return None;
      }
      var e := Load(v);
      r := if Has(e, PTE_P) then Some((PageOf(e), PgOfs(uaddr))) else None;
    }

    /** pagedir_clear_page: page V is no longer present; its other bits stay. */
    method ClearPage(v: nat)
      requires Valid() && v < USER_PAGES
      modifies this
      ensures Valid()
      ensures forall u :: 0 <= u < USER_PAGES ==>
        Flat(Contents(), u) == if u == v then old(Flat(Contents(), u)).(present := false) else old(Flat(Contents(), u))
      ensures old(Clean(Contents(), own)) ==> Clean(Contents(), own)
    {
      hide Given, Unshared;
      ghost var d := Contents();
      var found := LookupPage(v, false, None);
      ZeroNotPresent();
      if found {
        var e := Load(v);
        if Has(e, PTE_P) {
          DecodeChanged(e);
          Update(v, Without(e, PTE_P));
          if Clean(d, own) {
            CleanShrinks(d, Contents(), own);
          }
        }
      }
    }

    /** pagedir_is_dirty and pagedir_is_accessed, of the entry present or not */
    method IsSet(v: nat, bit: bv32) returns (r: bool)
      requires Valid() && v < USER_PAGES && (bit == PTE_A || bit == PTE_D)
      modifies this
      ensures pd == old(pd) && tables == old(tables)
      ensures r == if bit == PTE_D then Flat(Contents(), v).dirty else Flat(Contents(), v).accessed
    {
      var found := LookupPage(v, false, None);
      if !found {
        return false;
      }
      var e := Load(v);
      r := Has(e, bit);
    }

    /** pagedir_set_dirty and pagedir_set_accessed: that bit of page V, if it has a page
        table, and nothing else. */
    method SetBit(v: nat, bit: bv32, value: bool)
      requires Valid() && v < USER_PAGES && (bit == PTE_A || bit == PTE_D)
      modifies this
      ensures Valid() && pd == old(pd)
      ensures forall u :: 0 <= u < USER_PAGES ==>
        Flat(Contents(), u) ==
          if u != v || pd[PdNo(v)] == 0 then old(Flat(Contents(), u))
          else if bit == PTE_D then old(Flat(Contents(), u)).(dirty := value)
          else old(Flat(Contents(), u)).(accessed := value)
      ensures old(Clean(Contents(), own)) ==> Clean(Contents(), own)
    {
      hide Raw, Decode, With, Without, Given, Unshared;
      ghost var d := Contents();
      var found := LookupPage(v, false, None);
      if found {
        var e := Load(v);
        DecodeChanged(e);
        Update(v, if value then With(e, bit) else Without(e, bit));
        if Clean(d, own) {
          CleanShrinks(d, Contents(), own);
        }
      }
    }

    /** pagedir_destroy: the pages freed, in order. */
    method Destroy() returns (freed: seq<Page>)
      requires Valid()
      ensures freed == FreedOf(Contents(), USER_PDES) + [own]
      ensures Distinct(freed) <==> Clean(Contents(), own)
    {
      hide Clean, Distinct;
      freed := [];
      var i := 0;
      while i < USER_PDES
        invariant 0 <= i <= USER_PDES && freed == FreedOf(Contents(), i)
      {
        assert PdeOk(Contents(), i);
        if Has(pd[i], PTE_P) {
          NotZero(pd[i]);
          ghost var before := freed;
          var pt := PageOf(pd[i]);
          var t := tables[pt];
          var k := 0;
          while k < 1024
            invariant 0 <= k <= 1024 && freed == before + FreedOfTable(t, k)
          {
            if Has(t[k], PTE_P) {
              freed := freed + [PageOf(t[k])];
            }
            k := k + 1;
          }
          freed := freed + [pt];
        }
        i := i + 1;
      }
      freed := freed + [own];
      CleanIff(Contents(), own);
    }
  }
}
