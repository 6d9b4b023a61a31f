/** The ustar archive headers of lib/ustar.c, made and parsed. */
module Ustar {
  import opened Sequences
  import opened Arithmetic
  import opened CString
  import opened Printf

  const SLASH: Byte := 47
  const DOT: Byte := 46

  /** A C string, without its terminator. */
  predicate IsName(s: Text) {
    0 !in s
  }

  /* Names. */

  /** S starts with "/", "./" or "../". */
  predicate Antisocial(s: Text) {
    || (|s| >= 1 && s[0] == SLASH)
    || (|s| >= 2 && s[0] == DOT && s[1] == SLASH)
    || (|s| >= 3 && s[0] == DOT && s[1] == DOT && s[2] == SLASH)
  }

  function AfterSlash(s: Text): (r: Text)
    requires SLASH in s
    ensures |r| < |s| && r == s[|s| - |r|..]
  {
    if s[0] == SLASH then s[1..] else AfterSlash(s[1..])
  }

  function Dropped(s: Text): (r: Text)
    ensures !Antisocial(r) && |r| <= |s| && r == s[|s| - |r|..]
    decreases |s|
  {
    if Antisocial(s) then Dropped(AfterSlash(s)) else s
  }

  /** The name without the prefixes that lead out of the archive's directory. */
  function Stripped(s: Text): (r: Text)
    ensures r != [] && r != [DOT, DOT] && !Antisocial(r) && (IsName(s) ==> IsName(r))
  {
    var t := Dropped(s);
    if t == [] || t == [DOT, DOT] then [DOT] else t
  }

  lemma StripTwice(s: Text)
    ensures Stripped(Stripped(s)) == Stripped(s)
  {
  }

  /** The length of the component that is empty, "." or "..", with its slash, that S starts
      with, or 0. */
  function Component(s: Text): (k: nat)
    ensures k <= |s|
    ensures k > 0 <==> Antisocial(s)
  {
    if |s| >= 1 && s[0] == SLASH then 1
    else if |s| >= 2 && s[0] == DOT && s[1] == SLASH then 2
    else if |s| >= 3 && s[0] == DOT && s[1] == DOT && s[2] == SLASH then 3
    else 0
  }

  /** P is made up of such components. */
  predicate Climbs(p: Text)
    decreases |p|
  {
    p == [] || (Component(p) > 0 && Climbs(p[Component(p)..]))
  }

  /** The name R of what is left after such components is what there is, or ".". */
  predicate NameOf(rest: Text, r: Text) {
    r == if rest == [] || rest == [DOT, DOT] then [DOT] else rest
  }

  /** What is dropped are such components and nothing else. */
  lemma {:induction false} DropsClimbs(s: Text)
    ensures Climbs(s[..|s| - |Dropped(s)|])
    decreases |s|
  {
    hide Dropped, AfterSlash, Antisocial, Climbs, Component;
    DropStep(s);
    var k := Component(s);
    if k > 0 {
      DropsClimbs(s[k..]);
      ClimbsMore(s, |s| - |Dropped(s)|);
    } else {
      NoClimb(s[..0]);
    }
  }

  lemma NoClimb(p: Text)
    requires p == []
    ensures Climbs(p)
  {
  }

  lemma ClimbsMore(s: Text, n: nat)
    requires 0 < Component(s) <= n <= |s| && Climbs(s[Component(s)..][..n - Component(s)])
    ensures Climbs(s[..n])
  {
    var k, p := Component(s), s[..n];
    assert Component(p) == k;
    assert p[k..] == s[k..][..n - k];
  }

  lemma DropStep(s: Text)
    ensures Dropped(s) == if Component(s) > 0 then Dropped(s[Component(s)..]) else s
    ensures Component(s) > 0 ==> |Dropped(s)| <= |s| - Component(s)
  {
    hide Dropped;
    if Component(s) > 0 {
      AfterComponent(s);
      HasSlash(s);
    } else {
      NothingDropped(s);
    }
  }

  lemma NothingDropped(s: Text)
    requires !Antisocial(s)
    ensures Dropped(s) == s
  {
  }

  lemma AfterComponent(s: Text)
    requires Component(s) > 0
    ensures SLASH in s && AfterSlash(s) == s[Component(s)..]
  {
    hide AfterSlash;
    AfterSlashAt(s, Component(s));
  }

  lemma {:induction false} AfterSlashAt(s: Text, k: nat)
    requires 0 < k <= |s| && s[k - 1] == SLASH && forall i :: 0 <= i < k - 1 ==> s[i] != SLASH
    ensures SLASH in s && AfterSlash(s) == s[k..]
    decreases k
  {
    if k > 1 {
      AfterSlashAt(s[1..], k - 1);
      assert s[1..][k - 1..] == s[k..];
    }
  }

  /** And all of them are: whatever follows such components and does not start with one is what
      is left. */
  lemma {:induction false} DropsAll(p: Text, rest: Text)
    requires Climbs(p) && !Antisocial(rest)
    ensures Dropped(p + rest) == rest
    decreases |p|
  {
    hide Dropped, AfterSlash, Antisocial;
    if p == [] {
      assert p + rest == rest;
      NothingDropped(rest);
    } else {
      var k := Component(p);
      ComponentStays(p, rest);
      DropStep(p + rest);
      assert (p + rest)[k..] == p[k..] + rest;
      DropsAll(p[k..], rest);
    }
  }

  lemma ComponentStays(p: Text, rest: Text)
    requires Component(p) > 0
    ensures Component(p + rest) == Component(p)
  {
  }

  /** The stripped name is what follows the longest run of components that are empty, "." or
      "..", or "." if that is nothing or ".."; a name that starts with none is kept. */
  lemma StripsExactly(p: Text, rest: Text)
    requires Climbs(p) && !Antisocial(rest)
    ensures NameOf(rest, Stripped(p + rest))
    ensures rest != [] && rest != [DOT, DOT] ==> Stripped(rest) == rest
  {
    hide Dropped, Climbs, Antisocial;
    DropsAll(p, rest);
    NothingDropped(rest);
  }

  /** strchr, for a slash: where the first one from POS on is. */
  method FindSlash(name: Text, pos: nat) returns (q: nat)
    requires pos <= |name| && SLASH in name[pos..]
    ensures pos <= q < |name| && AfterSlash(name[pos..]) == name[q + 1..]
  {
    hide AfterSlash;
    q := pos;
    while name[q] != SLASH
      invariant pos <= q < |name| && SLASH in name[q..] && AfterSlash(name[q..]) == AfterSlash(name[pos..])
      decreases |name| - q
    {
      NextChar(name, q);
      q := q + 1;
    }
    NextChar(name, q);
  }

  lemma NextChar(name: Text, q: nat)
    requires q < |name| && SLASH in name[q..]
    ensures if name[q] == SLASH then AfterSlash(name[q..]) == name[q + 1..]
      else SLASH in name[q + 1..] && AfterSlash(name[q..]) == AfterSlash(name[q + 1..])
  {
    assert name[q..][1..] == name[q + 1..];
    assert name[q..] == [name[q]] + name[q + 1..];
  }

  /** strip_antisocial_prefixes */
  method StripPrefixes(name: Text) returns (r: Text)
    ensures r == Stripped(name)
    ensures exists n: nat :: n <= |name| && Climbs(name[..n]) && !Antisocial(name[n..]) && NameOf(name[n..], r)
  {
    hide AfterSlash, Antisocial, Climbs, Dropped;
    var pos := 0;
    while Antisocial(name[pos..])
      invariant 0 <= pos <= |name| && Dropped(name) == Dropped(name[pos..])
      decreases |name| - pos
    {
      HasSlash(name[pos..]);
      pos := FindSlash(name, pos);
      pos := pos + 1;
    }
    var rest := name[pos..];
    NothingDropped(rest);
    DropsClimbs(name);
    r := if rest == [] || rest == [DOT, DOT] then [DOT] else rest;
  }

  lemma HasSlash(s: Text)
    requires Antisocial(s)
    ensures SLASH in s && Dropped(s) == Dropped(AfterSlash(s))
  {
  }

  /* Octal fields. */

  /** VALUE in WIDTH octal digits. */
  function Octal(width: nat, value: nat): (r: Text)
    ensures |r| == width
  {
    if width == 0 then [] else Octal(width - 1, value / 8) + [ZERO + value % 8]
  }

  function OctalConversion(width: nat): Conversion {
    Conversion(false, false, false, false, true, false, width, -1)
  }

  lemma OctalBase()
    ensures BaseOk(OCTAL) && forall d :: 0 <= d < 8 ==> OCTAL.digits[d] == ZERO + d
  {
  }

  /** What printf makes of VALUE under %0WIDTHo. */
  lemma PrintsOctal(width: nat, value: nat)
    requires width > 0 && value < Pow8(width)
    ensures BaseOk(OCTAL) && Rendered(value, false, false, OCTAL, OctalConversion(width)) == Octal(width, value)
  {
    OctalBase();
    hide FromRight, BaseOk, Reversed, Octal;
    var ds, c := FromRight(value, OCTAL, false, 0), OctalConversion(width);
    PadsOctal(width, value, 0);
    OctalNumeral(value, c);
    var pad := width - |Buffered(value, OCTAL, c)|;
    var numeral := Reversed(Buffered(value, OCTAL, c));
    assert [] + [] + [] + Times(ZERO, pad) + numeral + [] == Times(ZERO, pad) + numeral;
    if value == 0 {
      assert Times(ZERO, width) == Times(ZERO, width - 1) + [ZERO];
    }
  }

  lemma OctalNumeral(value: nat, c: Conversion)
    requires BaseOk(OCTAL) && !c.group && !c.pound && c.precision == -1
    ensures var ds := FromRight(value, OCTAL, false, 0);
      && (value == 0 ==> ds == [] && Reversed(ds) == [] && Reversed([ZERO]) == [ZERO])
      && (value > 0 ==> ds != [])
      && Buffered(value, OCTAL, c) == if value == 0 then [ZERO] else ds
  {
    assert Times(ZERO, 1) == [ZERO];
    assert Reversed([ZERO]) == Reversed([]) + [ZERO];
  }

  lemma {:induction false} PadsOctal(width: nat, value: nat, cnt: nat)
    requires value < Pow8(width) && BaseOk(OCTAL)
    ensures |FromRight(value, OCTAL, false, cnt)| <= width
    ensures Times(ZERO, width - |FromRight(value, OCTAL, false, cnt)|) + Reversed(FromRight(value, OCTAL, false, cnt))
      == Octal(width, value)
  {
    OctalBase();
    var ds := FromRight(value, OCTAL, false, cnt);
    if width > 0 {
      PadsOctal(width - 1, value / 8, cnt + 1);
      var rest := FromRight(value / 8, OCTAL, false, cnt + 1);
      if value > 0 {
        assert ds == [ZERO + value % 8] + rest;
        assert ds[1..] == rest;
      } else {
        assert Times(ZERO, width) == Times(ZERO, width - 1) + [ZERO];
      }
    }
  }

  /** parse_octal_field from offset OFS on, with VALUE so far. */
  function OctalValue(s: Text, ofs: nat, value: nat): Option<nat>
    requires ofs <= |s|
    decreases |s| - ofs
  {
    if ofs == |s| then None
    else if ZERO <= s[ofs] <= ZERO + 7 then
      if value > 0xffff_ffff / 8 then None else OctalValue(s, ofs + 1, s[ofs] - ZERO + value * 8)
    else if s[ofs] == SPACE || s[ofs] == 0 then
      if ofs > 0 then Some(value) else None
    else None
  }

  predicate OctalDigits(s: Text) {
    forall i :: 0 <= i < |s| ==> ZERO <= s[i] <= ZERO + 7
  }

  /** The number that octal digits stand for. */
  function Base8(ds: Text): nat
    requires OctalDigits(ds)
  {
    if ds == [] then 0 else Base8(ds[..|ds| - 1]) * 8 + (ds[|ds| - 1] - ZERO)
  }

  /** S starts with N octal digits, which stand for V, and a space or null after them. */
  predicate IsField(s: Text, n: nat, v: nat) {
    && 0 < n < |s| && OctalDigits(s[..n]) && (s[n] == SPACE || s[n] == 0)
    && Base8(s[..n]) == v <= 0xffff_ffff
  }

  lemma Base8Step(s: Text, n: nat)
    requires n < |s| && OctalDigits(s[..n + 1])
    ensures OctalDigits(s[..n]) && Base8(s[..n + 1]) == Base8(s[..n]) * 8 + (s[n] - ZERO)
  {
    assert s[..n + 1][..n] == s[..n] && s[..n + 1][n] == s[n];
    assert forall i :: 0 <= i < n ==> s[..n][i] == s[..n + 1][i];
  }

  lemma {:induction false} Base8Grows(s: Text, i: nat, n: nat)
    requires i < n <= |s| && OctalDigits(s[..n])
    ensures OctalDigits(s[..i]) && Base8(s[..i]) * 8 <= Base8(s[..n])
    decreases n
  {
    Base8Step(s, n - 1);
    if i < n - 1 {
      Base8Grows(s, i, n - 1);
    }
  }

  lemma FieldDigit(s: Text, n: nat, v: nat, i: nat)
    requires IsField(s, n, v) && i < n
    ensures ZERO <= s[i] <= ZERO + 7
  {
    assert s[i] == s[..n][i];
  }

  /** From offset OFS, after digits that stand for VALUE. */
  lemma {:induction false} FieldFrom(s: Text, ofs: nat, v: nat)
    requires ofs <= |s| && OctalDigits(s[..ofs]) && Base8(s[..ofs]) <= 0xffff_ffff
    ensures OctalValue(s, ofs, Base8(s[..ofs])) == Some(v) <==> exists n :: ofs <= n && IsField(s, n, v)
    decreases |s| - ofs
  {
    var value := Base8(s[..ofs]);
    if ofs < |s| && ZERO <= s[ofs] <= ZERO + 7 {
      assert OctalDigits(s[..ofs + 1]);
      forall n | ofs <= n && IsField(s, n, v) ensures ofs + 1 <= n && value <= 0xffff_ffff / 8 {
        Base8Grows(s, ofs, n);
      }
      if value <= 0xffff_ffff / 8 {
        Base8Step(s, ofs);
        FieldFrom(s, ofs + 1, v);
      }
    } else {
      forall n | ofs < n && IsField(s, n, v) ensures false {
        FieldDigit(s, n, v, ofs);
      }
      if OctalValue(s, ofs, value) == Some(v) {
        assert IsField(s, ofs, v);
      }
    }
  }

  /** What parse_octal_field accepts, and the value it gives. */
  lemma OctalValueIff(s: Text, v: nat)
    ensures OctalValue(s, 0, 0) == Some(v) <==> exists n :: IsField(s, n, v)
  {
    FieldFrom(s, 0, v);
    assert s[..0] == [];
  }

  /** Reading WIDTH octal digits and a terminator gives back the value. */
  lemma OctalRoundTrip(width: nat, value: nat)
    requires width > 0 && value < Pow8(width) && value <= 0xffff_ffff
    ensures OctalValue(Octal(width, value) + [0], 0, 0) == Some(value)
  {
    ReadsOctal(width, value, [0]);
  }

  /** After the digits of VALUE, the value read is VALUE. */
  lemma {:induction false} ReadsOctal(width: nat, value: nat, rest: Text)
    requires value < Pow8(width) && value <= 0xffff_ffff
    ensures OctalValue(Octal(width, value) + rest, 0, 0) == OctalValue(Octal(width, value) + rest, width, value)
    decreases width
  {
    if width > 0 {
      var d := ZERO + value % 8;
      var s := Octal(width, value) + rest;
      assert s == Octal(width - 1, value / 8) + ([d] + rest);
      ReadsOctal(width - 1, value / 8, [d] + rest);
      assert s[width - 1] == d;
    }
  }

  /* Headers: where the fields are. */

  const HEADER_SIZE: nat := 512
  const NAME: nat := 0
  const MODE: nat := 100
  const UID: nat := 108
  const GID: nat := 116
  const SIZE: nat := 124
  const MTIME: nat := 136
  const CHKSUM: nat := 148
  const TYPEFLAG: nat := 156
  const MAGIC: nat := 257
  const VERSION: nat := 263
  const UNAME: nat := 265
  const GNAME: nat := 297
  const PREFIX: nat := 345

  const USTAR: Text := [117, 115, 116, 97, 114]
  const ROOT: Text := [114, 111, 111, 116]

  datatype FileType = Regular | Directory

  function Flag(t: FileType): Byte {
    if t.Regular? then 48 else 53
  }

  /** H with B written at OFS. */
  function Put(h: Text, ofs: nat, b: Text): (r: Text)
    requires ofs + |b| <= |h|
    ensures |r| == |h|
    ensures forall k :: 0 <= k < |h| ==> r[k] == if ofs <= k < ofs + |b| then b[k - ofs] else h[k]
  {
    h[..ofs] + b + h[ofs + |b|..]
  }

  /** strlcpy or snprintf into a field of SIZE bytes. */
  function Terminated(s: Text, size: nat): (r: Text)
    requires size > 0
    ensures |r| <= size
  {
    (if |s| < size then s else s[..size - 1]) + [0]
  }

  /** The sum of the first N bytes, the checksum field taken as spaces. */
  function Sum(h: Text, n: nat): nat
    requires n <= |h|
  {
    if n == 0 then 0
    else Sum(h, n - 1) + if CHKSUM <= n - 1 < TYPEFLAG then SPACE else h[n - 1]
  }

  /** A header whose checksum is still to come. */
  function Unsummed(name: Text, t: FileType, size: int): (r: Text)
    ensures |r| == HEADER_SIZE
  {
    var h := Times(0, HEADER_SIZE);
    var h := Put(h, NAME, Terminated(name, 100));
    var h := Put(h, MODE, Terminated(Octal(7, if t.Regular? then 420 else 493), 8));
    var h := Put(h, UID, Terminated(Times(ZERO, 7), 8));
    var h := Put(h, GID, Terminated(Times(ZERO, 7), 8));
    var h := Put(h, SIZE, Terminated(Octal(11, Wrap32(size)), 12));
    var h := Put(h, MTIME, Terminated(Octal(11, 1136102400), 12));
    var h := Put(h, TYPEFLAG, [Flag(t)]);
    var h := Put(h, MAGIC, Terminated(USTAR, 6));
    var h := Put(h, VERSION, [ZERO, ZERO]);
    var h := Put(h, GNAME, Terminated(ROOT, 32));
    Put(h, UNAME, Terminated(ROOT, 32))
  }

  /** The header ustar_make_header writes, for a name already stripped. */
  function Header(name: Text, t: FileType, size: int): (r: Text)
    ensures |r| == HEADER_SIZE
  {
    var h := Unsummed(name, t, size);
    Put(h, CHKSUM, Terminated(Octal(7, Sum(h, HEADER_SIZE)), 8))
  }

  /** What ustar_parse_header finds. */
  datatype Parsed = EndOfArchive | Entry(name: Text, kind: FileType, size: nat)
    | NotUstar | InvalidVersion | CorruptChecksum | ChecksumMismatch | NameTooLong
    | UnimplementedType | CorruptSize | TooLarge

  function Parse(h: Text): Parsed
    requires |h| == HEADER_SIZE
  {
    if h == Times(0, HEADER_SIZE) then EndOfArchive
    else if h[MAGIC..VERSION] != USTAR + [0] then NotUstar
    else if h[VERSION] != ZERO || h[VERSION + 1] != ZERO then InvalidVersion
    else match OctalValue(h[CHKSUM..TYPEFLAG], 0, 0)
      case None => CorruptChecksum
      case Some(sum) =>
        if sum != Sum(h, HEADER_SIZE) then ChecksumMismatch
        else if h[MODE - 1] != 0 || h[PREFIX] != 0 then NameTooLong
        else if h[TYPEFLAG] == Flag(Directory) then Entry(Stripped(StringAt(h, NAME)), Directory, 0)
        else if h[TYPEFLAG] != Flag(Regular) then UnimplementedType
        else match OctalValue(h[SIZE..MTIME], 0, 0)
          case None => CorruptSize
          case Some(size) =>
            if size > 0x7fff_ffff then TooLarge else Entry(Stripped(StringAt(h, NAME)), Regular, size)
  }

  /* What a header made here looks like to the parser. */

  lemma {:induction false} SumSame(g: Text, h: Text, n: nat)
    requires n <= |g| == |h|
    requires forall k :: 0 <= k < |g| && !(CHKSUM <= k < TYPEFLAG) ==> g[k] == h[k]
    ensures Sum(g, n) == Sum(h, n)
  {
    if n > 0 {
      SumSame(g, h, n - 1);
    }
  }

  lemma {:induction false} SumBound(h: Text, n: nat)
    requires n <= |h|
    ensures Sum(h, n) <= 255 * n
  {
    if n > 0 {
      SumBound(h, n - 1);
    }
  }

  lemma UnsummedFields(name: Text, t: FileType, size: int)
    requires |name| <= 99
    ensures var h := Unsummed(name, t, size);
      && (forall k :: 0 <= k < |name| ==> h[k] == name[k]) && h[|name|] == 0 && h[MODE - 1] == 0
      && h[SIZE..MTIME] == Octal(11, Wrap32(size)) + [0]
      && h[TYPEFLAG] == Flag(t) && h[PREFIX] == 0
      && h[MAGIC..VERSION] == USTAR + [0] && h[VERSION] == ZERO && h[VERSION + 1] == ZERO
  {
    var h := Unsummed(name, t, size);
    assert forall k :: SIZE <= k < MTIME ==> h[k] == (Octal(11, Wrap32(size)) + [0])[k - SIZE];
    assert forall k :: MAGIC <= k < VERSION ==> h[k] == (USTAR + [0])[k - MAGIC];
  }

  lemma HeaderFields(name: Text, t: FileType, size: int)
    requires |name| <= 99
    ensures var h, u := Header(name, t, size), Unsummed(name, t, size);
      && (forall k :: 0 <= k < HEADER_SIZE && !(CHKSUM <= k < TYPEFLAG) ==> h[k] == u[k])
      && h[CHKSUM..TYPEFLAG] == Octal(7, Sum(h, HEADER_SIZE)) + [0]
      && Sum(h, HEADER_SIZE) < Pow8(7)
  {
    hide Unsummed, Sum, Octal;
    var h, u := Header(name, t, size), Unsummed(name, t, size);
    SumSame(h, u, HEADER_SIZE);
    SumBound(h, HEADER_SIZE);
    assert Pow8(7) == 2097152;
    assert forall k :: CHKSUM <= k < TYPEFLAG ==> h[k] == (Octal(7, Sum(u, HEADER_SIZE)) + [0])[k - CHKSUM];
  }

  /** A header made for a name parses to that name stripped, the same type, and the same
      size, or 0 for a directory; except that a regular file of negative size is refused. */
  lemma RoundTrip(name: Text, t: FileType, size: I32)
    requires IsName(name) && |Stripped(name)| <= 99
    ensures Parse(Header(Stripped(name), t, size)) ==
      if t.Directory? then Entry(Stripped(name), t, 0)
      else if size < 0 then TooLarge
      else Entry(Stripped(name), t, size)
  {
    hide Stripped, Header, Unsummed, Octal, OctalValue, Sum, StringAt;
    var n := Stripped(name);
    var h, u := Header(n, t, size), Unsummed(n, t, size);
    StrippedName(name);
    HeaderFields(n, t, size);
    UnsummedFields(n, t, size);
    OctalRoundTrip(7, Sum(h, HEADER_SIZE)) by { SumBound(h, HEADER_SIZE); }
    OctalRoundTrip(11, Wrap32(size)) by { assert Pow8(11) == 0x2_0000_0000; }
    assert h[SIZE..MTIME] == u[SIZE..MTIME];
    assert h[MAGIC..VERSION] == u[MAGIC..VERSION];
    assert h[NAME..NAME + |n|] == n;
    StringIs(h, NAME, n);
    assert h[VERSION] != Times(0, HEADER_SIZE)[VERSION];
  }

  lemma StrippedName(name: Text)
    requires IsName(name)
    ensures IsName(Stripped(name)) && Stripped(Stripped(name)) == Stripped(name)
  {
    StripTwice(name);
  }

  /** The fields of constant contents, and the bytes that belong to none in use. */
  lemma FixedFields(name: Text, t: FileType, size: int)
    requires |name| <= 99
    ensures var h := Unsummed(name, t, size);
      && h[100..108] == Octal(7, if t.Regular? then 420 else 493) + [0]
      && h[108..116] == Times(ZERO, 7) + [0] && h[116..124] == Times(ZERO, 7) + [0]
      && h[136..148] == Octal(11, 1136102400) + [0]
      && h[265..270] == [114, 111, 111, 116, 0] && h[297..302] == [114, 111, 111, 116, 0]
      && (forall k :: 157 <= k < 257 || 329 <= k < 512 ==> h[k] == 0)
  {
    hide Octal;
    var h := Unsummed(name, t, size);
    assert forall k :: 100 <= k < 108 ==> h[k] == (Octal(7, if t.Regular? then 420 else 493) + [0])[k - 100];
    assert forall k :: 136 <= k < 148 ==> h[k] == (Octal(11, 1136102400) + [0])[k - 136];
    assert forall k :: 108 <= k < 116 ==> h[k] == (Times(ZERO, 7) + [0])[k - 108];
    assert forall k :: 116 <= k < 124 ==> h[k] == (Times(ZERO, 7) + [0])[k - 116];
    assert forall k :: 265 <= k < 270 ==> h[k] == (ROOT + [0])[k - 265];
    assert forall k :: 297 <= k < 302 ==> h[k] == (ROOT + [0])[k - 297];
  }

  lemma SameSlice(g: Text, h: Text, i: nat, j: nat)
    requires |g| == |h| == 512 && i <= j <= 512 && (j <= 148 || 156 <= i)
    requires forall k :: 0 <= k < 512 && !(148 <= k < 156) ==> g[k] == h[k]
    ensures g[i..j] == h[i..j]
  {
  }

  /** What a ustar reader finds in a header made here, field by field at the offsets of the
      format: name, mode 0644 or 0755, owner and group 0, size, the fixed time, checksum, type,
      "ustar" and "00", "root" twice, and nulls elsewhere. */
  lemma HeaderReads(name: Text, t: FileType, size: I32)
    requires IsName(name) && |name| <= 99
    ensures var h := Header(name, t, size);
      && StringAt(h, 0) == name
      && OctalValue(h[100..108], 0, 0) == Some(if t.Regular? then 420 else 493)
      && h[108..116] == Times(48, 7) + [0] && h[116..124] == Times(48, 7) + [0]
      && OctalValue(h[124..136], 0, 0) == Some(if size < 0 then size + 0x1_0000_0000 else size)
      && OctalValue(h[136..148], 0, 0) == Some(1136102400)
      && OctalValue(h[148..156], 0, 0) == Some(Sum(h, 512)) && h[156] == (if t.Regular? then 48 else 53)
      && h[257..265] == [117, 115, 116, 97, 114, 0, 48, 48]
      && h[265..270] == [114, 111, 111, 116, 0] && h[297..302] == [114, 111, 111, 116, 0]
      && (forall k :: 157 <= k < 257 || 329 <= k < 512 ==> h[k] == 0)
  {
    hide Header, Unsummed, Octal, OctalValue, Sum, StringAt;
    var h, u := Header(name, t, size), Unsummed(name, t, size);
    HeaderFields(name, t, size);
    UnsummedFields(name, t, size);
    FixedFields(name, t, size);
    SameSlice(h, u, 100, 108);
    SameSlice(h, u, 108, 116);
    SameSlice(h, u, 116, 124);
    SameSlice(h, u, 124, 136);
    SameSlice(h, u, 136, 148);
    SameSlice(h, u, 265, 270);
    SameSlice(h, u, 297, 302);
    OctalPowers();
    OctalRoundTrip(7, if t.Regular? then 420 else 493);
    OctalRoundTrip(11, Wrap32(size));
    OctalRoundTrip(11, 1136102400);
    OctalRoundTrip(7, Sum(h, HEADER_SIZE)) by { SumBound(h, HEADER_SIZE); }
    assert h[..|name|] == name;
    StringIs(h, 0, name);
    assert h[257..263] == [117, 115, 116, 97, 114, 0] by {
      SameSlice(h, u, 257, 263);
    }
    assert h[257..265] == h[257..263] + [h[263], h[264]];
  }

  lemma OctalPowers()
    ensures Pow8(7) == 2097152 && Pow8(11) == 0x2_0000_0000
  {
  }

  /** The sum of some bytes. */
  function Total(s: Text): nat {
    if s == [] then 0 else Total(s[..|s| - 1]) + s[|s| - 1]
  }

  lemma {:induction false} SumBefore(h: Text, n: nat)
    requires n <= 148 <= |h|
    ensures Sum(h, n) == Total(h[..n])
  {
    if n > 0 {
      SumBefore(h, n - 1);
      assert h[..n][..n - 1] == h[..n - 1];
    }
  }

  lemma {:induction false} SumAfter(h: Text, n: nat)
    requires 156 <= n <= |h|
    ensures Sum(h, n) == Sum(h, 156) + Total(h[156..n])
  {
    if n > 156 {
      SumAfter(h, n - 1);
      assert h[156..n][..n - 157] == h[156..n - 1];
    }
  }

  lemma {:induction false} SumField(h: Text, n: nat)
    requires 148 <= n <= 156 <= |h|
    ensures Sum(h, n) == Sum(h, 148) + 32 * (n - 148)
  {
    if n > 148 {
      SumField(h, n - 1);
    }
  }

  /** The checksum is the sum of the bytes before and after its field and eight spaces. */
  lemma ChecksumIs(h: Text)
    requires |h| == 512
    ensures Sum(h, 512) == Total(h[..148]) + 8 * 32 + Total(h[156..])
  {
    SumBefore(h, 148);
    SumField(h, 156);
    SumAfter(h, 512);
    assert h[156..512] == h[156..];
  }

  /** What ustar_parse_header accepts, and as what, at the offsets of the format. */
  lemma ParseEntryIff(h: Text, name: Text, kind: FileType, size: nat)
    requires |h| == 512
    ensures Parse(h) == Entry(name, kind, size) <==>
      && h[257..263] == [117, 115, 116, 97, 114, 0] && h[263] == 48 && h[264] == 48
      && OctalValue(h[148..156], 0, 0) == Some(Sum(h, 512))
      && h[99] == 0 && h[345] == 0 && name == Stripped(StringAt(h, 0))
      && match kind
         case Directory => h[156] == 53 && size == 0
         case Regular => h[156] == 48 && size <= 0x7fff_ffff && OctalValue(h[124..136], 0, 0) == Some(size)
  {
    hide OctalValue, Sum, Stripped, StringAt;
    if h == Times(0, HEADER_SIZE) {
      assert h[263] == 0;
    }
  }

  /** A change to one byte outside the checksum field is always noticed. */
  lemma OneByteChanged(h: Text, k: nat, b: Byte)
    requires |h| == HEADER_SIZE && Parse(h).Entry? && k < HEADER_SIZE && !(CHKSUM <= k < TYPEFLAG) && h[k] != b
    ensures !Parse(h[k := b]).Entry? && !Parse(h[k := b]).EndOfArchive?
  {
    hide OctalValue, Sum, StringAt, Stripped;
    var g := h[k := b];
    assert g[CHKSUM..TYPEFLAG] == h[CHKSUM..TYPEFLAG];
    SumChanged(h, k, b, HEADER_SIZE);
    FirstDigit(h[CHKSUM..TYPEFLAG]);
    assert g[CHKSUM] == h[CHKSUM..TYPEFLAG][0];
    assert g[CHKSUM] != Times(0, HEADER_SIZE)[CHKSUM];
  }

  lemma FirstDigit(s: Text)
    requires OctalValue(s, 0, 0).Some?
    ensures s != [] && s[0] != 0
  {
  }

  lemma {:induction false} SumChanged(h: Text, k: nat, b: Byte, n: nat)
    requires n <= |h| && k < |h| && !(CHKSUM <= k < TYPEFLAG)
    ensures Sum(h[k := b], n) == Sum(h, n) + if k < n then b - h[k] else 0
  {
    if n > 0 {
      SumChanged(h, k, b, n - 1);
    }
  }

  /* The routines. */

  method Write(header: array<Byte>, ofs: nat, b: Text)
    requires ofs + |b| <= header.Length
    modifies header
    ensures header[..] == Put(old(header[..]), ofs, b)
  {
    var i := 0;
    while i < |b|
      invariant 0 <= i <= |b|
      invariant forall k :: 0 <= k < header.Length ==>
        header[k] == if ofs <= k < ofs + i then b[k - ofs] else old(header[k])
    {
      header[ofs + i] := b[i];
      i := i + 1;
    }
  }

  /** snprintf of an octal number into a field */
  method WriteOctal(header: array<Byte>, ofs: nat, size: nat, value: nat)
    requires size > 1 && ofs + size <= header.Length && value < Pow8(size - 1) && value < 0x1_0000_0000
    modifies header
    ensures header[..] == Put(old(header[..]), ofs, Terminated(Octal(size - 1, value), size))
  {
    PrintsOctal(size - 1, value);
    var text := FormatInteger(value, false, false, OCTAL, OctalConversion(size - 1));
    Write(header, ofs, Terminated(text, size));
  }

  /** calculate_chksum */
  method CalculateChksum(header: array<Byte>) returns (chksum: nat)
    requires header.Length == HEADER_SIZE
    ensures chksum == Sum(header[..], HEADER_SIZE)
  {
    chksum := 0;
    var i := 0;
    while i < HEADER_SIZE
      invariant 0 <= i <= HEADER_SIZE && chksum == Sum(header[..], i)
    {
      chksum := chksum + if CHKSUM <= i < TYPEFLAG then SPACE else header[i];
      i := i + 1;
    }
  }

  /** ustar_make_header: fails exactly on names too long after stripping, writing nothing. */
  method MakeHeader(name: Text, t: FileType, size: I32, header: array<Byte>) returns (ok: bool)
    requires header.Length == HEADER_SIZE
    modifies header
    ensures ok <==> |Stripped(name)| <= 99
    ensures header[..] == if ok then Header(Stripped(name), t, size) else old(header[..])
  {
    hide Stripped, Put, Octal, Sum, Terminated;
    var n := StripPrefixes(name);
    if |n| > 99 {
      return false;
    }
    Octals(size);
    Fill(header);
    Write(header, NAME, Terminated(n, 100));
    WriteOctal(header, MODE, 8, if t.Regular? then 420 else 493);
    Write(header, UID, Terminated(Times(ZERO, 7), 8));
    Write(header, GID, Terminated(Times(ZERO, 7), 8));
    WriteOctal(header, SIZE, 12, Wrap32(size));
    WriteOctal(header, MTIME, 12, 1136102400);
    Write(header, TYPEFLAG, [Flag(t)]);
    Write(header, MAGIC, Terminated(USTAR, 6));
    Write(header, VERSION, [ZERO, ZERO]);
    Write(header, GNAME, Terminated(ROOT, 32));
    Write(header, UNAME, Terminated(ROOT, 32));
    assert header[..] == Unsummed(n, t, size);
    var chksum := CalculateChksum(header);
    SumBound(header[..], HEADER_SIZE);
    WriteOctal(header, CHKSUM, 8, chksum);
    return true;
  }

  lemma Octals(size: int)
    ensures Pow8(7) == 2097152 && Wrap32(size) < Pow8(11) && 1136102400 < Pow8(11)
  {
    assert Pow8(11) == 0x2_0000_0000;
  }

  /** memset of the whole header to zero */
  method Fill(header: array<Byte>)
    modifies header
    ensures header[..] == Times(0, header.Length)
  {
    var i := 0;
    while i < header.Length
      invariant 0 <= i <= header.Length && forall k :: 0 <= k < i ==> header[k] == 0
    {
      header[i] := 0;
      i := i + 1;
    }
  }

  /** is_all_zeros */
  method IsAllZeros(header: array<Byte>) returns (r: bool)
    ensures r <==> header[..] == Times(0, header.Length)
  {
    var i := 0;
    while i < header.Length
      invariant 0 <= i <= header.Length && forall k :: 0 <= k < i ==> header[k] == 0
    {
      if header[i] != 0 {
        assert header[..][i] != Times(0, header.Length)[i];
        return false;
      }
      i := i + 1;
    }
    assert header[..] == Times(0, header.Length);
    return true;
  }

  /** parse_octal_field: digits up to a space or null, at least one, without overflow. */
  method ParseOctalField(s: Text) returns (r: Option<nat>)
    ensures r == OctalValue(s, 0, 0)
    ensures forall v: nat :: r == Some(v) <==> exists n :: IsField(s, n, v)
  {
    forall v: nat ensures OctalValue(s, 0, 0) == Some(v) <==> exists n :: IsField(s, n, v) {
      OctalValueIff(s, v);
    }
    var value := 0;
    var ofs := 0;
    while ofs < |s|
      invariant 0 <= ofs <= |s| && 0 <= value <= 0xffff_ffff && OctalValue(s, 0, 0) == OctalValue(s, ofs, value)
    {
      var c := s[ofs];
      if ZERO <= c <= ZERO + 7 {
        if value > 0xffff_ffff / 8 {
          return None;
        }
        value := c - ZERO + value * 8;
      } else if c == SPACE || c == 0 {
        return if ofs > 0 then Some(value) else None;
      } else {
        return None;
      }
      ofs := ofs + 1;
    }
    return None;
  }

  /** ustar_parse_header */
  method ParseHeader(header: array<Byte>) returns (r: Parsed)
    requires header.Length == HEADER_SIZE
    ensures r == Parse(header[..])
  {
    hide OctalValue, Sum, Stripped, StringAt, Times;
    var zeros := IsAllZeros(header);
    if zeros {
      return EndOfArchive;
    }
    if header[MAGIC..VERSION] != USTAR + [0] {
      return NotUstar;
    }
    if header[VERSION] != ZERO || header[VERSION + 1] != ZERO {
      return InvalidVersion;
    }
    var sum := ParseOctalField(header[CHKSUM..TYPEFLAG]);
    if sum.None? {
      return CorruptChecksum;
    }
    var chksum := CalculateChksum(header);
    if sum.value != chksum {
      return ChecksumMismatch;
    }
    if header[MODE - 1] != 0 || header[PREFIX] != 0 {
      return NameTooLong;
    }
    if header[TYPEFLAG] != Flag(Regular) && header[TYPEFLAG] != Flag(Directory) {
      return UnimplementedType;
    }
    var size := Some(0);
    if header[TYPEFLAG] == Flag(Regular) {
      size := ParseOctalField(header[SIZE..MTIME]);
      if size.None? {
        return CorruptSize;
      }
      if size.value > 0x7fff_ffff {
        return TooLarge;
      }
    }
    var name := StripPrefixes(StringAt(header[..], NAME));
    assert header[CHKSUM..TYPEFLAG] == header[..][CHKSUM..TYPEFLAG];
    assert header[SIZE..MTIME] == header[..][SIZE..MTIME];
    r := Entry(name, if header[TYPEFLAG] == Flag(Regular) then Regular else Directory, size.value);
  }
}
