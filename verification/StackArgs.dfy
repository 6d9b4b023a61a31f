/** From a command line to the arguments on a user stack: strtok_r of lib/string.c, and
    push_stack_args, push and parse_cmd_ln of userprog/process.c. */
module StackArgs {
  import opened Sequences
  import opened VirtualAddress
  import opened CString

  /* Words. */

  /** ignore_delimiters: space, tab and carriage return. */
  predicate IsDelimiter(c: Byte) {
    c == 32 || c == 9 || c == 13
  }

  function SkipDelimiters(s: Text): (r: Text)
    ensures |r| <= |s| && (r == [] || !IsDelimiter(r[0]))
  {
    if s != [] && IsDelimiter(s[0]) then SkipDelimiters(s[1..]) else s
  }

  /** The leading characters of S that are no delimiters. */
  function Word(s: Text): (w: Text)
    ensures |w| <= |s| && (s != [] && !IsDelimiter(s[0]) ==> w != [])
  {
    if s == [] || IsDelimiter(s[0]) then [] else [s[0]] + Word(s[1..])
  }

  lemma {:induction false} WordIs(s: Text)
    ensures var w := Word(s);
      && (forall i :: 0 <= i < |w| ==> w[i] == s[i] && !IsDelimiter(w[i]))
      && (|w| < |s| ==> IsDelimiter(s[|w|]))
  {
    if s != [] && !IsDelimiter(s[0]) {
      WordIs(s[1..]);
    }
  }

  /** The words of a command line. */
  function Words(s: Text): seq<Text>
    decreases |s|
  {
    var t := SkipDelimiters(s);
    if t == [] then [] else [Word(t)] + Words(t[|Word(t)|..])
  }

  /** The characters between words: space, tab and carriage return. */
  const BLANKS: set<Byte> := {32, 9, 13}

  lemma {:induction false} WordFirst(w: Text, rest: Text)
    requires (forall i :: 0 <= i < |w| ==> w[i] !in BLANKS) && (rest == [] || rest[0] in BLANKS)
    ensures Word(w + rest) == w
  {
    if w != [] {
      assert (w + rest)[1..] == w[1..] + rest;
      WordFirst(w[1..], rest);
      assert w[0] !in BLANKS;
    } else {
      assert w + rest == rest;
    }
  }

  /** A command line is split exactly at its blanks: what has none is one word, a word ends at a
      blank, and blanks before a word do not count. */
  lemma WordsSplit(w: Text, blank: Byte, rest: Text)
    requires w != [] && (forall i :: 0 <= i < |w| ==> w[i] !in BLANKS) && blank in BLANKS
    ensures Words([]) == [] && Words(w) == [w]
    ensures Words(w + [blank] + rest) == [w] + Words(rest) && Words([blank] + rest) == Words(rest)
  {
    hide Word;
    WordFirst(w, []);
    assert w[0] !in BLANKS;
    assert w + [] == w && w[|w|..] == [];
    BlankSkipped(blank, rest);
    var s, tail := w + [blank] + rest, [blank] + rest;
    assert s == w + tail;
    WordFirst(w, tail);
    assert s[|w|..] == tail;
  }

  lemma BlankSkipped(blank: Byte, rest: Text)
    requires blank in BLANKS
    ensures Words([blank] + rest) == Words(rest)
  {
    assert ([blank] + rest)[1..] == rest;
    assert SkipDelimiters([blank] + rest) == SkipDelimiters(rest);
  }

  predicate IsWord(w: Text) {
    w != [] && 0 !in w && forall i :: 0 <= i < |w| ==> !IsDelimiter(w[i])
  }

  lemma {:induction false} NoNullSkipped(s: Text)
    requires 0 !in s
    ensures 0 !in SkipDelimiters(s)
  {
    if s != [] && IsDelimiter(s[0]) {
      NoNullSkipped(s[1..]);
    }
  }

  lemma {:induction false} WordsAreWords(s: Text)
    requires 0 !in s
    ensures forall i :: 0 <= i < |Words(s)| ==> IsWord(Words(s)[i])
    decreases |s|
  {
    hide Word, SkipDelimiters;
    var t := SkipDelimiters(s);
    if t != [] {
      var w := Word(t);
      WordIs(t);
      NoNullSkipped(s);
      WordsAreWords(t[|w|..]);
    }
  }

  /** The characters of S that are no delimiters. */
  function Kept(s: Text): Text {
    if s == [] then [] else (if IsDelimiter(s[0]) then [] else [s[0]]) + Kept(s[1..])
  }

  function Joined(ws: seq<Text>): Text {
    if ws == [] then [] else ws[0] + Joined(ws[1..])
  }

  lemma KeptStep(s: Text)
    requires s != []
    ensures Kept(s) == if IsDelimiter(s[0]) then Kept(s[1..]) else [s[0]] + Kept(s[1..])
  {
  }

  lemma {:induction false} KeptSplit(a: Text, b: Text)
    ensures Kept(a + b) == Kept(a) + Kept(b)
  {
    hide Kept;
    if a == [] {
      KeptWord(a);
      assert a + b == b;
    } else {
      KeptSplit(a[1..], b);
      KeptStep(a);
      KeptStep(a + b);
      assert (a + b)[1..] == a[1..] + b;
      Associative([a[0]], Kept(a[1..]), Kept(b));
    }
  }

  lemma {:induction false} KeptWord(w: Text)
    requires forall i :: 0 <= i < |w| ==> !IsDelimiter(w[i])
    ensures Kept(w) == w
  {
    if w != [] {
      KeptWord(w[1..]);
    }
  }

  lemma {:induction false} KeptSkip(s: Text)
    ensures Kept(SkipDelimiters(s)) == Kept(s)
  {
    if s != [] && IsDelimiter(s[0]) {
      KeptSkip(s[1..]);
    }
  }

  /** The words hold the characters that are no delimiters, all of them, in order. */
  lemma {:induction false} WordsKeep(s: Text)
    ensures Joined(Words(s)) == Kept(s)
    decreases |s|
  {
    hide Word, SkipDelimiters, Kept;
    KeptSkip(s);
    var t := SkipDelimiters(s);
    if t == [] {
      KeptWord(t);
    } else {
      var w := Word(t);
      WordIs(t);
      WordsKeep(t[|w|..]);
      KeptWord(w);
      assert t == w + t[|w|..];
      KeptSplit(w, t[|w|..]);
      assert Words(s)[1..] == Words(t[|w|..]);
    }
  }

  /** Skipping one delimiter first makes no difference. */
  lemma WordsSkip(s: Text)
    requires s != [] && IsDelimiter(s[0])
    ensures Words(s) == Words(s[1..])
  {
  }

  lemma SkipStep(s: Text, k: nat)
    requires k < |s| && IsDelimiter(s[k])
    ensures SkipDelimiters(s[k..]) == SkipDelimiters(s[k + 1..])
  {
    assert s[k..][1..] == s[k + 1..];
  }

  method PastDelimiters(buf: array<Byte>, start: nat) returns (p: nat)
    requires start <= buf.Length && start + |StringAt(buf[..], start)| < buf.Length
    ensures var s := StringAt(buf[..], start);
      start <= p <= start + |s| && StringAt(buf[..], p) == s[p - start..] == SkipDelimiters(s)
  {
    hide StringAt, SkipDelimiters;
    ghost var s := StringAt(buf[..], start);
    p := start;
    CharAt(buf[..], start, 0);
    assert s[0..] == s;
    while IsDelimiter(buf[p])
      invariant start <= p <= start + |s| && (p < start + |s| ==> buf[p] == s[p - start])
      invariant p == start + |s| ==> buf[p] == 0
      invariant SkipDelimiters(s) == SkipDelimiters(s[p - start..])
      decreases start + |s| - p
    {
      SkipStep(s, p - start);
      p := p + 1;
      CharAt(buf[..], start, p - start);
    }
    StringTail(buf[..], start, p - start);
    NothingSkipped(s[p - start..]);
  }

  lemma NothingSkipped(s: Text)
    requires s == [] || !IsDelimiter(s[0])
    ensures SkipDelimiters(s) == s
  {
  }

  lemma WordStep(s: Text, k: nat)
    requires k < |s| && !IsDelimiter(s[k])
    ensures |Word(s[k..])| == 1 + |Word(s[k + 1..])|
  {
    assert s[k..][1..] == s[k + 1..];
  }

  method WordEnd(buf: array<Byte>, p: nat) returns (q: nat)
    requires p <= buf.Length && p + |StringAt(buf[..], p)| < buf.Length
    ensures var s := StringAt(buf[..], p);
      p <= q <= p + |s| && StringAt(buf[..], q) == s[q - p..] && |Word(s)| == q - p
  {
    hide StringAt, Word;
    ghost var s := StringAt(buf[..], p);
    q := p;
    CharAt(buf[..], p, 0);
    assert s[0..] == s;
    while !IsDelimiter(buf[q]) && buf[q] != 0
      invariant p <= q <= p + |s| && (q < p + |s| ==> buf[q] == s[q - p] != 0)
      invariant q == p + |s| ==> buf[q] == 0
      invariant |Word(s)| == q - p + |Word(s[q - p..])|
      decreases p + |s| - q
    {
      WordStep(s, q - p);
      q := q + 1;
      CharAt(buf[..], p, q - p);
    }
    StringTail(buf[..], p, q - p);
    NoWord(s[q - p..]);
  }

  lemma NoWord(s: Text)
    requires s == [] || IsDelimiter(s[0])
    ensures Word(s) == []
  {
  }

  /** A null written over the delimiter at Q ends the word at P and leaves what follows. */
  lemma CutWord(mem: Text, p: nat, q: nat)
    requires p < q < |mem| && p + |StringAt(mem, p)| < |mem| && |Word(StringAt(mem, p))| == q - p < |StringAt(mem, p)|
    ensures var s, cut := StringAt(mem, p), mem[q := 0];
      && StringAt(cut, p) == Word(s) && StringAt(cut, q + 1) == s[q + 1 - p..]
      && Words(s[q - p..]) == Words(s[q + 1 - p..])
  {
    hide Word, Words;
    var s, cut := StringAt(mem, p), mem[q := 0];
    var w := Word(s);
    WordIs(s);
    forall k | 0 <= k < |w| ensures cut[p + k] == w[k] != 0 {
      CharAt(mem, p, k);
    }
    assert cut[p..p + |w|] == w;
    StringIs(cut, p, w);
    StringSame(mem, cut, q + 1);
    StringTail(mem, p, q + 1 - p);
    WordsSkip(s[q - p..]);
    assert s[q - p..][1..] == s[q + 1 - p..];
  }

  /** strtok_r from START, which is the string or the saved position: the first word there,
      now null-terminated, and the place to go on from. */
  method StrtokR(buf: array<Byte>, start: nat) returns (token: Option<nat>, save: nat)
    requires start <= buf.Length && start + |StringAt(buf[..], start)| < buf.Length
    modifies buf
    ensures var s := StringAt(old(buf[..]), start);
      && start <= save <= start + |s| && save + |StringAt(buf[..], save)| == start + |s| < buf.Length
      && (token.None? <==> Words(s) == [])
      && (token.Some? ==>
            && start <= token.value < save && token.value + |StringAt(buf[..], token.value)| < buf.Length
            && Words(s) == [StringAt(buf[..], token.value)] + Words(StringAt(buf[..], save)))
  {
    hide Word, Words, SkipDelimiters, StringAt;
    ghost var was, s := buf[..], StringAt(buf[..], start);
    var p := PastDelimiters(buf, start);
    ghost var t := StringAt(was, p);
    CharAt(was, p, 0);
    FirstWord(s);
    if buf[p] == 0 {
      return None, p;
    }
    save := WordEnd(buf, p);
    token := Some(p);
    CharAt(was, p, save - p);
    if buf[save] != 0 {
      CutWord(was, p, save);
      buf[save] := 0;
      save := save + 1;
      assert buf[..] == was[save - 1 := 0];
      assert StringAt(buf[..], save) == t[save - p..];
    } else {
      WholeWord(t);
      assert StringAt(buf[..], save) == t[|Word(t)|..];
    }
  }

  lemma FirstWord(s: Text)
    ensures var t := SkipDelimiters(s);
      Words(s) == (if t == [] then [] else [Word(t)] + Words(t[|Word(t)|..])) && (t != [] ==> Word(t) != [])
  {
  }

  lemma WholeWord(t: Text)
    requires |Word(t)| == |t|
    ensures Word(t) == t
  {
    WordIs(t);
  }

  /* The stack. */

  /** Four bytes, least significant first. */
  function Bytes4(v: nat): (r: Text)
    ensures |r| == 4
  {
    [v % 256, v / 0x100 % 256, v / 0x1_0000 % 256, v / 0x100_0000 % 256]
  }

  function Word32(b: Text): nat
    requires |b| == 4
  {
    (b[0] as int) + 0x100 * (b[1] as int) + 0x1_0000 * (b[2] as int) + 0x100_0000 * (b[3] as int)
  }

  lemma WordOfBytes(v: nat)
    requires v < 0x1_0000_0000
    ensures Word32(Bytes4(v)) == v
  {
    var a, b, c := v / 0x100, v / 0x1_0000, v / 0x100_0000;
    assert b == a / 0x100 && c == b / 0x100;
  }

  /** The first N arguments as they lie on the stack, the last lowest. */
  function Strings(args: seq<Text>, n: nat): Text
    requires n <= |args|
  {
    if n == 0 then [] else args[n - 1] + [0] + Strings(args, n - 1)
  }

  /** Where argument I lies. */
  function AddressOf(args: seq<Text>, i: nat): int
    requires i < |args|
  {
    PHYS_BASE - |Strings(args, i + 1)|
  }

  /** The elements of argv from J on. */
  function Pointers(args: seq<Text>, j: nat): (r: Text)
    requires j <= |args| && |Strings(args, |args|)| <= PGSIZE
    ensures |r| == 4 * (|args| - j)
    decreases |args| - j
  {
    if j == |args| then [] else
    StringsGrow(args, j + 1, |args|);
    Bytes4(AddressOf(args, j)) + Pointers(args, j + 1)
  }

  lemma {:induction false} StringsGrow(args: seq<Text>, i: nat, n: nat)
    requires i <= n <= |args|
    ensures |Strings(args, i)| <= |Strings(args, n)|
  {
    if i < n {
      StringsGrow(args, i, n - 1);
    }
  }

  function Zeros(n: nat): (r: Text)
    ensures |r| == n && forall i :: 0 <= i < n ==> r[i] == 0
  {
    seq(n, _ => 0)
  }

  /** Strings, zeros down to a word boundary, and the null that ends argv. */
  function Tail(args: seq<Text>): Text
    requires |Strings(args, |args|)| <= PGSIZE
  {
    var ss := Strings(args, |args|);
    Bytes4(0) + Zeros((PHYS_BASE - |ss|) % 4) + ss
  }

  /** All that push_stack_args leaves on the stack. */
  function Frame(args: seq<Text>): Text
    requires FrameSize(args) <= PGSIZE
  {
    var argv := Pointers(args, 0) + Tail(args);
    Bytes4(0) + Bytes4(|args|) + Bytes4(PHYS_BASE - |argv|) + argv
  }

  function FrameSize(args: seq<Text>): (n: nat)
    ensures n >= |Strings(args, |args|)|
  {
    var ss := |Strings(args, |args|)|;
    16 + 4 * |args| + (if ss <= PGSIZE then (PHYS_BASE - ss) % 4 else 0) + ss
  }

  /** The word K bytes above the stack pointer. */
  function WordAt(mem: Text, k: nat): nat
    requires k + 4 <= |mem|
  {
    Word32(mem[k..k + 4])
  }

  lemma FrameLength(args: seq<Text>)
    requires FrameSize(args) <= PGSIZE
    ensures |Frame(args)| == FrameSize(args) && (PHYS_BASE - |Frame(args)|) % 4 == 0
  {
    hide Strings, Pointers, Bytes4;
    Aligned(|Strings(args, |args|)|, |args|);
  }

  lemma Aligned(x: nat, n: nat)
    requires x <= PGSIZE
    ensures (PHYS_BASE - (16 + 4 * n + (PHYS_BASE - x) % 4 + x)) % 4 == 0
  {
  }

  /** Reading argv[I] of the pointers from J on. */
  lemma {:induction false} PointerAt(args: seq<Text>, j: nat, i: nat)
    requires |Strings(args, |args|)| <= PGSIZE && j <= i < |args|
    ensures 0 <= AddressOf(args, i) && Pointers(args, j)[4 * (i - j)..4 * (i - j) + 4] == Bytes4(AddressOf(args, i))
    decreases i - j
  {
    hide Strings, Bytes4;
    StringsGrow(args, i + 1, |args|);
    StringsGrow(args, j + 1, |args|);
    var p, rest := Bytes4(AddressOf(args, j)), Pointers(args, j + 1);
    if i > j {
      PointerAt(args, j + 1, i);
      SliceAfter(p, rest, 4 * (i - j), 4 * (i - j) + 4);
    }
  }

  /** The strings of fewer arguments are the end of those of more. */
  lemma {:induction false} StringsSuffix(args: seq<Text>, i: nat, n: nat)
    requires i <= n <= |args|
    ensures |Strings(args, i)| <= |Strings(args, n)|
    ensures Strings(args, n)[|Strings(args, n)| - |Strings(args, i)|..] == Strings(args, i)
  {
    if i < n {
      StringsSuffix(args, i, n - 1);
      var front, rest := args[n - 1] + [0], Strings(args, n - 1);
      assert (front + rest)[|front|..] == rest;
    }
  }

  /** With the strings at the end of MEM, argument I is at its address with a null after it. */
  lemma ArgumentPlace(mem: Text, args: seq<Text>, n: nat, i: nat)
    requires i < n <= |args|
    requires |Strings(args, n)| <= |mem| && mem[|mem| - |Strings(args, n)|..] == Strings(args, n)
    ensures |args[i]| < |Strings(args, i + 1)| <= |mem|
    ensures mem[|mem| - |Strings(args, i + 1)|..] == args[i] + ([0] + Strings(args, i))
  {
    StringsSuffix(args, i + 1, n);
    var s, at := Strings(args, i + 1), |mem| - |Strings(args, i + 1)|;
    assert mem[at..] == s by {
      assert mem[|mem| - |Strings(args, n)|..][|Strings(args, n)| - |s|..] == mem[at..];
    }
    Associative(args[i], [0], Strings(args, i));
  }

  lemma TextThenNull(mem: Text, at: nat, s: Text, rest: Text)
    requires at <= |mem| && mem[at..] == s + ([0] + rest)
    ensures at + |s| < |mem| && mem[at..at + |s|] == s && mem[at + |s|] == 0
  {
    assert mem[at..][..|s|] == mem[at..at + |s|];
    assert mem[at..][|s|] == mem[at + |s|];
  }

  lemma ArgumentAt(mem: Text, args: seq<Text>, n: nat, i: nat)
    requires i < n <= |args| && 0 !in args[i]
    requires |Strings(args, n)| <= |mem| && mem[|mem| - |Strings(args, n)|..] == Strings(args, n)
    ensures |Strings(args, i + 1)| <= |mem| && StringAt(mem, |mem| - |Strings(args, i + 1)|) == args[i]
    ensures |mem| - |Strings(args, i + 1)| + |args[i]| < |mem|
    ensures mem[|mem| - |Strings(args, i + 1)| + |args[i]|] == 0
  {
    hide Strings, StringAt;
    ArgumentPlace(mem, args, n, i);
    var at := |mem| - |Strings(args, i + 1)|;
    TextThenNull(mem, at, args[i], Strings(args, i));
    StringIs(mem, at, args[i]);
  }

  lemma SliceAfter<T>(a: seq<T>, b: seq<T>, x: nat, y: nat)
    requires |a| <= x <= y <= |a| + |b|
    ensures (a + b)[x..y] == b[x - |a|..y - |a|]
  {
  }

  lemma SliceBefore<T>(a: seq<T>, b: seq<T>, x: nat, y: nat)
    requires x <= y <= |a|
    ensures (a + b)[x..y] == a[x..y]
  {
  }

  lemma FixedWords(args: seq<Text>)
    requires FrameSize(args) <= PGSIZE
    ensures var mem := Frame(args);
      && |mem| == FrameSize(args)
      && WordAt(mem, 0) == 0 && WordAt(mem, 4) == |args| && WordAt(mem, 8) == PHYS_BASE - |mem| + 12
      && WordAt(mem, 12 + 4 * |args|) == 0
  {
    hide Pointers, Strings, Bytes4, Word32, Tail;
    FrameLength(args);
    var argv := Pointers(args, 0) + Tail(args);
    WordOfBytes(0);
    WordOfBytes(|args|);
    WordOfBytes(PHYS_BASE - |argv|);
    HeadWords(Bytes4(0), Bytes4(|args|), Bytes4(PHYS_BASE - |argv|), argv);
    SliceAfter(Bytes4(0) + Bytes4(|args|) + Bytes4(PHYS_BASE - |argv|), argv, 12 + 4 * |args|, 16 + 4 * |args|);
    SliceAfter(Pointers(args, 0), Tail(args), 4 * |args|, 4 * |args| + 4);
    TailStarts(args);
  }

  lemma HeadWords(a: Text, b: Text, c: Text, rest: Text)
    requires |a| == |b| == |c| == 4
    ensures var s := a + b + c + rest;
      s[0..4] == a && s[4..8] == b && s[8..12] == c
  {
  }

  lemma TailStarts(args: seq<Text>)
    requires |Strings(args, |args|)| <= PGSIZE
    ensures |Tail(args)| >= 4 && Tail(args)[0..4] == Bytes4(0)
    ensures |Tail(args)| >= |Strings(args, |args|)|
    ensures Tail(args)[|Tail(args)| - |Strings(args, |args|)|..] == Strings(args, |args|)
  {
    hide Strings, Bytes4;
    var ss := Strings(args, |args|);
    var zs := Zeros((PHYS_BASE - |ss|) % 4);
    assert (Bytes4(0) + zs + ss)[4 + |zs|..] == ss;
  }

  lemma StringsLast(args: seq<Text>)
    requires FrameSize(args) <= PGSIZE
    ensures var mem, ss := Frame(args), Strings(args, |args|);
      |ss| <= |mem| && mem[|mem| - |ss|..] == ss
  {
    hide Pointers, Strings, Bytes4, Tail;
    FrameLength(args);
    TailStarts(args);
    var mem, ss, t := Frame(args), Strings(args, |args|), Tail(args);
    var argv := Pointers(args, 0) + t;
    var front := Bytes4(0) + Bytes4(|args|) + Bytes4(PHYS_BASE - |argv|);
    SliceAfter(front, argv, |mem| - |ss|, |mem|);
    SliceAfter(Pointers(args, 0), t, |argv| - |ss|, |argv|);
  }

  lemma ArgvElement(args: seq<Text>, i: nat)
    requires FrameSize(args) <= PGSIZE && i < |args|
    ensures 16 + 4 * i <= |Frame(args)| && WordAt(Frame(args), 12 + 4 * i) == AddressOf(args, i)
  {
    hide Pointers, Strings, Bytes4, Word32, Tail;
    FrameLength(args);
    PointerAt(args, 0, i);
    var ps, argv := Pointers(args, 0), Pointers(args, 0) + Tail(args);
    SliceAfter(Bytes4(0) + Bytes4(|args|) + Bytes4(PHYS_BASE - |argv|), argv, 12 + 4 * i, 16 + 4 * i);
    SliceBefore(ps, Tail(args), 4 * i, 4 * i + 4);
    WordOfBytes(AddressOf(args, i));
  }

  /** In the memory from ESP up, argv[I] points to argument I and a null after it. */
  ghost predicate Points(mem: Text, args: seq<Text>, i: nat)
    requires 16 + 4 * i <= |mem| && i < |args|
  {
    var esp, p := PHYS_BASE - |mem|, WordAt(mem, 12 + 4 * i);
    && esp <= p < PHYS_BASE && StringAt(mem, p - esp) == args[i]
    && p - esp + |args[i]| < |mem| && mem[p - esp + |args[i]|] == 0
  }

  /** The bytes on the stack are a C argument frame: below the strings are a null-ended argv
      whose elements point to the arguments, then argv, argc and a return address, with the
      stack pointer at a word boundary. */
  lemma FrameDecodes(args: seq<Text>)
    requires FrameSize(args) <= PGSIZE && forall i :: 0 <= i < |args| ==> 0 !in args[i]
    ensures var mem := Frame(args);
      var esp := PHYS_BASE - |mem|;
      && |mem| == FrameSize(args) && esp % 4 == 0
      && WordAt(mem, 0) == 0 && WordAt(mem, 4) == |args| && WordAt(mem, 8) == esp + 12
      && (forall i :: 0 <= i < |args| ==> Points(mem, args, i))
      && WordAt(mem, 12 + 4 * |args|) == 0
  {
    hide Pointers, Strings, StringAt, Frame, WordAt;
    FrameLength(args);
    FixedWords(args);
    StringsLast(args);
    var mem := Frame(args);
    forall i | 0 <= i < |args| ensures Points(mem, args, i) {
      ArgvElement(args, i);
      ArgumentAt(mem, args, |args|, i);
    }
  }

  /** The lowest address of the stack page. */
  const STACK_PAGE: nat := PHYS_BASE - PGSIZE

  class Stack {
    const page: array<Byte>
    var esp: nat

    ghost predicate Valid()
      reads this
    {
      page.Length == PGSIZE && STACK_PAGE <= esp <= PHYS_BASE
    }

    /** The bytes from the stack pointer up. */
    ghost function Contents(): (r: Text)
      requires Valid()
      reads this, page
      ensures |r| == PHYS_BASE - esp
    {
      page[esp - STACK_PAGE..]
    }

    /** push, of data or, for a null pointer, of zeros */
    method Push(data: Text)
      requires Valid() && |data| <= esp - STACK_PAGE
      modifies this, page
      ensures Valid() && Contents() == data + old(Contents())
    {
      ghost var was := page[..];
      esp := esp - |data|;
      var at := esp - STACK_PAGE;
      var i := 0;
      while i < |data|
        invariant 0 <= i <= |data| && esp == old(esp) - |data|
        invariant forall k :: 0 <= k < page.Length ==> page[k] == if at <= k < at + i then data[k - at] else was[k]
      {
        page[at + i] := data[i];
        i := i + 1;
      }
      assert page[at..at + |data|] == data;
      assert page[at + |data|..] == was[at + |data|..];
      assert page[at..] == page[at..at + |data|] + page[at + |data|..];
    }

    /** parse_cmd_ln: pushes each word of the command line in turn. */
    method ParseCmdLn(cmdline: array<Byte>, ghost file: Text) returns (count: nat)
      requires Valid() && cmdline != page && |StringAt(cmdline[..], 0)| < cmdline.Length
      requires FrameSize([file] + Words(StringAt(cmdline[..], 0))) <= PGSIZE
      requires Contents() == file + [0]
      modifies this, page, cmdline
      ensures Valid() && count == |Words(old(StringAt(cmdline[..], 0)))|
      ensures Contents() == Strings([file] + Words(old(StringAt(cmdline[..], 0))), count + 1)
    {
      hide Words, StringAt, FrameSize;
      ghost var args := [file] + Words(StringAt(cmdline[..], 0));
      count := 0;
      var token: Option<nat>, save: nat := StrtokR(cmdline, 0);
      assert Strings(args, 1) == file + [0] + Strings(args, 0);
      while token.Some?
        invariant Valid() && count < |args| && Contents() == Strings(args, count + 1)
        invariant save <= cmdline.Length && save + |StringAt(cmdline[..], save)| < cmdline.Length
        invariant token.Some? ==>
          && token.value < save && token.value + |StringAt(cmdline[..], token.value)| < cmdline.Length
          && args[count + 1..] == [StringAt(cmdline[..], token.value)] + Words(StringAt(cmdline[..], save))
        invariant token.None? ==> args[count + 1..] == []
        decreases |args| - count, token.Some?
      {
        ghost var s := StringAt(cmdline[..], token.value);
        PushRoom(args, count + 2);
        PushString(cmdline, token.value);
        count := count + 1;
        assert args[count] == s;
        ghost var rest := Words(StringAt(cmdline[..], save));
        assert args[count + 1..] == rest by {
          assert args[count..][1..] == args[count + 1..];
        }
        token, save := StrtokR(cmdline, save);
      }
    }

    /** Pushes the string in MEM at OFS with its terminator. */
    method PushString(mem: array<Byte>, ofs: nat)
      requires Valid() && mem != page && ofs <= mem.Length && ofs + |StringAt(mem[..], ofs)| < mem.Length
      requires |StringAt(mem[..], ofs)| + 1 <= esp - STACK_PAGE
      modifies this, page
      ensures Valid() && Contents() == StringAt(mem[..], ofs) + [0] + old(Contents())
    {
      hide StringAt;
      ghost var s := StringAt(mem[..], ofs);
      var length := Strnlen(mem, ofs, PGSIZE);
      forall k | 0 <= k <= |s| ensures mem[ofs + k] == (s + [0])[k] {
        CharAt(mem[..], ofs, k);
      }
      assert mem[ofs..ofs + length + 1] == s + [0];
      Push(mem[ofs..ofs + length + 1]);
    }

    /** The loop that pushes argv, walking up the strings from PTR. */
    method PushPointers(ptr0: nat, argc: nat, ghost args: seq<Text>)
      requires Valid() && argc == |args| && FrameSize(args) <= PGSIZE && Contents() == Tail(args)
      requires ptr0 == PHYS_BASE - |Strings(args, argc)| && forall i :: 0 <= i < argc ==> 0 !in args[i]
      modifies this, page
      ensures Valid() && Contents() == Pointers(args, 0) + Tail(args)
    {
      hide Strings, StringAt, Bytes4, Pointers, Tail, FrameSize;
      var ptr, cur := ptr0, 0;
      PointersRoom(args);
      while cur < argc
        invariant 0 <= cur <= argc && Valid() && ptr == PHYS_BASE - |Strings(args, argc - cur)|
        invariant Contents() == Pointers(args, argc - cur) + Tail(args)
      {
        ghost var i := argc - cur - 1;
        PointerStep(args, i);
        ghost var was := Contents();
        Push(Bytes4(ptr));
        Associative(Bytes4(ptr), Pointers(args, i + 1), Tail(args));
        StringsStay(page[..], Pointers(args, i), args);
        ArgumentAt(page[..], args, argc, i);
        var length := Strnlen(page, ptr - STACK_PAGE, PGSIZE);
        ptr := ptr + length + 1;
        cur := cur + 1;
      }
    }

    /** Aligns the stack pointer and ends argv. */
    method PushTail(ghost args: seq<Text>)
      requires Valid() && FrameSize(args) <= PGSIZE && Contents() == Strings(args, |args|)
      modifies this, page
      ensures Valid() && Contents() == Tail(args)
    {
      hide Strings, Bytes4, FrameSize;
      TailRoom(args);
      ghost var ss := Contents();
      var pad := esp % 4;
      Push(Zeros(pad));
      Push(Bytes4(0));
      Associative(Bytes4(0), Zeros(pad), ss);
    }

    /** Pushes argv, argc and a return address. */
    method PushHead(argc: nat, ghost args: seq<Text>)
      requires Valid() && FrameSize(args) <= PGSIZE && argc == |args| && Contents() == Pointers(args, 0) + Tail(args)
      modifies this, page
      ensures Valid() && Contents() == Frame(args)
    {
      hide Strings, Pointers, Bytes4, Tail, FrameSize;
      PointersRoom(args);
      ghost var top := Contents();
      var argv := esp;
      Push(Bytes4(argv));
      Push(Bytes4(argc));
      Push(Bytes4(0));
      Associative(Bytes4(0), Bytes4(argc), Bytes4(argv) + top);
      Associative(Bytes4(0) + Bytes4(argc), Bytes4(argv), top);
    }

    /** push_stack_args */
    method PushStackArgs(fileName: Text, cmdline: array<Byte>)
      requires Valid() && esp == PHYS_BASE && 0 !in fileName
      requires cmdline != page && |StringAt(cmdline[..], 0)| < cmdline.Length
      requires FrameSize([fileName] + Words(StringAt(cmdline[..], 0))) <= PGSIZE
      modifies this, page, cmdline
      ensures Valid() && Contents() == Frame([fileName] + Words(old(StringAt(cmdline[..], 0))))
    {
      hide Words, StringAt, FrameSize, Pointers, Strings, Tail, Frame;
      ghost var args := [fileName] + Words(StringAt(cmdline[..], 0));
      ArgsClean(fileName, cmdline[..]);
      FirstRoom(args);
      Push(fileName + [0]);
      assert Contents() == fileName + [0];
      var argc := ParseCmdLn(cmdline, fileName);
      argc := argc + 1;
      var argvData := esp;
      PushTail(args);
      PushPointers(argvData, argc, args);
      PushHead(argc, args);
    }
  }

  /** The pointers and what is above them fit the page. */
  lemma PointersRoom(args: seq<Text>)
    requires FrameSize(args) <= PGSIZE
    ensures |Strings(args, |args|)| <= PGSIZE && Pointers(args, |args|) == []
    ensures 12 + 4 * |args| + |Tail(args)| <= PGSIZE
  {
  }

  lemma PointerStep(args: seq<Text>, i: nat)
    requires |Strings(args, |args|)| <= PGSIZE && i < |args|
    ensures |Strings(args, i + 1)| <= PGSIZE && |Strings(args, i)| + |args[i]| + 1 == |Strings(args, i + 1)|
    ensures Pointers(args, i) == Bytes4(PHYS_BASE - |Strings(args, i + 1)|) + Pointers(args, i + 1)
  {
    hide Strings, Bytes4;
    StringsGrow(args, i + 1, |args|);
    StringsStep(args, i);
  }

  lemma StringsStep(args: seq<Text>, i: nat)
    requires i < |args|
    ensures |Strings(args, i)| + |args[i]| + 1 == |Strings(args, i + 1)|
  {
  }

  /** The strings stay at the end of the page. */
  lemma StringsStay(page: Text, ps: Text, args: seq<Text>)
    requires |page| == PGSIZE && |Strings(args, |args|)| <= PGSIZE
    requires |ps| + |Tail(args)| <= PGSIZE && page[PGSIZE - |ps| - |Tail(args)|..] == ps + Tail(args)
    ensures page[PGSIZE - |Strings(args, |args|)|..] == Strings(args, |args|)
  {
    hide Strings, Tail;
    TailStarts(args);
    var ss, t := Strings(args, |args|), Tail(args);
    var n := |ps| + |t|;
    assert page[PGSIZE - n..][n - |ss|..] == page[PGSIZE - |ss|..];
    SliceAfter(ps, t, n - |ss|, n);
    assert (ps + t)[n - |ss|..] == t[|t| - |ss|..];
  }

  lemma ArgsClean(fileName: Text, cmdline: Text)
    requires 0 !in fileName
    ensures forall i :: 0 <= i < 1 + |Words(StringAt(cmdline, 0))| ==>
      0 !in ([fileName] + Words(StringAt(cmdline, 0)))[i]
  {
    NoNulls(cmdline, 0);
    WordsAreWords(StringAt(cmdline, 0));
    var ws := Words(StringAt(cmdline, 0));
    assert forall i :: 0 < i < 1 + |ws| ==> ([fileName] + ws)[i] == ws[i - 1] && IsWord(ws[i - 1]);
  }

  lemma {:induction false} NoNulls(mem: Text, ofs: nat)
    requires ofs <= |mem|
    ensures 0 !in StringAt(mem, ofs)
    decreases |mem| - ofs
  {
    if ofs < |mem| && mem[ofs] != 0 {
      NoNulls(mem, ofs + 1);
    }
  }

  lemma FirstRoom(args: seq<Text>)
    requires args != [] && FrameSize(args) <= PGSIZE
    ensures |args[0]| + 1 <= PGSIZE && Strings(args, 1) == args[0] + [0]
  {
    PushRoom(args, 1);
    assert Strings(args, 1) == args[0] + [0] + Strings(args, 0);
  }

  lemma TailRoom(args: seq<Text>)
    requires FrameSize(args) <= PGSIZE
    ensures var ss := |Strings(args, |args|)|;
      ss <= PGSIZE && 16 + 4 * |args| + (PHYS_BASE - ss) % 4 + ss <= PGSIZE
  {
  }

  lemma PushRoom(args: seq<Text>, n: nat)
    requires 0 < n <= |args| && FrameSize(args) <= PGSIZE
    ensures |args[n - 1]| + 1 + |Strings(args, n - 1)| == |Strings(args, n)| <= PGSIZE
  {
    StringsGrow(args, n, |args|);
  }
}
