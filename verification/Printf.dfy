/** format_integer of lib/stdio.c: an integer as text, by way of a 64-byte buffer that
    holds the digits from the right. */
module Printf {
  import opened Sequences
  import opened CString
  import Arithmetic

  const ZERO: Byte := 48
  const SPACE: Byte := 32
  const PLUS: Byte := 43
  const COMMA: Byte := 44
  const MINUS: Byte := 45

  /** struct printf_conversion, with its flags spelled out. */
  datatype Conversion = Conversion(minus: bool, plus: bool, space: bool, pound: bool, zero: bool, group: bool,
                                   width: int, precision: int)

  /** struct integer_base */
  datatype Base = Base(base: nat, digits: Text, x: Byte, group: nat)

  /** As in the four bases of the source: octal, decimal and the two hexadecimals. */
  ghost predicate BaseOk(b: Base) {
    && 8 <= b.base <= 16 && |b.digits| == b.base && b.group > 0
    && Distinct(b.digits) && b.digits[0] == ZERO && b.x !in b.digits && b.x != COMMA
    && COMMA !in b.digits && SPACE !in b.digits && PLUS !in b.digits && MINUS !in b.digits && b.x != SPACE
  }

  /** The bases of the source. */
  const OCTAL: Base := Base(8, [48, 49, 50, 51, 52, 53, 54, 55], 0, 3)
  const DECIMAL: Base := Base(10, [48, 49, 50, 51, 52, 53, 54, 55, 56, 57], 0, 3)
  const HEX_LOWER: Base :=
    Base(16, [48, 49, 50, 51, 52, 53, 54, 55, 56, 57, 97, 98, 99, 100, 101, 102], 120, 4)
  const HEX_UPPER: Base :=
    Base(16, [48, 49, 50, 51, 52, 53, 54, 55, 56, 57, 65, 66, 67, 68, 69, 70], 88, 4)

  lemma BasesOk()
    ensures BaseOk(OCTAL) && BaseOk(DECIMAL) && BaseOk(HEX_LOWER) && BaseOk(HEX_UPPER)
  {
    DigitsOk(OCTAL, 8, 7);
    DigitsOk(DECIMAL, 10, 7);
    DigitsOk(HEX_LOWER, 16, 39);
    DigitsOk(HEX_UPPER, 16, 7);
  }

  lemma DigitsOk(b: Base, n: nat, gap: nat)
    requires b.base == |b.digits| == n && 8 <= n <= 16 && b.group > 0 && gap >= 7
    requires forall i :: 0 <= i < n ==> b.digits[i] == if i < 10 then ZERO + i else ZERO + i + gap
    requires b.x == 0 || b.x >= ZERO + n + gap
    ensures BaseOk(b)
  {
  }

  function Times(c: Byte, n: int): (r: Text)
    ensures |r| == (if n < 0 then 0 else n) && forall i :: 0 <= i < |r| ==> r[i] == c
  {
    seq(if n < 0 then 0 else n, _ => c)
  }

  /** The digits of VALUE from the right, CNT digits having gone before. */
  function FromRight(value: nat, b: Base, group: bool, cnt: nat): Text
    requires BaseOk(b)
  {
    if value == 0 then []
    else
      (if group && cnt > 0 && cnt % b.group == 0 then [COMMA] else [])
      + [b.digits[value % b.base]] + FromRight(value / b.base, b, group, cnt + 1)
  }

  /** What the buffer holds in the end: digits, zeros up to the precision, and the zero that
      the # flag asks for in octal. */
  function Buffered(value: nat, b: Base, c: Conversion): Text
    requires BaseOk(b)
  {
    var ds := FromRight(value, b, c.group, 0);
    var precision := if c.precision < 0 then 1 else if c.precision > 63 then 63 else c.precision;
    var zs := ds + Times(ZERO, precision - |ds|);
    if c.pound && b.base == 8 && (zs == [] || zs[|zs| - 1] != ZERO) then zs + [ZERO] else zs
  }

  function Sign(isSigned: bool, negative: bool, c: Conversion): Text {
    if !isSigned then []
    else if c.plus then [if negative then MINUS else PLUS]
    else if c.space then [if negative then MINUS else SPACE]
    else if negative then [MINUS]
    else []
  }

  function Prefix(value: nat, b: Base, c: Conversion): Text {
    if c.pound && value > 0 && b.x != 0 then [ZERO, b.x] else []
  }

  /** The text: padding, sign, 0x, zeros, digits, padding. */
  function Rendered(value: nat, isSigned: bool, negative: bool, b: Base, c: Conversion): Text
    requires BaseOk(b)
  {
    var numeral, sign, prefix := Buffered(value, b, c), Sign(isSigned, negative, c), Prefix(value, b, c);
    var pad := c.width - |numeral| - |prefix| - |sign|;
    (if c.minus || c.zero then [] else Times(SPACE, pad))
    + sign + prefix
    + (if c.zero then Times(ZERO, pad) else [])
    + Reversed(numeral)
    + (if c.minus then Times(SPACE, pad) else [])
  }

  /** The value of digits from the right, commas aside. */
  function Value(s: Text, b: Base): nat {
    if s == [] then 0
    else if s[0] == COMMA then Value(s[1..], b)
    else DigitOf(s[0], b.digits) + b.base * Value(s[1..], b)
  }

  /** The place of C in DIGITS, if it has one. */
  function DigitOf(c: Byte, digits: Text): nat {
    if digits == [] || digits[0] == c then 0 else 1 + DigitOf(c, digits[1..])
  }

  lemma {:induction false} DigitAt(digits: Text, d: nat)
    requires Distinct(digits) && d < |digits|
    ensures DigitOf(digits[d], digits) == d
  {
    if d > 0 {
      assert digits[0] != digits[d];
      assert digits[1..][d - 1] == digits[d];
      DigitAt(digits[1..], d - 1);
    }
  }

  lemma ValueCons(c: Byte, rest: Text, b: Base)
    ensures Value([c] + rest, b) ==
      if c == COMMA then Value(rest, b) else DigitOf(c, b.digits) + b.base * Value(rest, b)
  {
    assert ([c] + rest)[1..] == rest;
  }

  lemma {:induction false} FromRightValue(value: nat, b: Base, group: bool, cnt: nat)
    requires BaseOk(b)
    ensures Value(FromRight(value, b, group, cnt), b) == value
    decreases value
  {
    hide Value, DigitOf, BaseOk, Distinct;
    NoValue(b);
    if value > 0 {
      Smaller(value, b);
      var rest := FromRight(value / b.base, b, group, cnt + 1);
      FromRightValue(value / b.base, b, group, cnt + 1);
      DigitInFront(value, b, rest);
    }
  }

  lemma Smaller(value: nat, b: Base)
    requires BaseOk(b) && value > 0
    ensures b.base > 0 && value / b.base < value
  {
  }

  /** The last digit of VALUE in front of the others, with or without a comma. */
  lemma DigitInFront(value: nat, b: Base, rest: Text)
    requires BaseOk(b) && Value(rest, b) == value / b.base
    ensures var d := b.digits[value % b.base];
      Value([COMMA] + [d] + rest, b) == value && Value([] + [d] + rest, b) == value
  {
    hide Value, DigitOf, Distinct;
    var d := b.digits[value % b.base];
    assert DigitOf(d, b.digits) == value % b.base by {
      DigitAt(b.digits, value % b.base);
    }
    ValueCons(d, rest, b);
    ValueCons(COMMA, [d] + rest, b);
    assert [COMMA] + [d] + rest == [COMMA] + ([d] + rest);
    assert [] + [d] + rest == [d] + rest;
  }

  lemma NoValue(b: Base)
    ensures Value([], b) == 0
  {
  }

  lemma {:induction false} ZerosValue(s: Text, n: int, b: Base)
    requires BaseOk(b)
    ensures Value(s + Times(ZERO, n), b) == Value(s, b)
  {
    var t := s + Times(ZERO, n);
    if s != [] {
      assert t[1..] == s[1..] + Times(ZERO, n);
      ZerosValue(s[1..], n, b);
    } else if n > 0 {
      assert t[1..] == [] + Times(ZERO, n - 1);
      ZerosValue([], n - 1, b);
      DigitAt(b.digits, 0);
    }
  }

  /** The numeral in the text reads back as the value, whatever the flags. */
  lemma BufferedValue(value: nat, b: Base, c: Conversion)
    requires BaseOk(b)
    ensures Value(Buffered(value, b, c), b) == value
  {
    var ds := FromRight(value, b, c.group, 0);
    FromRightValue(value, b, c.group, 0);
    var precision := if c.precision < 0 then 1 else if c.precision > 63 then 63 else c.precision;
    ZerosValue(ds, precision - |ds|, b);
    var zs := ds + Times(ZERO, precision - |ds|);
    ZerosValue(zs, 1, b);
    assert Times(ZERO, 1) == [ZERO];
  }

  /** The text fills the field, and is longer only when what it must hold is, or when it is
      padded on both sides. */
  lemma RenderedWidth(value: nat, isSigned: bool, negative: bool, b: Base, c: Conversion)
    requires BaseOk(b)
    ensures var need := |Buffered(value, b, c)| + |Sign(isSigned, negative, c)| + |Prefix(value, b, c)|;
      var pad := if c.width > need then c.width - need else 0;
      |Rendered(value, isSigned, negative, b, c)| == need + (if c.minus && c.zero then 2 * pad else pad)
  {
    ReversedAt(Buffered(value, b, c));
  }

  // ----- reading the text back

  function SkipSpaces(s: Text): Text {
    if s != [] && s[0] == SPACE then SkipSpaces(s[1..]) else s
  }

  function UpToSpace(s: Text): Text {
    if s == [] || s[0] == SPACE then [] else [s[0]] + UpToSpace(s[1..])
  }

  function AfterSign(s: Text): Text {
    if s != [] && (s[0] == MINUS || s[0] == PLUS) then s[1..] else s
  }

  /** S starts with 0x or 0X. */
  predicate Prefixed(s: Text, b: Base) {
    |s| >= 2 && s[0] == ZERO && s[1] == b.x
  }

  function AfterPrefix(s: Text, b: Base): Text {
    if Prefixed(s, b) then s[2..] else s
  }

  /** Whether a text has a minus sign, and the number after it, padding and prefix aside. */
  function Read(s: Text, b: Base): (bool, nat) {
    var t := UpToSpace(SkipSpaces(s));
    (t != [] && t[0] == MINUS, Value(Reversed(AfterPrefix(AfterSign(t), b)), b))
  }

  predicate Figure(ch: Byte, b: Base) {
    ch in b.digits || ch == COMMA
  }

  predicate Figures(s: Text, b: Base) {
    forall i :: 0 <= i < |s| ==> Figure(s[i], b)
  }

  lemma {:induction false} FromRightFigures(value: nat, b: Base, group: bool, cnt: nat)
    requires BaseOk(b)
    ensures Figures(FromRight(value, b, group, cnt), b)
    ensures value > 0 ==> FromRight(value, b, group, cnt) != []
    decreases value
  {
    if value > 0 {
      Smaller(value, b);
      FromRightFigures(value / b.base, b, group, cnt + 1);
    }
  }

  /** Where digit CNT goes when there is a comma after every G digits. */
  function Place(cnt: nat, g: nat): nat
    requires g > 0
  {
    if cnt == 0 then 0 else cnt + (cnt - 1) / g
  }

  /** A place after every G digits. */
  predicate AtComma(place: nat, g: nat)
    requires g > 0
  {
    place % (g + 1) == g
  }

  /** A comma stands at every such place from the right, and nowhere else. */
  lemma {:induction false} CommaPlaces(value: nat, b: Base, group: bool, cnt: nat, j: nat)
    requires BaseOk(b) && j < |FromRight(value, b, group, cnt)|
    ensures FromRight(value, b, group, cnt)[j] == COMMA <==>
      group && AtComma(Place(cnt, b.group) + j, b.group)
    decreases value
  {
    hide AtComma, Place, FromRight;
    var front, rest := FromRightStep(value, b, group, cnt);
    PlaceStep(cnt, b.group);
    if j >= |front| {
      Smaller(value, b);
      CommaPlaces(value / b.base, b, group, cnt + 1, j - |front|);
    }
  }

  lemma FromRightStep(value: nat, b: Base, group: bool, cnt: nat) returns (front: Text, rest: Text)
    requires BaseOk(b) && FromRight(value, b, group, cnt) != []
    ensures value > 0 && FromRight(value, b, group, cnt) == front + rest
    ensures rest == FromRight(value / b.base, b, group, cnt + 1)
    ensures if group && cnt > 0 && cnt % b.group == 0
      then |front| == 2 && front[0] == COMMA && front[1] != COMMA
      else |front| == 1 && front[0] != COMMA
  {
    front := (if group && cnt > 0 && cnt % b.group == 0 then [COMMA] else []) + [b.digits[value % b.base]];
    rest := FromRight(value / b.base, b, group, cnt + 1);
  }

  lemma PlaceStep(cnt: nat, g: nat)
    requires g > 0
    ensures Place(cnt + 1, g) == Place(cnt, g) + if cnt > 0 && cnt % g == 0 then 2 else 1
    ensures cnt > 0 && cnt % g == 0 <==> AtComma(Place(cnt, g), g)
    ensures cnt > 0 && cnt % g == 0 ==> !AtComma(Place(cnt, g) + 1, g)
  {
    if cnt == 0 {
      QuotientIs(0, g + 1, 0, 0);
      QuotientIs(0, g, 0, 0);
    } else {
      var q, r := (cnt - 1) / g, (cnt - 1) % g;
      assert cnt - 1 == q * g + r;
      assert Place(cnt, g) == q * (g + 1) + (r + 1);
      QuotientIs(Place(cnt, g), g + 1, q, r + 1);
      if r + 1 == g {
        QuotientIs(cnt, g, q + 1, 0);
        assert Place(cnt, g) + 1 == (q + 1) * (g + 1) + 0;
        QuotientIs(Place(cnt, g) + 1, g + 1, q + 1, 0);
      } else {
        QuotientIs(cnt, g, q, r + 1);
      }
    }
  }

  lemma QuotientIs(n: nat, d: nat, q: nat, r: nat)
    requires r < d && n == q * d + r
    ensures n / d == q && n % d == r
  {
    Arithmetic.DivisionUnique(n, d, q);
  }

  /** At least PRECISION figures, and with the # flag in octal a zero in front. */
  lemma BufferedFigures(value: nat, b: Base, c: Conversion)
    requires BaseOk(b)
    ensures var r := Buffered(value, b, c);
      && Figures(r, b) && (value > 0 ==> r != [])
      && |r| >= (if c.precision < 0 then 1 else if c.precision > 63 then 63 else c.precision)
      && (c.pound && b.base == 8 ==> r != [] && r[|r| - 1] == ZERO)
  {
    FromRightFigures(value, b, c.group, 0);
    assert b.digits[0] in b.digits;
  }

  lemma {:induction false} SpacesSkipped(n: int, s: Text)
    requires s == [] || s[0] != SPACE
    ensures SkipSpaces(Times(SPACE, n) + s) == s
    decreases n
  {
    var t := Times(SPACE, n) + s;
    if n > 0 {
      assert t[1..] == Times(SPACE, n - 1) + s;
      SpacesSkipped(n - 1, s);
    } else {
      assert t == s;
    }
  }

  lemma {:induction false} StopsAtSpace(s: Text, n: int)
    requires SPACE !in s
    ensures UpToSpace(s + Times(SPACE, n)) == s
  {
    var t := s + Times(SPACE, n);
    if s != [] {
      assert t[1..] == s[1..] + Times(SPACE, n);
      StopsAtSpace(s[1..], n);
    }
  }

  /** The zeros and figures of a text, read back. */
  lemma FiguresRead(buffered: Text, zeros: int, b: Base)
    requires BaseOk(b) && Figures(buffered, b)
    ensures var s := Times(ZERO, zeros) + Reversed(buffered);
      Figures(s, b) && |s| == |Times(ZERO, zeros)| + |buffered| && Value(Reversed(s), b) == Value(buffered, b)
  {
    var z, s := Times(ZERO, zeros), Times(ZERO, zeros) + Reversed(buffered);
    ReversedAt(buffered);
    ReversedAt(s);
    assert b.digits[0] in b.digits;
    assert Reversed(s) == buffered + z;
    ZerosValue(buffered, zeros, b);
  }

  lemma SignRead(sign: Text, prefix: Text, figures: Text, b: Base)
    requires BaseOk(b) && Figures(figures, b)
    requires sign == [] || sign == [MINUS] || sign == [PLUS]
    requires prefix == [] || prefix == [ZERO, b.x]
    ensures var t := sign + prefix + figures;
      && AfterPrefix(AfterSign(t), b) == figures && SPACE !in t
      && (t != [] && t[0] == MINUS <==> sign == [MINUS]) && (t != [] && t[0] == PLUS <==> sign == [PLUS])
      && (Prefixed(AfterSign(t), b) <==> prefix != [])
  {
    var t := sign + prefix + figures;
    assert AfterSign(t) == prefix + figures;
  }

  lemma CoreRead(left: int, core: Text, right: int)
    requires SPACE !in core
    ensures UpToSpace(SkipSpaces(Times(SPACE, left) + (core + Times(SPACE, right)))) == core
  {
    if core == [] {
      var n := |Times(SPACE, left)| + |Times(SPACE, right)|;
      assert Times(SPACE, left) + ([] + Times(SPACE, right)) == Times(SPACE, n) + [];
      SpacesSkipped(n, []);
    } else {
      SpacesSkipped(left, core + Times(SPACE, right));
      StopsAtSpace(core, right);
    }
  }

  /** The text is spaces, then a core without any, then spaces. */
  lemma Parts(value: nat, isSigned: bool, negative: bool, b: Base, c: Conversion)
    returns (left: int, core: Text, right: int)
    requires BaseOk(b)
    ensures Rendered(value, isSigned, negative, b, c) == Times(SPACE, left) + (core + Times(SPACE, right))
    ensures SPACE !in core && (core != [] && core[0] == MINUS <==> isSigned && negative)
    ensures (core != [] && core[0] == PLUS <==> isSigned && !negative && c.plus)
    ensures Value(Reversed(AfterPrefix(AfterSign(core), b)), b) == value
    ensures value > 0 ==> core != []
    ensures !c.minus ==> right <= 0
    ensures c.minus || c.zero ==> left <= 1 && (left == 1 ==> isSigned && !negative && c.space && !c.plus)
    ensures isSigned && !negative && c.space && !c.plus ==> left >= 1
    ensures Prefixed(AfterSign(core), b) <==> c.pound && value > 0 && b.x != 0
  {
    hide Value, Buffered, AfterSign, AfterPrefix, Prefixed, Reversed, BaseOk, Figures;
    var numeral, sign, prefix := Buffered(value, b, c), Sign(isSigned, negative, c), Prefix(value, b, c);
    var pad := c.width - |numeral| - |prefix| - |sign|;
    var zeros := if c.zero then pad else 0;
    var figures := Times(ZERO, zeros) + Reversed(numeral);
    right := if c.minus then pad else 0;
    left := |Times(SPACE, if c.minus || c.zero then 0 else pad)| + if sign == [SPACE] then 1 else 0;
    var shown := if sign == [SPACE] then [] else sign;
    core := shown + prefix + figures;
    BufferedFigures(value, b, c);
    BufferedValue(value, b, c);
    FiguresRead(numeral, zeros, b);
    SignRead(shown, prefix, figures, b);
    Assembled(if c.minus || c.zero then 0 else pad, sign, prefix, zeros, Reversed(numeral), right);
  }

  lemma Assembled(left: int, sign: Text, prefix: Text, zeros: int, figures: Text, right: int)
    ensures var shown := if sign == [SPACE] then [] else sign;
      var n := |Times(SPACE, left)| + if sign == [SPACE] then 1 else 0;
      Times(SPACE, left) + sign + prefix + Times(ZERO, zeros) + figures + Times(SPACE, right) ==
        Times(SPACE, n) + ((shown + prefix + (Times(ZERO, zeros) + figures)) + Times(SPACE, right))
  {
  }

  /** The text reads back as the number, sign and all, whatever the flags, width and
      precision. */
  lemma ReadsBack(value: nat, isSigned: bool, negative: bool, b: Base, c: Conversion)
    requires BaseOk(b)
    ensures Read(Rendered(value, isSigned, negative, b, c), b) == (isSigned && negative, value)
  {
    hide BaseOk, Value, Reversed, Rendered, SkipSpaces, UpToSpace, AfterSign, AfterPrefix;
    var left, core, right := Parts(value, isSigned, negative, b, c);
    CoreRead(left, core, right);
  }

  /** Padding: none after the number without the - flag, and none before it with the - or the 0
      flag but the space that stands for a plus; a plus and a prefix are shown exactly where
      asked for. */
  lemma Aligned(value: nat, isSigned: bool, negative: bool, b: Base, c: Conversion)
    requires BaseOk(b) && value > 0
    ensures var r := Rendered(value, isSigned, negative, b, c);
      && r != [] && (!c.minus ==> r[|r| - 1] != SPACE)
      && (c.minus || c.zero ==>
            r[0] != SPACE || (isSigned && !negative && c.space && !c.plus && |r| > 1 && r[1] != SPACE))
      && (isSigned && !negative && c.space && !c.plus ==> r[0] == SPACE)
      && var t := UpToSpace(SkipSpaces(r));
         && (t != [] && t[0] == PLUS <==> isSigned && !negative && c.plus)
         && (Prefixed(AfterSign(t), b) <==> c.pound && b.x != 0)
  {
    hide BaseOk, Value, Reversed, Rendered, AfterSign, AfterPrefix, Prefixed;
    var left, core, right := Parts(value, isSigned, negative, b, c);
    var r := Rendered(value, isSigned, negative, b, c);
    CoreRead(left, core, right);
    assert core[0] in core && core[|core| - 1] in core;
  }

  function Pow8(n: nat): nat {
    if n == 0 then 1 else 8 * Pow8(n - 1)
  }

  /** A 64-bit value has at most 22 octal digits, so no more in a larger base. */
  lemma WordIsShort(value: nat)
    requires value < 0x1_0000_0000_0000_0000
    ensures value < Pow8(22)
  {
    assert Pow8(11) == 0x2_0000_0000;
    assert Pow8(22) == 0x2_0000_0000 * 0x2_0000_0000 by { Pow8Split(11, 11); }
  }

  lemma {:induction false} Pow8Split(a: nat, b: nat)
    ensures Pow8(a + b) == Pow8(a) * Pow8(b)
  {
    if a > 0 {
      Pow8Split(a - 1, b);
    }
  }

  lemma DigitDropped(value: nat, base: nat, n: nat)
    requires base >= 8 && 0 < value < Pow8(n)
    ensures n > 0 && value / base < Pow8(n - 1)
  {
    QuotientBelow(value, base, Pow8(n - 1));
  }

  lemma QuotientBelow(value: nat, base: nat, p: nat)
    requires base >= 8 && value < 8 * p
    ensures value / base < p
  {
    var q := value / base;
    assert base * q <= value;
    assert 8 * q <= base * q;
  }

  method Store(buf: array<Byte>, cp: nat, x: Byte)
    requires cp < buf.Length
    modifies buf
    ensures buf[..cp + 1] == old(buf[..cp]) + [x]
  {
    buf[cp] := x;
  }

  /** The digits of VALUE0, from the right. */
  method PutDigits(value0: nat, b: Base, group: bool, buf: array<Byte>) returns (cp: nat)
    requires value0 < 0x1_0000_0000_0000_0000 && BaseOk(b) && buf.Length == 64
    modifies buf
    ensures cp <= 44 && buf[..cp] == FromRight(value0, b, group, 0)
  {
    hide Pow8, BaseOk, FromRight;
    var value: nat, digitCnt: nat := value0, 0;
    cp := 0;
    WordIsShort(value0);
    BaseFacts(b);
    while value > 0
      invariant digitCnt <= 22 && value < Pow8(22 - digitCnt) && cp <= 2 * digitCnt
      invariant FromRight(value0, b, group, 0) == buf[..cp] + FromRight(value, b, group, digitCnt)
      decreases value
    {
      ghost var done, rest := buf[..cp], FromRight(value / b.base, b, group, digitCnt + 1);
      DigitDropped(value, b.base, 22 - digitCnt);
      NextDigit(value, b, group, digitCnt);
      if group && digitCnt > 0 && digitCnt % b.group == 0 {
        Store(buf, cp, COMMA);
        cp := cp + 1;
        Regroup(done, [COMMA], [b.digits[value % b.base]], rest);
      } else {
        Regroup(done, [], [b.digits[value % b.base]], rest);
      }
      Store(buf, cp, b.digits[value % b.base]);
      cp := cp + 1;
      value := value / b.base;
      digitCnt := digitCnt + 1;
    }
  }

  lemma BaseFacts(b: Base)
    requires BaseOk(b)
    ensures b.base >= 8 && b.group > 0
    ensures forall cnt, group :: FromRight(0, b, group, cnt) == []
  {
  }

  lemma NextDigit(value: nat, b: Base, group: bool, cnt: nat)
    requires BaseOk(b) && value > 0
    ensures b.base > 0 && b.group > 0 && value % b.base < |b.digits| && value / b.base < value
    ensures FromRight(value, b, group, cnt) ==
      (if group && cnt > 0 && cnt % b.group == 0 then [COMMA] else [])
      + [b.digits[value % b.base]] + FromRight(value / b.base, b, group, cnt + 1)
  {
  }

  lemma Regroup(a: Text, b: Text, c: Text, d: Text)
    ensures a + (b + c + d) == (a + b) + c + d && a + [] == a
  {
  }

  /** Puts what Buffered says into BUF, and returns where it ends. */
  method FillBuffer(value: nat, b: Base, c: Conversion, buf: array<Byte>) returns (cp: nat)
    requires value < 0x1_0000_0000_0000_0000 && BaseOk(b) && buf.Length == 64
    modifies buf
    ensures cp <= 64 && buf[..cp] == Buffered(value, b, c)
  {
    hide FromRight, BaseOk;
    cp := PutDigits(value, b, c.group, buf);
    ghost var ds := buf[..cp];
    var precision := if c.precision < 0 then 1 else c.precision;
    while cp < precision && cp < buf.Length - 1
      invariant |ds| <= cp <= 63 && (cp > |ds| ==> cp <= precision)
      invariant buf[..cp] == ds + Times(ZERO, cp - |ds|)
    {
      Store(buf, cp, ZERO);
      cp := cp + 1;
    }
    if c.pound && b.base == 8 && (cp == 0 || buf[cp - 1] != ZERO) {
      Store(buf, cp, ZERO);
      cp := cp + 1;
    }
  }

  /** The buffer's first CP0 bytes, last first. */
  method Emit(buf: array<Byte>, cp0: nat) returns (out: Text)
    requires cp0 <= buf.Length
    ensures out == Reversed(buf[..cp0])
  {
    out := [];
    var cp := cp0;
    ghost var s := buf[..cp0];
    assert s[..cp0] == s;
    while cp > 0
      invariant 0 <= cp <= cp0
      invariant Reversed(s) == out + Reversed(s[..cp])
    {
      cp := cp - 1;
      LastReversed(s[..cp + 1]);
      assert s[..cp + 1][..cp] == s[..cp];
      Regroup(out, [buf[cp]], [], Reversed(s[..cp]));
      out := out + [buf[cp]];
    }
  }

  lemma {:induction false} LastReversed<T>(s: seq<T>)
    requires s != []
    ensures Reversed(s) == [s[|s| - 1]] + Reversed(s[..|s| - 1])
  {
    if |s| > 1 {
      LastReversed(s[1..]);
      assert s[1..][..|s| - 2] == s[..|s| - 1][1..];
    }
  }

  /** format_integer: the digits go into the buffer from the right and come out from the
      left; the buffer never overflows. */
  method FormatInteger(value: nat, isSigned: bool, negative: bool, b: Base, c: Conversion) returns (out: Text)
    requires value < 0x1_0000_0000_0000_0000 && BaseOk(b)
    ensures out == Rendered(value, isSigned, negative, b, c)
  {
    hide Buffered, BaseOk, Sign, Prefix, Reversed;
    var sign := Sign(isSigned, negative, c);
    var prefix := Prefix(value, b, c);
    var buf := new Byte[64](_ => 0);
    var cp := FillBuffer(value, b, c, buf);
    var pad := c.width - cp - |prefix| - |sign|;
    out := if c.minus || c.zero then [] else Times(SPACE, pad);
    out := out + sign + prefix;
    out := out + if c.zero then Times(ZERO, pad) else [];
    var numeral := Emit(buf, cp);
    out := out + numeral;
    out := out + if c.minus then Times(SPACE, pad) else [];
  }
}
