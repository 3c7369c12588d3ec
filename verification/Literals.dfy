/**
 * The grammar of string literals (RFC 8259 section 7) and the string printer: the reader accepts
 * exactly the grammar, and printing and reading undo each other.
 */
module Literals {
  import opened Bytes
  import opened Strings
  import Utf8

  /** One `char` of RFC 8259 section 7; a surrogate pair counts as one. */
  datatype Unit =
    | Plain(b: byte)
    | Short(c: byte)
    | Hex(digits: Bytes)
    | Pair(lead: Bytes, trail: Bytes)

  const ESCAPE_U: Bytes := ['\\' as int, 'u' as int]

  /** The bytes of the two-character escapes, by their second character. */
  const ESCAPES: map<byte, byte> :=
    map['"' as int := 34, '\\' as int := 92, '/' as int := 47, 'b' as int := 8, 'f' as int := 12,
        'n' as int := 10, 'r' as int := 13, 't' as int := 9]

  /** The value of a hexadecimal digit, or less than 0. */
  function Sixteen(b: byte): (v: int)
    ensures v < 16
  {
    var c := b as char;
    if '0' <= c <= '9' then b - '0' as int
    else if 'a' <= c <= 'f' then 10 + b - 'a' as int
    else if 'A' <= c <= 'F' then 10 + b - 'A' as int
    else -1
  }

  predicate HexDigits(h: Bytes) {
    |h| == 4 && forall k | 0 <= k < 4 :: Sixteen(h[k]) >= 0
  }

  function HexOf(h: Bytes): (x: int)
    requires HexDigits(h)
    ensures 0 <= x <= 0xFFFF
  {
    ((Sixteen(h[0]) * 16 + Sixteen(h[1])) * 16 + Sixteen(h[2])) * 16 + Sixteen(h[3])
  }

  predicate UnitOk(u: Unit) {
    match u
    case Plain(b) => b >= 0x20 && b != QUOTE && b != BACKSLASH
    case Short(c) => c in ESCAPES
    case Hex(h) => HexDigits(h) && !(0xD800 <= HexOf(h) <= 0xDFFF)
    case Pair(h, t) => HexDigits(h) && HexDigits(t) && 0xD800 <= HexOf(h) <= 0xDBFF && 0xDC00 <= HexOf(t) <= 0xDFFF
  }

  function UnitText(u: Unit): (t: Bytes)
    ensures |t| > 0
  {
    match u
    case Plain(b) => [b]
    case Short(c) => [BACKSLASH, c]
    case Hex(h) => ESCAPE_U + h
    case Pair(h, t) => ESCAPE_U + (h + (ESCAPE_U + t))
  }

  function UnitValue(u: Unit): (v: Bytes)
    requires UnitOk(u)
    ensures 1 <= |v| <= 4
  {
    match u
    case Plain(b) => [b]
    case Short(c) => [ESCAPES[c]]
    case Hex(h) => Utf8.Encode(HexOf(h))
    case Pair(h, t) => Utf8.Encode(0x10000 + (HexOf(h) - 0xD800) * 1024 + (HexOf(t) - 0xDC00))
  }

  predicate UnitsOk(us: seq<Unit>) {
    forall i | 0 <= i < |us| :: UnitOk(us[i])
  }

  function UnitsText(us: seq<Unit>): Bytes {
    if us == [] then [] else UnitText(us[0]) + UnitsText(us[1..])
  }

  function UnitsValue(us: seq<Unit>): Bytes
    requires UnitsOk(us)
  {
    if us == [] then [] else UnitValue(us[0]) + UnitsValue(us[1..])
  }

  /** A literal with its quotes. */
  function LiteralText(us: seq<Unit>): Bytes {
    [QUOTE] + (UnitsText(us) + [QUOTE])
  }

  /** What every reader of the stored C string sees of a literal. */
  function LiteralValue(us: seq<Unit>): (v: Bytes)
    requires UnitsOk(us)
    ensures NulFree(v)
  {
    CView(UnitsValue(us))
  }

  // ---------------------------------------------------------------- one unit, one step

  const LOWER: string := "0123456789abcdef"
  const UPPER: string := "0123456789ABCDEF"

  /** Four hexadecimal digits, each in either case, are a number to the base 16. */
  lemma FourDigits(h: Bytes, a: nat, b: nat, c: nat, d: nat)
    requires a < 16 && b < 16 && c < 16 && d < 16 && |h| == 4
    requires h[0] as char in {LOWER[a], UPPER[a]} && h[1] as char in {LOWER[b], UPPER[b]}
    requires h[2] as char in {LOWER[c], UPPER[c]} && h[3] as char in {LOWER[d], UPPER[d]}
    ensures HexDigits(h) && HexOf(h) == ((a * 16 + b) * 16 + c) * 16 + d
  {
    hide Sixteen;
    OneDigit(a);
    OneDigit(b);
    OneDigit(c);
    OneDigit(d);
  }

  lemma OneDigit(v: nat)
    requires v < 16
    ensures Sixteen(LOWER[v] as int) == v && Sixteen(UPPER[v] as int) == v
    ensures LOWER[v] < 128 as char && UPPER[v] < 128 as char
  {
    assert LOWER[..4] == "0123" && LOWER[4..8] == "4567" && LOWER[8..12] == "89ab" && LOWER[12..] == "cdef";
    assert UPPER[..4] == "0123" && UPPER[4..8] == "4567" && UPPER[8..12] == "89AB" && UPPER[12..] == "CDEF";
  }

  /** So every code unit of UTF-16 is the value of its four digits, whatever their cases. */
  lemma EveryCodeUnit(x: nat, h: Bytes)
    requires x < 0x10000 && |h| == 4
    requires h[0] as char in {LOWER[x / 4096], UPPER[x / 4096]}
    requires h[1] as char in {LOWER[x / 256 % 16], UPPER[x / 256 % 16]}
    requires h[2] as char in {LOWER[x / 16 % 16], UPPER[x / 16 % 16]}
    requires h[3] as char in {LOWER[x % 16], UPPER[x % 16]}
    ensures HexDigits(h) && HexOf(h) == x
  {
    hide Sixteen, HexDigits, HexOf;
    var a, b, c, d := x / 4096, x / 256 % 16, x / 16 % 16, x % 16;
    FourDigits(h, a, b, c, d);
    ToBaseSixteen(x);
  }

  lemma ToBaseSixteen(x: nat)
    ensures ((x / 4096 * 16 + x / 256 % 16) * 16 + x / 16 % 16) * 16 + x % 16 == x
  {
    var y, z := x / 16, x / 256;
    assert z == y / 16 && x / 4096 == z / 16;
    assert x == 16 * y + x % 16 && y == 16 * z + y % 16 && z == 16 * (z / 16) + z % 16;
  }

  /** The code's table of digits is that of the grammar. */
  lemma SameDigit(b: byte)
    ensures Sixteen(b) == HexValue(b)
  {
  }

  lemma SameEscape(c: byte)
    ensures ShortEscape(c) == if c in ESCAPES then Some(ESCAPES[c]) else None
  {
  }

  lemma SameNumber(a: int, b: int, c: int, d: int)
    ensures HexNumber(a, b, c, d) == ((a * 16 + b) * 16 + c) * 16 + d
  {
  }

  lemma NulIsNoDigit()
    ensures HexValue(NUL) == -1
  {
  }

  lemma HexReads(h: Bytes, s: Bytes, i: nat)
    requires HexDigits(h) && Has(s, i, h)
    ensures Hex4(s, i) == Some(HexOf(h))
  {
    hide HexNumber, HexValue, Sixteen, HexOf;
    NulIsNoDigit();
    SameDigits(h);
    assert s[i + 0] == h[0] && s[i + 1] == h[1] && s[i + 2] == h[2] && s[i + 3] == h[3];
  }

  lemma HexIsRead(s: Bytes, i: nat)
    requires i <= |s| && Hex4(s, i).Some?
    ensures HexDigits(s[i..i + 4]) && Has(s, i, s[i..i + 4]) && HexOf(s[i..i + 4]) == Hex4(s, i).value
  {
    hide HexValue, HexNumber, Sixteen, HexOf;
    var h := s[i..i + 4];
    assert h[0] == s[i] && h[1] == s[i + 1] && h[2] == s[i + 2] && h[3] == s[i + 3];
    SameDigits(h);
  }

  lemma SameDigits(h: Bytes)
    requires |h| == 4
    ensures forall k | 0 <= k < 4 :: Sixteen(h[k]) == HexValue(h[k])
    ensures HexDigits(h) ==> HexOf(h) == HexNumber(HexValue(h[0]), HexValue(h[1]), HexValue(h[2]), HexValue(h[3]))
  {
    forall k | 0 <= k < 4 ensures Sixteen(h[k]) == HexValue(h[k]) {
      SameDigit(h[k]);
    }
    hide Sixteen, HexValue;
    SameNumber(Sixteen(h[0]), Sixteen(h[1]), Sixteen(h[2]), Sixteen(h[3]));
  }

  lemma EscapeUAt(s: Bytes, i: nat)
    ensures Has(s, i, ESCAPE_U) <==> i + 1 < |s| && s[i] == BACKSLASH && s[i + 1] == LETTER_U
  {
    if Has(s, i, ESCAPE_U) {
      assert s[i + 0] == ESCAPE_U[0] && s[i + 1] == ESCAPE_U[1];
    }
  }

  lemma PairValue(lead: int, trail: int)
    requires Lead(lead) && Trail(trail)
    ensures PairCodePoint(lead, trail) == 0x10000 + (lead - 0xD800) * 1024 + (trail - 0xDC00)
    ensures Utf8.Scalar(PairCodePoint(lead, trail))
  {
  }

  lemma HexUnitDecodes(h: Bytes, s: Bytes, i: nat)
    requires UnitOk(Hex(h)) && Has(s, i, UnitText(Hex(h)))
    ensures DecodeStep(s, i) == Some(Unescaped(UnitValue(Hex(h)), 6))
  {
    hide Has, Hex4, HexOf, HexDigits, Utf16Bytes, Utf8.Encode, PairCodePoint;
    HasConcat(s, i, ESCAPE_U, h);
    EscapeUAt(s, i);
    HexReads(h, s, i + 2);
    EscapeWritesUtf8(HexOf(h), s, i);
  }

  lemma PairUnitDecodes(h: Bytes, t: Bytes, s: Bytes, i: nat)
    requires UnitOk(Pair(h, t)) && Has(s, i, UnitText(Pair(h, t)))
    ensures DecodeStep(s, i) == Some(Unescaped(UnitValue(Pair(h, t)), 12))
  {
    assert |h| == 4;
    hide Has, Hex4, HexOf, HexDigits, Utf16Bytes, Utf8.Encode, PairCodePoint;
    HasConcat(s, i, ESCAPE_U, h + (ESCAPE_U + t));
    HasConcat(s, i + 2, h, ESCAPE_U + t);
    HasConcat(s, i + 6, ESCAPE_U, t);
    EscapeUAt(s, i);
    EscapeUAt(s, i + 6);
    HexReads(h, s, i + 2);
    HexReads(t, s, i + 8);
    PairValue(HexOf(h), HexOf(t));
    EscapeWritesUtf8(PairCodePoint(HexOf(h), HexOf(t)), s, i);
    assert ParseUtf16(s, i + 1) == Some(Unescaped(Utf16Bytes(PairCodePoint(HexOf(h), HexOf(t))), 11));
  }

  lemma UnitLengths(u: Unit)
    requires UnitOk(u)
    ensures |UnitText(u)| == match u { case Plain(_) => 1 case Short(_) => 2 case Hex(_) => 6 case Pair(_, _) => 12 }
    ensures UnitText(u)[0] != QUOTE
  {
  }

  /** A unit decodes to its value in one step. */
  lemma UnitDecodes(u: Unit, s: Bytes, i: nat)
    requires UnitOk(u) && Has(s, i, UnitText(u))
    ensures i < |s| && s[i] != QUOTE
    ensures DecodeStep(s, i) == Some(Unescaped(UnitValue(u), |UnitText(u)|))
  {
    UnitLengths(u);
    assert s[i + 0] == UnitText(u)[0];
    match u
    case Plain(b) =>
    case Short(c) => assert s[i + 1] == UnitText(u)[1];
    case Hex(h) => HexUnitDecodes(h, s, i);
    case Pair(h, t) => PairUnitDecodes(h, t, s, i);
  }

  /** The unit one successful step has read. */
  lemma StepReadsUnit(s: Bytes, i: nat) returns (u: Unit)
    requires i < |s| && s[i] != QUOTE && DecodeStep(s, i).Some?
    ensures UnitOk(u) && Has(s, i, UnitText(u))
    ensures DecodeStep(s, i) == Some(Unescaped(UnitValue(u), |UnitText(u)|))
  {
    hide DecodeStep;
    StepShapes(s, i);
    var k := DecodeStep(s, i).value.len;
    if k == 1 {
      u := Plain(s[i]);
    } else if k == 2 {
      u := Short(s[i + 1]);
    } else {
      u := StepReadsHexUnit(s, i);
    }
    UnitDecodes(u, s, i);
  }

  lemma StepReadsHexUnit(s: Bytes, i: nat) returns (u: Unit)
    requires i < |s| && DecodeStep(s, i).Some? && DecodeStep(s, i).value.len >= 6
    ensures UnitOk(u) && Has(s, i, UnitText(u))
  {
    hide DecodeStep, Has, Hex4, HexOf, HexDigits, Utf16Bytes, PairCodePoint, Sixteen;
    StepShapes(s, i);
    EscapeUAt(s, i);
    HexIsRead(s, i + 2);
    var h := s[i + 2..i + 6];
    if DecodeStep(s, i).value.len == 6 {
      u := Hex(h);
      HasConcat(s, i, ESCAPE_U, h);
    } else {
      EscapeUAt(s, i + 6);
      HexIsRead(s, i + 8);
      var t := s[i + 8..i + 12];
      u := Pair(h, t);
      HasConcat(s, i + 6, ESCAPE_U, t);
      HasConcat(s, i + 2, h, ESCAPE_U + t);
      HasConcat(s, i, ESCAPE_U, h + (ESCAPE_U + t));
    }
  }

  // ---------------------------------------------------------------- whole literals

  lemma UnitsCons(u: Unit, us: seq<Unit>)
    requires UnitOk(u) && UnitsOk(us)
    ensures UnitsOk([u] + us) && UnitsText([u] + us) == UnitText(u) + UnitsText(us)
    ensures UnitsValue([u] + us) == UnitValue(u) + UnitsValue(us)
  {
    hide UnitOk, UnitText, UnitValue;
    assert ([u] + us)[1..] == us;
  }

  lemma {:induction false} UnitsDecode(us: seq<Unit>, s: Bytes, i: nat)
    requires UnitsOk(us) && Has(s, i, UnitsText(us) + [QUOTE])
    ensures i <= |s| && ClosingQuote(s, i) == Some(i + |UnitsText(us)|)
    ensures Decode(s, i) == Some(UnitsValue(us))
  {
    hide Has, DecodeStep, UnitOk, UnitText, UnitValue;
    HasConcat(s, i, UnitsText(us), [QUOTE]);
    HasOne(s, i + |UnitsText(us)|, QUOTE);
    if us != [] {
      HasConcat(s, i, UnitText(us[0]), UnitsText(us[1..]));
      UnitDecodes(us[0], s, i);
      HasConcat(s, i + |UnitText(us[0])|, UnitsText(us[1..]), [QUOTE]);
      StepInside(s, i);
      UnitsDecode(us[1..], s, i + |UnitText(us[0])|);
    }
  }

  lemma {:induction false} BodyIsUnits(s: Bytes, i: nat) returns (us: seq<Unit>)
    requires i <= |s| && ClosingQuote(s, i).Some? && Decode(s, i).Some?
    ensures UnitsOk(us) && Has(s, i, UnitsText(us) + [QUOTE]) && UnitsValue(us) == Decode(s, i).value
    ensures ClosingQuote(s, i).value == i + |UnitsText(us)|
    decreases |s| - i
  {
    hide Has, DecodeStep, UnitOk, UnitText, UnitValue;
    if s[i] == QUOTE {
      us := [];
      assert UnitsText(us) == [];
    } else {
      var u := StepReadsUnit(s, i);
      StepInside(s, i);
      var tail := BodyIsUnits(s, i + |UnitText(u)|);
      us := [u] + tail;
      UnitsCons(u, tail);
      HasConcat(s, i + |UnitText(u)|, UnitsText(tail), [QUOTE]);
      HasConcat(s, i, UnitText(u), UnitsText(tail));
    }
    HasOne(s, i + |UnitsText(us)|, QUOTE);
    HasConcat(s, i, [], [QUOTE]);
    HasConcat(s, i, UnitsText(us), [QUOTE]);
    assert [] + [QUOTE] == [QUOTE];
  }

  /** Every literal of the grammar is accepted, with its value and the cursor behind it. */
  lemma LiteralReads(us: seq<Unit>, s: Bytes, i: nat)
    requires UnitsOk(us) && Has(s, i, LiteralText(us))
    ensures i <= |s| && GetQuoted(s, i) == Some(Quoted(LiteralValue(us), i + |LiteralText(us)|))
  {
    hide Has, Decode, UnitsValue, UnitsText, UnitsOk;
    HasCons(s, i, QUOTE, UnitsText(us) + [QUOTE]);
    UnitsDecode(us, s, i + 1);
  }

  lemma LiteralIsRead(s: Bytes, i: nat) returns (us: seq<Unit>)
    requires i <= |s| && GetQuoted(s, i).Some?
    ensures UnitsOk(us) && Has(s, i, LiteralText(us))
    ensures GetQuoted(s, i).value == Quoted(LiteralValue(us), i + |LiteralText(us)|)
  {
    hide Has, Decode, UnitsValue, UnitsText, UnitsOk;
    us := BodyIsUnits(s, i + 1);
    HasCons(s, i, QUOTE, UnitsText(us) + [QUOTE]);
  }

  /**
   * `get_quoted_string` accepts exactly the literals of the grammar, with the value the grammar
   * gives them (cut at an embedded NUL) and the cursor behind the closing quote.
   */
  lemma LiteralGrammar(s: Bytes, i: nat, q: Quoted)
    requires i <= |s|
    ensures GetQuoted(s, i) == Some(q) <==>
            exists us | UnitsOk(us) ::
              Has(s, i, LiteralText(us)) && q == Quoted(LiteralValue(us), i + |LiteralText(us)|)
  {
    if GetQuoted(s, i) == Some(q) {
      var us := LiteralIsRead(s, i);
    }
    hide GetQuoted, LiteralText, UnitsOk, LiteralValue, Has;
    if us :| UnitsOk(us) && Has(s, i, LiteralText(us)) && q == Quoted(LiteralValue(us), i + |LiteralText(us)|) {
      LiteralReads(us, s, i);
    }
  }

  // ---------------------------------------------------------------- the printer

  function HexDigit(d: int): byte
    requires 0 <= d < 16
  {
    if d < 10 then 48 + d else 87 + d
  }

  /** What `json_serialize_string` appends for one character. */
  function PrintByte(c: byte): (t: Bytes)
    ensures |t| > 0
  {
    if c == QUOTE || c == BACKSLASH || c == SLASH then [BACKSLASH, c]
    else if c == 8 then [BACKSLASH, 98]
    else if c == 12 then [BACKSLASH, 102]
    else if c == 10 then [BACKSLASH, 110]
    else if c == 13 then [BACKSLASH, 114]
    else if c == 9 then [BACKSLASH, 116]
    else if c < 0x20 then [BACKSLASH, LETTER_U, 48, 48, HexDigit(c / 16), HexDigit(c % 16)]
    else [c]
  }

  function PrintBytes(s: Bytes): Bytes {
    if s == [] then [] else PrintByte(s[0]) + PrintBytes(s[1..])
  }

  function PrintString(s: Bytes): Bytes {
    [QUOTE] + (PrintBytes(s) + [QUOTE])
  }

  lemma HexDigitValue(d: int)
    requires 0 <= d < 16
    ensures HexValue(HexDigit(d)) == d
  {
  }

  lemma ControlUnit(c: byte)
    requires c < 0x20
    ensures var u := Hex([48, 48, HexDigit(c / 16), HexDigit(c % 16)]);
            UnitOk(u) && UnitValue(u) == [c]
  {
    var h := [48, 48, HexDigit(c / 16), HexDigit(c % 16)];
    assert HexValue(48) == 0;
    HexDigitValue(c / 16);
    HexDigitValue(c % 16);
    Utf8.Ascii(c);
    hide HexValue, HexDigit, Utf8.Encode;
    assert HexOf(h) == c;
  }

  /** The unit of the grammar that the printer writes for a byte. */
  function UnitOf(c: byte): Unit {
    var p := PrintByte(c);
    if |p| == 1 then Plain(c)
    else if |p| == 2 then Short(p[1])
    else Hex([48, 48, HexDigit(c / 16 % 16), HexDigit(c % 16)])
  }

  lemma PrintedUnit(c: byte)
    ensures UnitOk(UnitOf(c)) && UnitText(UnitOf(c)) == PrintByte(c) && UnitValue(UnitOf(c)) == [c]
  {
    if |PrintByte(c)| > 2 {
      ControlUnit(c);
      assert UnitText(UnitOf(c)) == PrintByte(c);
      hide HexDigit, Utf8.Encode, HexOf;
    }
  }

  function UnitsOf(s: Bytes): seq<Unit> {
    if s == [] then [] else [UnitOf(s[0])] + UnitsOf(s[1..])
  }

  lemma {:induction false} PrintedUnits(s: Bytes)
    ensures UnitsOk(UnitsOf(s)) && UnitsText(UnitsOf(s)) == PrintBytes(s) && UnitsValue(UnitsOf(s)) == s
  {
    if s != [] {
      PrintedUnit(s[0]);
      PrintedUnits(s[1..]);
      hide UnitOk, UnitText, UnitValue, PrintByte, UnitsText, UnitsValue, UnitsOk, UnitOf;
      UnitsCons(UnitOf(s[0]), UnitsOf(s[1..]));
      assert s == [s[0]] + s[1..];
    }
  }

  /** The printed form of a C string is a literal of the grammar with that string as its value. */
  lemma PrintedLiteral(s: Bytes)
    requires NulFree(s)
    ensures UnitsOk(UnitsOf(s)) && LiteralText(UnitsOf(s)) == PrintString(s) && LiteralValue(UnitsOf(s)) == s
  {
    hide UnitsText, PrintBytes, UnitsOk, UnitsValue, UnitsOf;
    PrintedUnits(s);
    CViewOfNulFree(s);
  }

  /** Printing and reading undo each other, whatever follows the printed string. */
  lemma PrintThenRead(v: Bytes, s: Bytes, i: nat)
    requires NulFree(v) && Has(s, i, PrintString(v))
    ensures i <= |s| && GetQuoted(s, i) == Some(Quoted(v, i + |PrintString(v)|))
  {
    hide GetQuoted, PrintString, LiteralText, LiteralValue, UnitsOk, Has;
    PrintedLiteral(v);
    LiteralReads(UnitsOf(v), s, i);
  }
}
