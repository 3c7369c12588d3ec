/**
 * String literals: the quote scanner and the escape decoder
 * (RFC 8259 section 7, surrogate pairs as in RFC 2781 section 2.2).
 */
module Strings {
  import opened Bytes
  import Utf8

  const LETTER_U: byte := 117

  // ---------------------------------------------------------------- hexadecimal escapes

  function HexValue(c: byte): (v: int)
    ensures -1 <= v <= 15
  {
    if 48 <= c <= 57 then c - 48
    else if 97 <= c <= 102 then c - 97 + 10
    else if 65 <= c <= 70 then c - 65 + 10
    else -1
  }

  function HexNumber(a: int, b: int, c: int, d: int): int {
    a * 4096 + b * 256 + c * 16 + d
  }

  /** `parse_utf16_hex`: four hexadecimal digits, none of them read past the NUL. */
  function Hex4(s: Bytes, i: nat): (r: Option<int>)
    requires i <= |s|
    ensures r.Some? ==> 0 <= r.value <= 0xFFFF && i + 4 <= |s|
  {
    if At(s, i) == NUL || At(s, i + 1) == NUL || At(s, i + 2) == NUL || At(s, i + 3) == NUL then None
    else
      var x1, x2, x3, x4 := HexValue(s[i]), HexValue(s[i + 1]), HexValue(s[i + 2]), HexValue(s[i + 3]);
      if x1 == -1 || x2 == -1 || x3 == -1 || x4 == -1 then None
      else Some(HexNumber(x1, x2, x3, x4))
  }

  predicate Lead(u: int) { 0xD800 <= u <= 0xDBFF }

  predicate Trail(u: int) { 0xDC00 <= u <= 0xDFFF }

  function PairCodePoint(lead: int, trail: int): (cp: int)
    ensures Lead(lead) && Trail(trail) ==> 0x10000 <= cp <= 0x10FFFF
  {
    (lead - 0xD800) % 1024 * 1024 + (trail - 0xDC00) % 1024 + 0x10000
  }

  /** Surrogate pairs stand one-to-one for the code points U+10000 to U+10FFFF. */
  lemma SurrogatePairsBijective(lead: int, trail: int, cp: int)
    requires Lead(lead) && Trail(trail)
    requires 0x10000 <= cp <= 0x10FFFF
    ensures PairCodePoint(lead, trail) == cp <==>
            lead == 0xD800 + (cp - 0x10000) / 1024 && trail == 0xDC00 + (cp - 0x10000) % 1024
    ensures Lead(0xD800 + (cp - 0x10000) / 1024) && Trail(0xDC00 + (cp - 0x10000) % 1024)
  {
    assert (lead - 0xD800) % 1024 == lead - 0xD800 && (trail - 0xDC00) % 1024 == trail - 0xDC00;
  }

  /** The bytes `parse_utf16` writes for a code point; the masks are the C code's own. */
  function Utf16Bytes(cp: int): (out: Bytes)
    requires 0 <= cp <= 0x10FFFF
    ensures 1 <= |out| <= 4
  {
    if cp < 0x80 then [cp]
    else if cp < 0x800 then [0xC0 + cp / 64 % 32, 0x80 + cp % 64]
    else if cp < 0x10000 then [0xE0 + cp / 64 / 64 % 16, 0x80 + cp / 64 % 64, 0x80 + cp % 64]
    else [0xF0 + cp / 64 / 64 / 64 % 8, 0x80 + cp / 64 / 64 % 64, 0x80 + cp / 64 % 64, 0x80 + cp % 64]
  }

  /** What the escape writes is the UTF-8 encoding of its code point, so the validator takes it back. */
  lemma EscapeWritesUtf8(cp: int, s: Bytes, i: nat)
    requires Utf8.Scalar(cp)
    ensures Utf16Bytes(cp) == Utf8.Encode(cp)
    ensures Has(s, i, Utf16Bytes(cp)) ==> Utf8.VerifySequence(s, i) == Utf8.Good(cp, |Utf16Bytes(cp)|)
  {
    assert Utf16Bytes(cp) == Utf8.Encode(cp);
    hide Utf16Bytes, Utf8.Encode, Utf8.VerifySequence, Has;
    if Has(s, i, Utf16Bytes(cp)) {
      Utf8.EncodingIsAccepted(cp, s, i);
    }
  }

  /** What one step of the decoder writes and how many bytes it reads. */
  datatype Unescaped = Unescaped(out: Bytes, len: nat)

  /** `parse_utf16`, from the `u` at position `i` on. */
  function ParseUtf16(s: Bytes, i: nat): (r: Option<Unescaped>)
    requires i < |s|
    ensures r.Some? ==> (r.value.len == 5 || r.value.len == 11) && i + r.value.len <= |s| && 1 <= |r.value.out| <= 4
  {
    match Hex4(s, i + 1)
    case None => None
    case Some(cp) =>
      if cp < 0xD800 || cp > 0xDFFF then Some(Unescaped(Utf16Bytes(cp), 5))
      else if !Lead(cp) then None
      else if At(s, i + 5) != BACKSLASH || At(s, i + 6) != LETTER_U then None
      else
        match Hex4(s, i + 7)
        case None => None
        case Some(trail) =>
          if trail < 0xDC00 || trail > 0xDFFF then None
          else Some(Unescaped(Utf16Bytes(PairCodePoint(cp, trail)), 11))
  }

  // ---------------------------------------------------------------- one step of the decoder

  /** The byte a two-character escape stands for. */
  function ShortEscape(c: byte): Option<byte> {
    if c == QUOTE || c == BACKSLASH || c == SLASH then Some(c)
    else if c == 98 then Some(8)
    else if c == 102 then Some(12)
    else if c == 110 then Some(10)
    else if c == 114 then Some(13)
    else if c == 116 then Some(9)
    else None
  }

  /** One iteration of the loop of `process_string`. */
  function DecodeStep(s: Bytes, i: nat): (r: Option<Unescaped>)
    requires i < |s|
    ensures r.Some? ==> 1 <= r.value.len && i + r.value.len <= |s| && 1 <= |r.value.out| <= r.value.len
  {
    if s[i] == BACKSLASH then
      var c := At(s, i + 1);
      if ShortEscape(c).Some? then Some(Unescaped([ShortEscape(c).value], 2))
      else if c == LETTER_U then
        match ParseUtf16(s, i + 1)
        case None => None
        case Some(u) => Some(Unescaped(u.out, u.len + 1))
      else None
    else if s[i] < 0x20 then None
    else Some(Unescaped([s[i]], 1))
  }

  predicate HexEscapeAt(s: Bytes, i: nat) {
    i + 1 < |s| && s[i] == BACKSLASH && s[i + 1] == LETTER_U && Hex4(s, i + 2).Some?
  }

  /** The four things one decoding step can have read, and what it made of them. */
  lemma StepShapes(s: Bytes, i: nat)
    requires i < |s| && DecodeStep(s, i).Some?
    ensures var u := DecodeStep(s, i).value;
            || (u.len == 1 && s[i] != BACKSLASH && s[i] >= 0x20 && u.out == [s[i]])
            || (u.len == 2 && s[i] == BACKSLASH && s[i + 1] != LETTER_U
                && ShortEscape(s[i + 1]).Some? && u.out == [ShortEscape(s[i + 1]).value])
            || (u.len == 6 && HexEscapeAt(s, i) && !(0xD800 <= Hex4(s, i + 2).value <= 0xDFFF)
                && u.out == Utf16Bytes(Hex4(s, i + 2).value))
            || (u.len == 12 && HexEscapeAt(s, i) && HexEscapeAt(s, i + 6)
                && Lead(Hex4(s, i + 2).value) && Trail(Hex4(s, i + 8).value)
                && u.out == Utf16Bytes(PairCodePoint(Hex4(s, i + 2).value, Hex4(s, i + 8).value)))
  {
    hide Hex4, Utf16Bytes, PairCodePoint;
  }

  // ---------------------------------------------------------------- the scanner

  /** Where the closing quote stands, as `skip_quotes` finds it: a backslash hides its successor. */
  function ClosingQuote(s: Bytes, i: nat): (r: Option<nat>)
    requires i <= |s|
    ensures r.Some? ==> i <= r.value < |s| && s[r.value] == QUOTE
    decreases |s| - i
  {
    if i == |s| then None
    else if s[i] == QUOTE then Some(i)
    else if s[i] == BACKSLASH then
      if i + 1 == |s| then None else ClosingQuote(s, i + 2)
    else ClosingQuote(s, i + 1)
  }

  /** A run of bytes that are neither quotes nor backslashes stays inside the literal. */
  lemma {:induction false} PlainRun(s: Bytes, i: nat, k: nat)
    requires i + k <= |s| && forall j | i <= j < i + k :: s[j] != QUOTE && s[j] != BACKSLASH
    ensures ClosingQuote(s, i) == ClosingQuote(s, i + k)
    decreases k
  {
    if k > 0 {
      PlainRun(s, i + 1, k - 1);
    }
  }

  lemma HexDigitsArePlain(s: Bytes, i: nat)
    requires i <= |s| && Hex4(s, i).Some?
    ensures forall j | i <= j < i + 4 :: s[j] != QUOTE && s[j] != BACKSLASH
  {
    hide HexValue, HexNumber;
    forall j | i <= j < i + 4 ensures s[j] != QUOTE && s[j] != BACKSLASH {
      HexDigitIsPlain(s[j]);
    }
  }

  lemma HexDigitIsPlain(b: byte)
    ensures HexValue(b) != -1 ==> b != QUOTE && b != BACKSLASH
  {
  }

  /** An escape `\uXXXX`, or the second half of a pair, stays inside the literal. */
  lemma HexEscapeInside(s: Bytes, i: nat)
    requires HexEscapeAt(s, i)
    ensures i + 6 <= |s| && ClosingQuote(s, i) == ClosingQuote(s, i + 6)
  {
    HexDigitsArePlain(s, i + 2);
    PlainRun(s, i + 2, 4);
  }

  /**
   * Scanner and decoder stay aligned: inside a literal a decoding step ends where the scanner,
   * started there, finds the same closing quote; so it stops at or before that quote.
   */
  lemma StepInside(s: Bytes, i: nat)
    requires i < |s| && s[i] != QUOTE && DecodeStep(s, i).Some?
    ensures ClosingQuote(s, i) == ClosingQuote(s, i + DecodeStep(s, i).value.len)
  {
    StepShapes(s, i);
    hide DecodeStep, HexEscapeAt;
    var k := DecodeStep(s, i).value.len;
    if k >= 6 {
      HexEscapeInside(s, i);
      if k == 12 {
        HexEscapeInside(s, i + 6);
      }
    }
  }

  // ---------------------------------------------------------------- whole literals

  /** The decoded bytes between `i` and the closing quote, or nothing if something there is refused. */
  function Decode(s: Bytes, i: nat): (r: Option<Bytes>)
    requires i <= |s| && ClosingQuote(s, i).Some?
    ensures r.Some? ==> |r.value| <= ClosingQuote(s, i).value - i
    decreases |s| - i
  {
    if s[i] == QUOTE then Some([])
    else
      match DecodeStep(s, i)
      case None => None
      case Some(u) =>
        StepInside(s, i);
        match Decode(s, i + u.len)
        case None => None
        case Some(tail) => Some(u.out + tail)
  }

  /** A string and the position of the cursor behind it. */
  datatype Quoted = Quoted(value: Bytes, next: nat)

  /** `get_quoted_string`: the value as later readers see it, and the cursor behind the closing quote. */
  function GetQuoted(s: Bytes, i: nat): (r: Option<Quoted>)
    requires i <= |s|
    ensures r.Some? ==> i + 2 <= r.value.next <= |s| && NulFree(r.value.value)
  {
    if At(s, i) != QUOTE || ClosingQuote(s, i + 1).None? then None
    else
      match Decode(s, i + 1)
      case None => None
      case Some(v) => Some(Quoted(CView(v), ClosingQuote(s, i + 1).value + 1))
  }
}
