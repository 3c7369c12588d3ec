/**
 * The serializer prints the shortest literal there is for a string when every slash is to be escaped; among
 * those of that length, the one with lower-case hexadecimal digits.
 */
module ShortestLiterals {
  import opened Bytes
  import opened Literals
  import opened Utf8

  predicate NoPlainSlash(us: seq<Unit>) {
    forall i | 0 <= i < |us| :: us[i] != Plain(SLASH)
  }

  predicate LowerDigits(h: Bytes) {
    forall k | 0 <= k < |h| :: !('A' as int <= h[k] <= 'F' as int)
  }

  predicate LowerCased(u: Unit) {
    match u
    case Hex(h) => LowerDigits(h)
    case Pair(h, t) => LowerDigits(h) && LowerDigits(t)
    case _ => true
  }

  predicate AllLowerCased(us: seq<Unit>) {
    forall i | 0 <= i < |us| :: LowerCased(us[i])
  }

  // ---------------------------------------------------------------- one unit

  lemma LowerDigit(b: byte)
    requires Sixteen(b) >= 0 && !('A' as int <= b <= 'F' as int)
    ensures b == HexDigit(Sixteen(b))
  {
  }

  lemma HighByte(b: byte)
    requires b >= 0x80
    ensures PrintByte(b) == [b]
  {
  }

  lemma OneByte(b: byte)
    ensures PrintBytes([b]) == PrintByte(b)
  {
    assert [b][1..] == [];
    assert PrintBytes([b]) == PrintByte(b) + [];
  }

  lemma {:induction false} HighBytes(t: Bytes)
    requires forall k | 0 <= k < |t| :: t[k] >= 0x80
    ensures |PrintBytes(t)| == |t|
  {
    hide PrintByte;
    if t != [] {
      HighByte(t[0]);
      HighBytes(t[1..]);
    }
  }

  /** A code point outside ASCII is encoded in bytes that are printed as they are. */
  lemma EncodedHigh(cp: int)
    requires 0x80 <= cp && Scalar(cp)
    ensures |PrintBytes(Encode(cp))| == |Encode(cp)| && |Encode(cp)| <= 4 && (cp < 0x10000 ==> |Encode(cp)| <= 3)
  {
    assert forall k | 0 <= k < |Encode(cp)| :: Encode(cp)[k] >= 0x80;
    HighBytes(Encode(cp));
  }

  /** A control character that has no shorter escape. */
  predicate NeedsHex(c: byte) {
    c < 0x20 && c != 8 && c != 9 && c != 10 && c != 12 && c != 13
  }

  lemma PrintLengths(c: byte)
    ensures |PrintByte(c)| <= 6 && (|PrintByte(c)| == 6 <==> NeedsHex(c))
  {
  }

  lemma HexPrinted(h: Bytes, c: byte)
    requires HexDigits(h) && HexOf(h) == c && LowerDigits(h) && NeedsHex(c)
    ensures PrintByte(c) == ESCAPE_U + h
  {
    LowerDigit(h[0]);
    LowerDigit(h[1]);
    LowerDigit(h[2]);
    LowerDigit(h[3]);
    hide Sixteen;
    assert Sixteen(h[0]) == 0 && Sixteen(h[1]) == 0 && Sixteen(h[2]) == c / 16 && Sixteen(h[3]) == c % 16;
    assert h == [h[0], h[1], h[2], h[3]];
  }

  lemma ShortPrinted(c: byte)
    requires c in ESCAPES
    ensures PrintByte(ESCAPES[c]) == [BACKSLASH, c]
  {
  }

  lemma HexNoShorter(h: Bytes)
    requires UnitOk(Hex(h))
    ensures |PrintBytes(UnitValue(Hex(h)))| <= 6
    ensures |PrintBytes(UnitValue(Hex(h)))| == 6 && LowerDigits(h) ==> PrintBytes(UnitValue(Hex(h))) == ESCAPE_U + h
  {
    hide HexDigits, HexOf, Encode, PrintBytes, PrintByte, LowerDigits;
    var cp := HexOf(h);
    if cp < 0x80 {
      Ascii(cp);
      OneByte(cp);
      PrintLengths(cp);
      if NeedsHex(cp) && LowerDigits(h) {
        HexPrinted(h, cp);
      }
    } else {
      EncodedHigh(cp);
    }
  }

  lemma PairNoShorter(h: Bytes, t: Bytes)
    requires UnitOk(Pair(h, t))
    ensures |PrintBytes(UnitValue(Pair(h, t)))| <= 4
  {
    hide HexDigits, HexOf, Encode, PrintBytes;
    EncodedHigh(0x10000 + (HexOf(h) - 0xD800) * 1024 + (HexOf(t) - 0xDC00));
  }

  /** No unit but a plain slash is shorter than what is printed for its value. */
  lemma UnitNoShorter(u: Unit)
    requires UnitOk(u) && u != Plain(SLASH)
    ensures |PrintBytes(UnitValue(u))| <= |UnitText(u)|
    ensures |PrintBytes(UnitValue(u))| == |UnitText(u)| && LowerCased(u) ==> PrintBytes(UnitValue(u)) == UnitText(u)
  {
    hide HexOf, Encode, PrintBytes, HexDigits;
    match u
    case Plain(b) => OneByte(b);
    case Short(c) => OneByte(ESCAPES[c]); ShortPrinted(c);
    case Hex(h) => HexLength(h); HexNoShorter(h);
    case Pair(h, t) => HexLength(h); HexLength(t); PairNoShorter(h, t);
  }

  lemma HexLength(h: Bytes)
    requires HexDigits(h)
    ensures |h| == 4
  {
  }

  // ---------------------------------------------------------------- whole literals

  lemma {:induction false} PrintConcat(a: Bytes, b: Bytes)
    ensures PrintBytes(a + b) == PrintBytes(a) + PrintBytes(b)
  {
    hide PrintByte;
    if a == [] {
      assert a + b == b;
    } else {
      PrintConcat(a[1..], b);
      assert (a + b)[1..] == a[1..] + b;
    }
  }

  lemma {:induction false} UnitsNoShorter(us: seq<Unit>)
    requires UnitsOk(us) && NoPlainSlash(us)
    ensures |PrintBytes(UnitsValue(us))| <= |UnitsText(us)|
    ensures |PrintBytes(UnitsValue(us))| == |UnitsText(us)| && AllLowerCased(us) ==>
              PrintBytes(UnitsValue(us)) == UnitsText(us)
  {
    hide UnitOk, UnitText, UnitValue, PrintByte, LowerCased;
    if us != [] {
      UnitNoShorter(us[0]);
      UnitsNoShorter(us[1..]);
      PrintConcat(UnitValue(us[0]), UnitsValue(us[1..]));
    }
  }

  /**
   * No literal that means the bytes and escapes its slashes is shorter than the printed one; and the printed
   * one is the only one of that length with lower-case digits.
   */
  lemma PrintedIsShortest(us: seq<Unit>)
    requires UnitsOk(us) && NoPlainSlash(us)
    ensures |PrintString(UnitsValue(us))| <= |LiteralText(us)|
    ensures |PrintString(UnitsValue(us))| == |LiteralText(us)| && AllLowerCased(us) ==>
              PrintString(UnitsValue(us)) == LiteralText(us)
  {
    hide UnitsText, UnitsValue, PrintBytes, UnitsOk, NoPlainSlash, AllLowerCased;
    UnitsNoShorter(us);
  }

  /** The printed literal is one of them. */
  lemma {:induction false} PrintedIsSuch(s: Bytes)
    ensures UnitsOk(UnitsOf(s)) && NoPlainSlash(UnitsOf(s)) && AllLowerCased(UnitsOf(s))
    ensures UnitsValue(UnitsOf(s)) == s && LiteralText(UnitsOf(s)) == PrintString(s)
  {
    PrintedUnits(s);
    hide UnitsText, UnitsValue, PrintBytes, UnitsOk;
    UnitsAreSuch(s);
  }

  lemma {:induction false} UnitsAreSuch(s: Bytes)
    ensures NoPlainSlash(UnitsOf(s)) && AllLowerCased(UnitsOf(s))
  {
    hide UnitOf, LowerCased;
    if s != [] {
      UnitIsSuch(s[0]);
      UnitsAreSuch(s[1..]);
    }
  }

  lemma UnitIsSuch(c: byte)
    ensures UnitOf(c) != Plain(SLASH) && LowerCased(UnitOf(c))
  {
  }
}
