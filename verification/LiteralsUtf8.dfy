/** Decoding keeps valid UTF-8 valid: a literal whose body is UTF-8 yields a UTF-8 string. */
module LiteralsUtf8 {
  import opened Bytes
  import opened Strings
  import opened Literals
  import opened Utf8

  predicate AsciiRun(s: Bytes, i: nat, k: nat) {
    i + k <= |s| && forall j | i <= j < i + k :: s[j] < 0x80
  }

  lemma {:induction false} DropAscii(s: Bytes, i: nat, k: nat)
    requires AsciiRun(s, i, k) && Utf8From(s, i)
    ensures Utf8From(s, i + k)
    decreases k
  {
    hide Utf8From, Has;
    if k > 0 {
      var cp := Utf8Head(s, i);
      FirstByte(cp, s, i);
      Ascii(s[i]);
      DropAscii(s, i + 1, k - 1);
    }
  }

  /** The first byte of an encoding tells ASCII from everything else. */
  lemma FirstByte(cp: int, s: Bytes, i: nat)
    requires Scalar(cp) && Has(s, i, Encode(cp))
    ensures i < |s| && (s[i] < 0x80 <==> cp < 0x80)
    ensures cp < 0x80 ==> s[i] == cp
    ensures cp >= 0x80 ==> forall k | 0 <= k < |Encode(cp)| :: Encode(cp)[k] >= 0x80
  {
    assert s[i + 0] == Encode(cp)[0];
  }

  lemma EscapesAreAscii(u: Unit, s: Bytes, i: nat)
    requires UnitOk(u) && Has(s, i, UnitText(u)) && !(u.Plain? && u.b >= 0x80)
    ensures AsciiRun(s, i, |UnitText(u)|)
  {
    var t := UnitText(u);
    assert forall k | 0 <= k < |t| :: t[k] < 0x80;
    forall j | i <= j < i + |t| ensures s[j] < 0x80 {
      assert s[i + (j - i)] == t[j - i];
    }
  }

  lemma UnitValueIsUtf8(u: Unit)
    requires UnitOk(u) && !(u.Plain? && u.b >= 0x80)
    ensures IsUtf8(UnitValue(u))
  {
    var cp := match u
      case Plain(b) => b
      case Short(c) => ESCAPES[c]
      case Hex(h) => HexOf(h)
      case Pair(h, t) => 0x10000 + (HexOf(h) - 0xD800) * 1024 + (HexOf(t) - 0xDC00);
    if !u.Hex? && !u.Pair? {
      Ascii(cp);
    }
    hide Encode, HexOf;
    assert EncodeAll([cp]) == Encode(cp) + EncodeAll([]) == Encode(cp);
  }

  lemma {:induction false} EncodeAllConcat(a: seq<int>, b: seq<int>)
    requires AllScalar(a) && AllScalar(b)
    ensures AllScalar(a + b) && EncodeAll(a + b) == EncodeAll(a) + EncodeAll(b)
  {
    hide Encode;
    if a == [] {
      assert a + b == b;
    } else {
      EncodeAllConcat(a[1..], b);
      assert (a + b)[1..] == a[1..] + b;
    }
  }

  lemma Utf8Concat(s: Bytes, t: Bytes)
    requires IsUtf8(s) && IsUtf8(t)
    ensures IsUtf8(s + t)
  {
    var a :| AllScalar(a) && EncodeAll(a) == s;
    var b :| AllScalar(b) && EncodeAll(b) == t;
    EncodeAllConcat(a, b);
  }

  /** A multi-byte sequence in a literal body is a run of plain units that decode to themselves. */
  lemma {:induction false} HighBytesArePlain(us: seq<Unit>, s: Bytes, i: nat, t: Bytes) returns (rest: seq<Unit>)
    requires UnitsOk(us) && Has(s, i, UnitsText(us)) && Has(s, i, t) && |t| <= |UnitsText(us)|
    requires forall k | 0 <= k < |t| :: t[k] >= 0x80
    ensures |rest| == |us| - |t| && UnitsOk(rest) && |UnitsText(us)| == |t| + |UnitsText(rest)|
    ensures Has(s, i + |t|, UnitsText(rest))
    ensures UnitsValue(us) == t + UnitsValue(rest)
    decreases |t|
  {
    hide Has, UnitText, UnitOk, UnitValue, UnitsText, UnitsOk, UnitsValue;
    if t == [] {
      rest := us;
      NothingInFront(UnitsValue(us));
    } else {
      NoUnits();
      var u := us[0];
      FirstUnit(us);
      HasConcat(s, i, UnitText(u), UnitsText(us[1..]));
      ConsIsWhole(t);
      HasCons(s, i, t[0], t[1..]);
      HighUnitIsPlain(u, s, i);
      rest := HighBytesArePlain(us[1..], s, i + 1, t[1..]);
      ConcatAssoc([t[0]], t[1..], UnitsValue(rest));
    }
  }

  lemma NoUnits()
    ensures UnitsText([]) == []
  {
  }

  lemma FirstUnit(us: seq<Unit>)
    requires UnitsOk(us) && us != []
    ensures UnitOk(us[0]) && UnitsOk(us[1..])
    ensures UnitsText(us) == UnitText(us[0]) + UnitsText(us[1..])
    ensures UnitsValue(us) == UnitValue(us[0]) + UnitsValue(us[1..])
  {
    hide UnitOk, UnitText, UnitValue;
  }

  lemma ConsIsWhole<T>(t: seq<T>)
    requires t != []
    ensures [t[0]] + t[1..] == t
  {
  }

  lemma HighUnitIsPlain(u: Unit, s: Bytes, i: nat)
    requires UnitOk(u) && Has(s, i, UnitText(u)) && i < |s| && s[i] >= 0x80
    ensures UnitText(u) == UnitValue(u) == [s[i]]
  {
    assert s[i + 0] == UnitText(u)[0];
  }

  lemma {:induction false} UnitsKeepUtf8(us: seq<Unit>, s: Bytes, i: nat)
    requires UnitsOk(us) && Has(s, i, UnitsText(us)) && i + |UnitsText(us)| == |s| && Utf8From(s, i)
    ensures IsUtf8(UnitsValue(us))
    decreases |us|
  {
    hide Has, UnitText, UnitOk, UnitValue, Utf8From, Encode, IsUtf8;
    if us == [] {
      Utf8AtEnd([]);
      Utf8FromStart([]);
    } else {
      var u := us[0];
      HasConcat(s, i, UnitText(u), UnitsText(us[1..]));
      var cp := Utf8Head(s, i);
      FirstByte(cp, s, i);
      if cp < 0x80 {
        UnitFirstByte(u, s, i);
        EscapesAreAscii(u, s, i);
        UnitValueIsUtf8(u);
        DropAscii(s, i, |UnitText(u)|);
        UnitsKeepUtf8(us[1..], s, i + |UnitText(u)|);
        Utf8Concat(UnitValue(u), UnitsValue(us[1..]));
      } else {
        var n := |Encode(cp)|;
        HasFits(s, i, Encode(cp));
        var rest := HighBytesArePlain(us, s, i, Encode(cp));
        UnitsKeepUtf8(rest, s, i + n);
        EncodeIsUtf8(cp);
        Utf8Concat(Encode(cp), UnitsValue(rest));
      }
    }
  }

  lemma UnitFirstByte(u: Unit, s: Bytes, i: nat)
    requires UnitOk(u) && Has(s, i, UnitText(u))
    ensures i < |s| && (u.Plain? ==> u.b == s[i])
  {
    assert s[i + 0] == UnitText(u)[0];
  }

  lemma EncodeIsUtf8(cp: int)
    requires Scalar(cp)
    ensures IsUtf8(Encode(cp))
  {
    hide Encode;
    assert EncodeAll([cp]) == Encode(cp) + EncodeAll([]) == Encode(cp);
  }

  // ---------------------------------------------------------------- the cut at an embedded NUL

  lemma {:induction false} CViewConcat(a: Bytes, b: Bytes)
    requires NulFree(a)
    ensures CView(a + b) == a + CView(b)
  {
    if a == [] {
      assert a + b == b;
    } else {
      CViewConcat(a[1..], b);
      assert (a + b)[1..] == a[1..] + b;
      ConsIsWhole(a);
      ConcatAssoc([a[0]], a[1..], CView(b));
    }
  }

  lemma NonNulEncoding(cp: int)
    requires Scalar(cp) && cp != 0
    ensures NulFree(Encode(cp))
  {
  }

  lemma {:induction false} CViewKeepsUtf8(cps: seq<int>)
    requires AllScalar(cps)
    ensures IsUtf8(CView(EncodeAll(cps)))
  {
    if cps == [] || cps[0] == 0 {
      assert EncodeAll([]) == [];
      if cps != [] {
        Ascii(0);
        assert EncodeAll(cps)[0] == NUL;
      }
    } else {
      NonNulEncoding(cps[0]);
      EncodeIsUtf8(cps[0]);
      hide Encode, IsUtf8;
      CViewConcat(Encode(cps[0]), EncodeAll(cps[1..]));
      CViewKeepsUtf8(cps[1..]);
      Utf8Concat(Encode(cps[0]), CView(EncodeAll(cps[1..])));
    }
  }

  lemma SliceFrom(s: Bytes, i: nat, t: Bytes)
    requires Has(s, i, t)
    ensures s[i..i + |t|] == t && Has(t, 0, t)
  {
  }

  /** An accepted literal whose body is valid UTF-8 has a value that is valid UTF-8. */
  lemma DecodingKeepsUtf8(s: Bytes, i: nat)
    requires i <= |s| && GetQuoted(s, i).Some? && IsUtf8(s[i + 1..GetQuoted(s, i).value.next - 1])
    ensures IsUtf8(GetQuoted(s, i).value.value)
  {
    var us := LiteralIsRead(s, i);
    hide Has, UnitsText, UnitsOk, UnitsValue, GetQuoted, Utf8From;
    var body := UnitsText(us);
    HasCons(s, i, QUOTE, body + [QUOTE]);
    HasConcat(s, i + 1, body, [QUOTE]);
    SliceFrom(s, i + 1, body);
    Utf8FromStart(body);
    UnitsKeepUtf8(us, body, 0);
    var cps :| AllScalar(cps) && EncodeAll(cps) == UnitsValue(us);
    CViewKeepsUtf8(cps);
  }
}
