/** The UTF-8 validator, against the encoding of RFC 3629 section 3. */
module Utf8 {
  import opened Bytes

  /** A Unicode scalar value: any code point except the surrogates. */
  predicate Scalar(cp: int) {
    0 <= cp < 0xD800 || 0xE000 <= cp <= 0x10FFFF
  }

  /** The octet sequence RFC 3629 section 3 assigns to a scalar value. */
  function Encode(cp: int): (s: Bytes)
    requires Scalar(cp)
    ensures 1 <= |s| <= 4
  {
    if cp < 0x80 then [cp]
    else if cp < 0x800 then [0xC0 + cp / 64, 0x80 + cp % 64]
    else if cp < 0x10000 then [0xE0 + cp / 64 / 64, 0x80 + cp / 64 % 64, 0x80 + cp % 64]
    else [0xF0 + cp / 64 / 64 / 64, 0x80 + cp / 64 / 64 % 64, 0x80 + cp / 64 % 64, 0x80 + cp % 64]
  }

  predicate AllScalar(cps: seq<int>) {
    forall i | 0 <= i < |cps| :: Scalar(cps[i])
  }

  function EncodeAll(cps: seq<int>): Bytes
    requires AllScalar(cps)
  {
    if cps == [] then [] else Encode(cps[0]) + EncodeAll(cps[1..])
  }

  /** The text from position `i` on is a concatenation of encoded scalar values. */
  ghost predicate Utf8From(s: Bytes, i: nat) {
    exists cps | AllScalar(cps) :: Has(s, i, EncodeAll(cps)) && i + |EncodeAll(cps)| == |s|
  }

  ghost predicate IsUtf8(s: Bytes) {
    exists cps | AllScalar(cps) :: EncodeAll(cps) == s
  }

  predicate IsCont(b: byte) {
    0x80 <= b < 0xC0
  }

  function NumBytes(c: byte): nat {
    if c == 0xC0 || c == 0xC1 || c > 0xF4 || IsCont(c) then 0
    else if c < 0x80 then 1
    else if 0xC0 <= c < 0xE0 then 2
    else if 0xE0 <= c < 0xF0 then 3
    else if 0xF0 <= c < 0xF8 then 4
    else 0
  }

  datatype Step = Invalid | Good(cp: int, len: nat)

  /**
   * One step of the validator. A continuation byte is only looked at when the one before it was
   * a continuation byte, so no read passes the terminating NUL.
   */
  function VerifySequence(s: Bytes, i: nat): Step
    requires i < |s|
  {
    var len := NumBytes(s[i]);
    if len == 1 then Checked(s[i], len)
    else if len == 2 && IsCont(At(s, i + 1)) then
      Checked(s[i] % 32 * 64 + At(s, i + 1) % 64, len)
    else if len == 3 && IsCont(At(s, i + 1)) && IsCont(At(s, i + 2)) then
      Checked((s[i] % 16 * 64 + At(s, i + 1) % 64) * 64 + At(s, i + 2) % 64, len)
    else if len == 4 && IsCont(At(s, i + 1)) && IsCont(At(s, i + 2)) && IsCont(At(s, i + 3)) then
      Checked(((s[i] % 8 * 64 + At(s, i + 1) % 64) * 64 + At(s, i + 2) % 64) * 64 + At(s, i + 3) % 64, len)
    else Invalid
  }

  /** Rejects overlong forms, code points past U+10FFFF and surrogate halves. */
  function Checked(cp: int, len: nat): Step {
    if (cp < 0x80 && len > 1) || (cp < 0x800 && len > 2) || (cp < 0x10000 && len > 3) then Invalid
    else if cp > 0x10FFFF then Invalid
    else if 0xD800 <= cp <= 0xDFFF then Invalid
    else Good(cp, len)
  }

  // ---------------------------------------------------------------- one sequence

  /** Splitting off the low six bits undoes `hi << 6 | lo`. */
  lemma SixBits(hi: int, lo: int)
    requires 0 <= lo < 64
    ensures (hi * 64 + lo) / 64 == hi && (hi * 64 + lo) % 64 == lo
  {
  }

  /** The payload bits of a tagged byte. */
  lemma Payload(tag: int, payload: int, x: int)
    requires (tag, payload) in {(0xC0, 32), (0xE0, 16), (0xF0, 8), (0x80, 64)} && 0 <= x < payload
    ensures (tag + x) % payload == x
  {
  }

  lemma LowSixBits(b: byte)
    requires IsCont(b)
    ensures b == 0x80 + b % 64
  {
  }

  lemma Ascii(cp: int)
    requires 0 <= cp < 0x80
    ensures Encode(cp) == [cp]
  {
  }

  lemma Accepted2(x: byte, y: byte, cp: int)
    requires 0xC2 <= x < 0xE0 && IsCont(y) && cp == x % 32 * 64 + y % 64
    ensures 0x80 <= cp < 0x800 && Encode(cp) == [x, y]
  {
    SixBits(x % 32, y % 64);
    LowSixBits(y);
  }

  lemma Accepted3(x: byte, y: byte, z: byte, cp: int)
    requires 0xE0 <= x < 0xF0 && IsCont(y) && IsCont(z)
    requires cp == (x % 16 * 64 + y % 64) * 64 + z % 64 && 0x800 <= cp && Scalar(cp)
    ensures Encode(cp) == [x, y, z]
  {
    SixBits(x % 16, y % 64);
    SixBits(x % 16 * 64 + y % 64, z % 64);
    LowSixBits(y);
    LowSixBits(z);
    assert cp < 0x10000;
  }

  lemma Accepted4(w: byte, x: byte, y: byte, z: byte, cp: int)
    requires 0xF0 <= w < 0xF8 && IsCont(x) && IsCont(y) && IsCont(z)
    requires cp == ((w % 8 * 64 + x % 64) * 64 + y % 64) * 64 + z % 64 && 0x10000 <= cp && Scalar(cp)
    ensures Encode(cp) == [w, x, y, z]
  {
    SixBits(w % 8, x % 64);
    SixBits(w % 8 * 64 + x % 64, y % 64);
    SixBits((w % 8 * 64 + x % 64) * 64 + y % 64, z % 64);
    LowSixBits(x);
    LowSixBits(y);
    LowSixBits(z);
  }

  /** An accepted sequence is the encoding of its code point and ends inside the string. */
  lemma AcceptedIsEncoding(s: Bytes, i: nat)
    requires i < |s| && VerifySequence(s, i).Good?
    ensures var g := VerifySequence(s, i);
            Scalar(g.cp) && g.len == |Encode(g.cp)| && Has(s, i, Encode(g.cp))
  {
    hide Encode;
    var g := VerifySequence(s, i);
    if g.len == 1 {
      Ascii(g.cp);
    } else if g.len == 2 {
      Accepted2(s[i], s[i + 1], g.cp);
    } else if g.len == 3 {
      Accepted3(s[i], s[i + 1], s[i + 2], g.cp);
    } else if g.len == 4 {
      Accepted4(s[i], s[i + 1], s[i + 2], s[i + 3], g.cp);
    }
  }

  /** Wherever it stands, the encoding of a scalar value is accepted and gives that value back. */
  lemma EncodingIsAccepted(cp: int, s: Bytes, i: nat)
    requires Scalar(cp) && Has(s, i, Encode(cp))
    ensures VerifySequence(s, i) == Good(cp, |Encode(cp)|)
  {
    var e := Encode(cp);
    assert s[i + 0] == e[0];
    if 0x80 <= cp < 0x800 {
      assert At(s, i + 1) == e[1];
      Payload(0xC0, 32, cp / 64);
      Payload(0x80, 64, cp % 64);
    } else if 0x800 <= cp < 0x10000 {
      Encoded3(cp, s, i);
    } else if 0x10000 <= cp {
      Encoded4(cp, s, i);
    }
  }

  lemma Encoded3(cp: int, s: Bytes, i: nat)
    requires Scalar(cp) && 0x800 <= cp < 0x10000 && Has(s, i, Encode(cp))
    ensures VerifySequence(s, i) == Good(cp, 3)
  {
    var a, b, c := cp / 64 / 64, cp / 64 % 64, cp % 64;
    var e := Encode(cp);
    assert e == [0xE0 + a, 0x80 + b, 0x80 + c];
    hide Encode;
    assert s[i + 0] == e[0] && At(s, i + 1) == e[1] && At(s, i + 2) == e[2];
    Payload(0xE0, 16, a);
    Payload(0x80, 64, b);
    Payload(0x80, 64, c);
  }

  lemma Encoded4(cp: int, s: Bytes, i: nat)
    requires Scalar(cp) && 0x10000 <= cp && Has(s, i, Encode(cp))
    ensures VerifySequence(s, i) == Good(cp, 4)
  {
    var a, b, c, d := cp / 64 / 64 / 64, cp / 64 / 64 % 64, cp / 64 % 64, cp % 64;
    var e := Encode(cp);
    assert e == [0xF0 + a, 0x80 + b, 0x80 + c, 0x80 + d];
    hide Encode;
    assert s[i + 0] == e[0] && At(s, i + 1) == e[1] && At(s, i + 2) == e[2] && At(s, i + 3) == e[3];
    Payload(0xF0, 8, a);
    Payload(0x80, 64, b);
    Payload(0x80, 64, c);
    Payload(0x80, 64, d);
  }

  // ---------------------------------------------------------------- whole texts

  /** The decomposition of a text into encoded scalar values is unique. */
  lemma {:induction false} DecompositionUnique(a: seq<int>, b: seq<int>, s: Bytes, i: nat)
    requires AllScalar(a) && AllScalar(b)
    requires Has(s, i, EncodeAll(a)) && Has(s, i, EncodeAll(b)) && |EncodeAll(a)| == |EncodeAll(b)|
    ensures a == b
  {
    hide Encode, Has;
    if a != [] && b != [] {
      HasConcat(s, i, Encode(a[0]), EncodeAll(a[1..]));
      HasConcat(s, i, Encode(b[0]), EncodeAll(b[1..]));
      EncodingIsAccepted(a[0], s, i);
      EncodingIsAccepted(b[0], s, i);
      DecompositionUnique(a[1..], b[1..], s, i + |Encode(a[0])|);
      assert a == [a[0]] + a[1..] && b == [b[0]] + b[1..];
    }
  }

  lemma Utf8FromStart(s: Bytes)
    ensures Utf8From(s, 0) <==> IsUtf8(s)
  {
    if Utf8From(s, 0) {
      var cps :| AllScalar(cps) && Has(s, 0, EncodeAll(cps)) && |EncodeAll(cps)| == |s|;
      HasIsSlice(s, 0, EncodeAll(cps));
      assert s[0..|s|] == s;
    }
    if IsUtf8(s) {
      var cps :| AllScalar(cps) && EncodeAll(cps) == s;
      HasSelf(s, []);
      assert s + [] == s;
    }
  }

  lemma Utf8AtEnd(s: Bytes)
    ensures Utf8From(s, |s|)
  {
    assert EncodeAll([]) == [];
  }

  lemma Utf8Cons(cp: int, s: Bytes, i: nat)
    requires Scalar(cp) && Has(s, i, Encode(cp)) && Utf8From(s, i + |Encode(cp)|)
    ensures Utf8From(s, i)
  {
    hide Encode, Has;
    var k := i + |Encode(cp)|;
    var cps :| AllScalar(cps) && Has(s, k, EncodeAll(cps)) && k + |EncodeAll(cps)| == |s|;
    assert ([cp] + cps)[1..] == cps;
    HasConcat(s, i, Encode(cp), EncodeAll(cps));
    assert EncodeAll([cp] + cps) == Encode(cp) + EncodeAll(cps);
  }

  lemma Utf8Head(s: Bytes, i: nat) returns (cp: int)
    requires i < |s| && Utf8From(s, i)
    ensures Scalar(cp) && Has(s, i, Encode(cp)) && Utf8From(s, i + |Encode(cp)|)
  {
    hide Encode, Has;
    var cps :| AllScalar(cps) && Has(s, i, EncodeAll(cps)) && i + |EncodeAll(cps)| == |s|;
    cp := cps[0];
    HasConcat(s, i, Encode(cp), EncodeAll(cps[1..]));
  }

  /** A text is valid exactly when its first sequence is accepted and the rest is valid. */
  lemma Utf8Step(s: Bytes, i: nat)
    requires i < |s|
    ensures Utf8From(s, i) <==>
            VerifySequence(s, i).Good? && Utf8From(s, i + VerifySequence(s, i).len)
  {
    hide Encode, Has, VerifySequence, Utf8From;
    if Utf8From(s, i) {
      var cp := Utf8Head(s, i);
      EncodingIsAccepted(cp, s, i);
    }
    var step := VerifySequence(s, i);
    if step.Good? && Utf8From(s, i + step.len) {
      AcceptedIsEncoding(s, i);
      Utf8Cons(step.cp, s, i);
    }
  }

  /** `is_valid_utf8`: accepts exactly the concatenations of encoded scalar values. */
  method IsValidUtf8(s: Bytes) returns (ok: bool)
    ensures ok <==> IsUtf8(s)
  {
    hide VerifySequence, Utf8From, IsUtf8, Encode;
    Utf8FromStart(s);
    var pos := 0;
    while pos < |s|
      invariant 0 <= pos <= |s|
      invariant IsUtf8(s) <==> Utf8From(s, pos)
    {
      Utf8Step(s, pos);
      var step := VerifySequence(s, pos);
      if step.Invalid? {
        return false;
      }
      AcceptedIsEncoding(s, pos);
      pos := pos + step.len;
    }
    Utf8AtEnd(s);
    return true;
  }
}
