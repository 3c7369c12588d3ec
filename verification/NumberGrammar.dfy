/** The number tokens the parser takes: their texts, their values, and how they differ from RFC 8259 section 6. */
module NumberGrammar {
  import opened Bytes
  import opened Doubles
  import opened Numbers

  datatype Exponent = Exponent(letter: byte, sign: Bytes, digits: Bytes)

  /** The pieces of a decimal token. */
  datatype Parts = Parts(sign: Bytes, integer: Bytes, fraction: Option<Bytes>, exponent: Option<Exponent>)

  /** `DIGIT` of RFC 5234. */
  predicate Decimal(b: byte) {
    '0' as int <= b <= '9' as int
  }

  /** A letter in either case, given as the lower-case one. */
  predicate EitherCase(b: byte, letter: char) {
    b == letter as int || b == letter as int - 32
  }

  predicate AllDigits(t: Bytes) {
    forall k | 0 <= k < |t| :: Decimal(t[k])
  }

  predicate FractionOk(f: Option<Bytes>) {
    f.Some? ==> AllDigits(f.value)
  }

  predicate ExponentOk(e: Option<Exponent>) {
    e.Some? ==>
      && EitherCase(e.value.letter, 'e')
      && (e.value.sign == [] || e.value.sign == [43] || e.value.sign == [MINUS])
      && AllDigits(e.value.digits) && e.value.digits != []
  }

  predicate PartsOk(p: Parts) {
    && (p.sign == [] || p.sign == [MINUS])
    && AllDigits(p.integer) && FractionOk(p.fraction) && ExponentOk(p.exponent)
  }

  function FractionText(f: Option<Bytes>): Bytes {
    if f.None? then [] else [DOT] + f.value
  }

  function ExponentText(e: Option<Exponent>): Bytes {
    if e.None? then [] else [e.value.letter] + (e.value.sign + e.value.digits)
  }

  function PartsText(p: Parts): Bytes {
    p.sign + (p.integer + (FractionText(p.fraction) + ExponentText(p.exponent)))
  }

  /** The number that a string of digits writes. */
  function DigitsOf(d: Bytes): int {
    if d == [] then 0 else DigitsOf(d[..|d| - 1]) * 10 + (d[|d| - 1] as int - '0' as int)
  }

  /** The number that a 1 and `n` zeros write. */
  function Tens(n: nat): (t: nat)
    ensures t > 0
  {
    if n == 0 then 1 else 10 * Tens(n - 1)
  }

  function FractionOf(f: Option<Bytes>): real {
    if f.None? then 0.0 else DigitsOf(f.value) as real / Tens(|f.value|) as real
  }

  function PowerOf(e: Option<Exponent>): real
    requires ExponentOk(e)
  {
    if e.None? then 1.0
    else
      DigitsArePositive(e.value.digits);
      var power := Tens(DigitsOf(e.value.digits)) as real;
      if e.value.sign == [MINUS] then 1.0 / power else power
  }

  lemma {:induction false} DigitsArePositive(d: Bytes)
    requires AllDigits(d)
    ensures DigitsOf(d) >= 0
  {
    if d != [] {
      DigitsArePositive(d[..|d| - 1]);
    }
  }

  /** The value of a token: sign, integer and fraction, times a power of ten. */
  function PartsValue(p: Parts): real
    requires PartsOk(p)
  {
    var magnitude := DigitsOf(p.integer) as real + FractionOf(p.fraction);
    (if p.sign == [] then magnitude else -magnitude) * PowerOf(p.exponent)
  }

  /** The double nearest to that value. */
  function PartsDouble(p: Parts): real
    requires PartsOk(p)
  {
    Rounded(PartsValue(p))
  }

  /** `number` of RFC 8259 section 6. */
  predicate Rfc(p: Parts) {
    && p.integer != [] && (|p.integer| > 1 ==> p.integer[0] != 48)
    && (p.fraction.Some? ==> p.fraction.value != [])
  }

  /** What the code takes. */
  predicate Taken(p: Parts) {
    && (p.integer != [] || (p.sign != [] && p.fraction.Some? && p.fraction.value != []))
    && (|p.integer| > 1 ==> p.integer[0] != 48)
    && (p.integer == [48] ==> p.fraction.Some? || p.exponent.None?)
  }

  /** A token of the parser: the parts it takes, with a value that `strtod` reports no range error for. */
  predicate TokenOk(p: Parts) {
    PartsOk(p) && Taken(p) && !OutOfRange(PartsValue(p))
  }

  // ---------------------------------------------------------------- what the parts are worth

  /** A 1 and `n` zeros. */
  function OneZeros(n: nat): Bytes {
    ['1' as int] + seq(n, _ => '0' as int)
  }

  lemma {:induction false} OneZerosAre(n: nat)
    ensures DigitsOf(OneZeros(n)) == Tens(n)
  {
    if n == 0 {
      assert OneZeros(0)[..0] == [];
    } else {
      OneZerosAre(n - 1);
      assert OneZeros(n)[..n] == OneZeros(n - 1);
    }
  }

  lemma {:induction false} DigitsConcat(a: Bytes, b: Bytes)
    ensures DigitsOf(a + b) == DigitsOf(a) * Tens(|b|) + DigitsOf(b)
  {
    hide DigitsOf, Tens;
    if b == [] {
      assert a + b == a;
      NoDigits();
    } else {
      var n := |b| - 1;
      DigitsConcat(a, b[..n]);
      LastDigit(b);
      LastDigit(a + b);
      assert (a + b)[..|a| + n] == a + b[..n];
      TensSteps(n);
      TenTimes(DigitsOf(a), Tens(n), DigitsOf(b[..n]), Tens(n + 1));
    }
  }

  lemma NoDigits()
    ensures DigitsOf([]) == 0 && Tens(0) == 1
  {
  }

  lemma LastDigit(d: Bytes)
    requires d != []
    ensures DigitsOf(d) == DigitsOf(d[..|d| - 1]) * 10 + (d[|d| - 1] as int - '0' as int)
  {
  }

  lemma TenTimes(x: int, t: int, y: int, u: int)
    requires u == 10 * t
    ensures (x * t + y) * 10 == x * u + y * 10
  {
  }

  /** Moving the dot behind a fraction of `n` digits multiplies by the number that a 1 and `n` zeros write. */
  lemma DotMoved(p: Parts, q: Parts)
    requires PartsOk(p) && p.fraction.Some?
    requires q == Parts(p.sign, p.integer + p.fraction.value, None, p.exponent)
    ensures PartsOk(q) && PartsValue(q) == PartsValue(p) * DigitsOf(OneZeros(|p.fraction.value|)) as real
  {
    hide DigitsOf, Tens, PowerOf;
    var f := p.fraction.value;
    var t := Tens(|f|) as real;
    OneZerosAre(|f|);
    DigitsConcat(p.integer, f);
    Quotient(DigitsOf(f) as real, t);
    var x, y := DigitsOf(p.integer) as real + FractionOf(p.fraction), DigitsOf(p.integer + f) as real;
    Distribute(DigitsOf(p.integer) as real, -FractionOf(p.fraction), t);
    assert y == x * t;
    Reorder(x, PowerOf(p.exponent), t);
  }

  lemma Reorder(x: real, y: real, t: real)
    ensures (x * t) * y == (x * y) * t && (-(x * t)) * y == ((-x) * y) * t
  {
  }

  /** The exponent as a number. */
  function ExponentOf(e: Option<Exponent>): int {
    if e.None? then 0 else if e.value.sign == [MINUS] then -DigitsOf(e.value.digits) else DigitsOf(e.value.digits)
  }

  /** Raising the exponent by `n` multiplies by the number that a 1 and `n` zeros write. */
  lemma ExponentRaised(p: Parts, q: Parts, n: nat)
    requires PartsOk(p) && PartsOk(q) && q == p.(exponent := q.exponent)
    requires ExponentOf(q.exponent) == ExponentOf(p.exponent) + n
    ensures PartsValue(q) == PartsValue(p) * DigitsOf(OneZeros(n)) as real
  {
    hide DigitsOf, Tens, FractionOf, Power, PowerOf;
    OneZerosAre(n);
    PowerIs(p.exponent);
    PowerIs(q.exponent);
    PowerRaised(ExponentOf(p.exponent), n);
    var x := DigitsOf(p.integer) as real + FractionOf(p.fraction);
    var y := if p.sign == [] then x else -x;
    Product3(y, PowerOf(p.exponent), Tens(n) as real);
  }

  function Power(x: int): real {
    if x >= 0 then Tens(x) as real else 1.0 / Tens(-x) as real
  }

  lemma PowerIs(e: Option<Exponent>)
    requires ExponentOk(e)
    ensures PowerOf(e) == Power(ExponentOf(e))
  {
    hide DigitsOf;
    if e.Some? {
      DigitsArePositive(e.value.digits);
      assert 1.0 / Tens(0) as real == Tens(0) as real;
    } else {
      assert Tens(0) == 1;
    }
  }

  lemma {:induction false} PowerRaised(x: int, n: nat)
    ensures Power(x + n) == Power(x) * Tens(n) as real
  {
    hide Power, Tens;
    if n == 0 {
      TensSteps(0);
    } else {
      var m := n - 1;
      PowerRaised(x, m);
      PowerStep(x + m);
      TensSteps(m);
      RaisedOnce(Power(x + m + 1), Power(x + m), Power(x), Tens(m), Tens(m + 1));
    }
  }

  lemma TensSteps(n: nat)
    ensures Tens(n + 1) == 10 * Tens(n) && Tens(0) == 1
  {
  }

  lemma RaisedOnce(a: real, b: real, p: real, t: nat, u: nat)
    requires a == 10.0 * b && b == p * t as real && u == 10 * t
    ensures a == p * u as real
  {
    assert u as real == 10.0 * t as real;
  }

  lemma PowerStep(x: int)
    ensures Power(x + 1) == 10.0 * Power(x)
  {
    if x < 0 {
      assert Tens(-x) == 10 * Tens(-x - 1);
      TenTimesOneOver(Tens(-x - 1) as real);
      assert Tens(0) == 1;
    }
  }

  lemma TenTimesOneOver(t: real)
    requires t > 0.0
    ensures 10.0 * (1.0 / (10.0 * t)) == 1.0 / t
  {
  }

  // ---------------------------------------------------------------- where a token ends

  /** `x` or `X` with what makes `strtod` read a zero in front of it as the start of a hexadecimal number. */
  predicate HexFollows(s: Bytes, e: nat)
    requires e <= |s|
  {
    EitherCase(At(s, e), 'x') && (Hexadecimal(At(s, e + 1)) || (At(s, e + 1) == DOT && Hexadecimal(At(s, e + 2))))
  }

  predicate Hexadecimal(b: byte) {
    Decimal(b) || 'a' as int <= b <= 'f' as int || 'A' as int <= b <= 'F' as int
  }

  /** An exponent that has its digits. */
  predicate ExponentFollows(s: Bytes, e: nat)
    requires e <= |s|
  {
    EitherCase(At(s, e), 'e')
    && (Decimal(At(s, e + 1)) || (At(s, e + 1) in {'+' as int, '-' as int} && Decimal(At(s, e + 2))))
  }

  /** Nothing at `e` goes on with the token: no digit, and no part that is still missing. */
  predicate Stops(s: Bytes, e: nat, p: Parts)
    requires e <= |s|
  {
    && !Decimal(At(s, e))
    && (p.fraction.None? && p.exponent.None? ==> At(s, e) != DOT)
    && (p.exponent.None? ==> !ExponentFollows(s, e))
    && (p.integer == [48] && p.fraction.None? && p.exponent.None? ==> !HexFollows(s, e))
  }

  /** A byte that cannot go on with any token. */
  predicate Ends(b: byte) {
    !Decimal(b) && b != DOT && b != 43 && b != MINUS && !(65 <= b <= 90) && !(97 <= b <= 122)
  }

  lemma EndsStops(s: Bytes, e: nat, p: Parts)
    requires e <= |s| && Ends(At(s, e))
    ensures Stops(s, e, p)
  {
  }

  // ---------------------------------------------------------------- from parts to what is read

  /** Where the pieces of `p` stand when its text stands at `i`. */
  lemma PartsStand(p: Parts, s: Bytes, i: nat)
    requires PartsOk(p) && Has(s, i, PartsText(p))
    ensures var j := i + |p.sign|; var k := j + |p.integer|; var f := k + |FractionText(p.fraction)|;
            && Has(s, i, p.sign) && Has(s, j, p.integer)
            && Has(s, k, FractionText(p.fraction)) && Has(s, f, ExponentText(p.exponent))
            && i + |PartsText(p)| == f + |ExponentText(p.exponent)| <= |s|
  {
    hide FractionText, ExponentText, Has, AllDigits, FractionOk, ExponentOk;
    var rest := FractionText(p.fraction) + ExponentText(p.exponent);
    HasFits(s, i, PartsText(p));
    HasConcat(s, i, p.sign, p.integer + rest);
    HasConcat(s, i + |p.sign|, p.integer, rest);
    HasConcat(s, i + |p.sign| + |p.integer|, FractionText(p.fraction), ExponentText(p.exponent));
  }

  lemma DigitsStand(s: Bytes, i: nat, d: Bytes)
    requires Has(s, i, d) && AllDigits(d) && !Digit(At(s, i + |d|))
    ensures DigitsEnd(s, i) == i + |d|
  {
    forall k | i <= k < i + |d| ensures Digit(s[k]) {
      assert s[i + (k - i)] == d[k - i];
    }
    DigitsRun(s, i, |d|);
  }

  lemma {:induction false} DigitsMove(s: Bytes, i: nat, d: Bytes)
    requires Has(s, i, d)
    ensures i + |d| <= |s| && DigitsValue(s, i, i + |d|) == DigitsOf(d)
  {
    if d != [] {
      var n := |d| - 1;
      assert d == d[..n] + [d[n]];
      HasConcat(s, i, d[..n], [d[n]]);
      HasOne(s, i + n, d[n]);
      DigitsMove(s, i, d[..n]);
    }
  }

  /** The powers of ten that the code multiplies and divides together are those. */
  lemma {:induction false} PowersOfTen(n: nat)
    ensures Pow10(n) == Tens(n) as real && Pow10(-(n as int)) == 1.0 / Tens(n) as real
  {
    if n > 0 {
      PowersOfTen(n - 1);
      TenthOf(Tens(n - 1) as real);
    }
  }

  lemma TenthOf(t: real)
    requires t > 0.0
    ensures 1.0 / t / 10.0 == 1.0 / (10.0 * t)
  {
  }

  lemma TimesOneOver(x: real, t: real)
    requires t > 0.0
    ensures x * (1.0 / t) == x / t
  {
  }

  lemma HasFirst(s: Bytes, i: nat, d: Bytes)
    requires Has(s, i, d) && d != [] && AllDigits(d)
    ensures i < |s| && s[i] == d[0] && Digit(d[0])
  {
    assert s[i + 0] == d[0];
  }

  /** The code finds the digits of an exponent exactly where one follows. */
  lemma ExponentDigitsFollow(s: Bytes, f: nat)
    requires f <= |s|
    ensures ExponentDigits(s, f).Some? <==> ExponentFollows(s, f)
  {
  }

  /** The code's fraction is the digits divided by a power of ten. */
  lemma FractionValue(x: real, n: nat)
    ensures x * Pow10(-(n as int)) == x / Tens(n) as real
  {
    hide Pow10, Tens;
    PowersOfTen(n);
    TimesOneOver(x, Tens(n) as real);
  }

  lemma ExponentStands(s: Bytes, f: nat, ex: Option<Exponent>, e: nat)
    requires ExponentOk(ex) && Has(s, f, ExponentText(ex)) && e == f + |ExponentText(ex)| <= |s|
    requires !Digit(At(s, e)) && (ex.None? ==> !ExponentFollows(s, f))
    ensures !Digit(At(s, f)) && (ex.Some? ==> Letter(At(s, f), 101))
    ensures forall x :: Scaled(s, f, x) == Converted(x * PowerOf(ex), e)
  {
    hide DigitsValue, DigitsOf, Tens, Pow10, DigitsEnd, ExponentFollows, Has, AllDigits;
    ExponentDigitsFollow(s, f);
    if ex.Some? {
      var x := ex.value;
      HasCons(s, f, x.letter, x.sign + x.digits);
      HasConcat(s, f + 1, x.sign, x.digits);
      var d := f + 1 + |x.sign|;
      if x.sign != [] {
        HasOne(s, f + 1, x.sign[0]);
      }
      HasFirst(s, d, x.digits);
      DigitsStand(s, d, x.digits);
      DigitsMove(s, d, x.digits);
      ExponentFound(s, f, x, d, e);
    }
  }

  /** The exponent `x`, whose digits stand between `d` and `e`. */
  lemma ExponentFound(s: Bytes, f: nat, x: Exponent, d: nat, e: nat)
    requires f < |s| && ExponentOk(Some(x)) && d == f + 1 + |x.sign| && d < e <= |s| && s[f] == x.letter
    requires (x.sign != [] ==> s[f + 1] == x.sign[0]) && Digit(s[d])
    requires e == DigitsEnd(s, d) && DigitsValue(s, d, e) == DigitsOf(x.digits)
    ensures forall y :: Scaled(s, f, y) == Converted(y * PowerOf(Some(x)), e)
  {
    hide DigitsValue, DigitsOf, Tens, Pow10, DigitsEnd, AllDigits;
    DigitsArePositive(x.digits);
    PowersOfTen(DigitsOf(x.digits));
    assert ExponentDigits(s, f) == Some(d);
  }

  lemma FractionStands(s: Bytes, k: nat, fr: Option<Bytes>, f: nat)
    requires FractionOk(fr) && Has(s, k, FractionText(fr)) && f == k + |FractionText(fr)| <= |s|
    requires !Digit(At(s, f)) && (fr.None? ==> At(s, k) != DOT)
    ensures FractionEnd(s, k) == f && !Digit(At(s, k)) && (At(s, k) == DOT <==> fr.Some?)
    ensures fr.Some? ==> k + 1 <= f && DigitsValue(s, k + 1, f) == DigitsOf(fr.value) && f - k - 1 == |fr.value|
    ensures fr.None? ==> f == k
  {
    if fr.Some? {
      HasCons(s, k, DOT, fr.value);
      DigitsStand(s, k + 1, fr.value);
      DigitsMove(s, k + 1, fr.value);
    }
  }

  /** The pieces that `strtod` finds are the pieces of `p`. */
  lemma PartsFound(p: Parts, s: Bytes, i: nat) returns (j: nat, k: nat, f: nat, e: nat)
    requires PartsOk(p) && Has(s, i, PartsText(p)) && i + |PartsText(p)| <= |s|
    requires Stops(s, i + |PartsText(p)|, p)
    ensures j == i + |p.sign| && k == j + |p.integer| == DigitsEnd(s, j) && f == FractionEnd(s, k)
    ensures e == i + |PartsText(p)| && f <= e <= |s|
    ensures Has(s, i, p.sign) && Has(s, j, p.integer) && !Digit(At(s, k)) && (At(s, k) == DOT <==> p.fraction.Some?)
    ensures f == k + |FractionText(p.fraction)| && e == f + |ExponentText(p.exponent)|
    ensures p.fraction.Some? ==> k + 1 <= f && DigitsValue(s, k + 1, f) == DigitsOf(p.fraction.value)
    ensures p.fraction.Some? ==> f - k - 1 == |p.fraction.value|
    ensures p.fraction.None? && p.exponent.Some? ==> Letter(At(s, k), 101)
    ensures forall x :: Scaled(s, f, x) == Converted(x * PowerOf(p.exponent), e)
  {
    hide FractionText, ExponentText, PartsText, Has, DigitsValue, PowerOf, Scaled, ExponentDigits, FractionEnd,
      DigitsEnd, FractionOk, ExponentOk, AllDigits;
    PartsStand(p, s, i);
    TextLengths(p);
    j := i + |p.sign|;
    k := j + |p.integer|;
    f := k + |FractionText(p.fraction)|;
    e := f + |ExponentText(p.exponent)|;
    ExponentStands(s, f, p.exponent, e);
    FractionStands(s, k, p.fraction, f);
    DigitsStand(s, j, p.integer);
  }

  lemma MantissaIs(p: Parts, s: Bytes, j: nat, k: nat, f: nat)
    requires PartsOk(p) && Has(s, j, p.integer) && k == j + |p.integer| && k <= |s|
    requires k == DigitsEnd(s, j) && f == FractionEnd(s, k) && f == k + |FractionText(p.fraction)|
    requires p.fraction.Some? ==> k + 1 <= f && DigitsValue(s, k + 1, f) == DigitsOf(p.fraction.value)
    requires p.fraction.Some? ==> f - k - 1 == |p.fraction.value|
    ensures Mantissa(s, j, k, f) == DigitsOf(p.integer) as real + FractionOf(p.fraction)
  {
    hide DigitsValue, DigitsOf, DigitsEnd, FractionEnd, Has, Pow10, Tens;
    DigitsMove(s, j, p.integer);
    if p.fraction.Some? {
      FractionValue(DigitsOf(p.fraction.value) as real, |p.fraction.value|);
    }
  }

  /** The first byte of a token, and what hexadecimal, infinity and NaN need. */
  lemma NoOtherNumber(p: Parts, s: Bytes, i: nat, j: nat, k: nat)
    requires PartsOk(p) && Taken(p) && j == i + |p.sign| && k == j + |p.integer| <= |s|
    requires Has(s, i, p.sign) && Has(s, j, p.integer) && !Digit(At(s, k)) && (At(s, k) == DOT <==> p.fraction.Some?)
    requires p.fraction.None? && p.exponent.Some? ==> Letter(At(s, k), 101)
    requires p.integer == [48] && p.fraction.None? && p.exponent.None? ==> !HexFollows(s, k)
    ensures i < |s| && (s[i] == MINUS || Digit(s[i])) && j == (if s[i] == MINUS then i + 1 else i)
    ensures p.sign == [] <==> s[i] != MINUS
    ensures !HexPrefix(s, j) && !InfOrNan(s, j)
  {
    if p.sign != [] {
      assert s[i + 0] == p.sign[0];
    }
    if p.integer != [] {
      assert s[j + 0] == p.integer[0];
    }
    if |p.integer| > 1 {
      assert s[j + 1] == p.integer[1];
    }
    assert p.integer == [48] <==> |p.integer| == 1 && p.integer[0] == 48;
  }

  lemma IsDecimalToken(p: Parts, s: Bytes, i: nat, j: nat, k: nat, e: nat)
    requires PartsOk(p) && Taken(p) && j == i + |p.sign| && k == j + |p.integer| <= e <= |s|
    requires Has(s, i, p.sign) && Has(s, j, p.integer) && !Digit(At(s, k)) && (At(s, k) == DOT <==> p.fraction.Some?)
    requires p.exponent.None? && p.fraction.None? ==> e == k
    requires i < |s| && j == (if s[i] == MINUS then i + 1 else i)
    requires forall m | i <= m < e :: !Letter(s[m], 120)
    ensures IsDecimal(s, i, e)
  {
    if p.integer != [] {
      assert s[j + 0] == p.integer[0];
    }
    if |p.integer| > 1 {
      assert s[j + 1] == p.integer[1];
    }
    assert p.integer == [48] <==> |p.integer| == 1 && p.integer[0] == 48;
  }

  lemma NoXInParts(p: Parts)
    requires PartsOk(p)
    ensures forall m | 0 <= m < |PartsText(p)| :: !Letter(PartsText(p)[m], 120)
  {
    NoXInFraction(p.fraction);
    NoXInExponent(p.exponent);
    hide FractionText, ExponentText;
  }

  lemma NoXInFraction(f: Option<Bytes>)
    requires FractionOk(f)
    ensures forall m | 0 <= m < |FractionText(f)| :: !Letter(FractionText(f)[m], 120)
  {
  }

  lemma NoXInExponent(e: Option<Exponent>)
    requires ExponentOk(e)
    ensures forall m | 0 <= m < |ExponentText(e)| :: !Letter(ExponentText(e)[m], 120)
  {
  }

  /** A token with nothing behind it that goes on with it is read, to its end and with its double. */
  lemma TokenReads(p: Parts, s: Bytes, i: nat)
    requires TokenOk(p) && Has(s, i, PartsText(p)) && i + |PartsText(p)| <= |s| && Stops(s, i + |PartsText(p)|, p)
    ensures PartsText(p) != [] && i < |s| && (s[i] == MINUS || Digit(s[i]))
    ensures ParseNumber(s, i) == Some(Number(PartsDouble(p), i + |PartsText(p)|))
  {
    hide Strtod, PartsText, PartsValue, Rounded, OutOfRange, Has, Stops, IsDecimal, Taken;
    PartsAreRead(p, s, i);
    assert i + |PartsText(p)| > i;
  }

  /** What `strtod` does once the places are known. */
  lemma StrtodIs(s: Bytes, i: nat, j: nat, k: nat, f: nat, m: real)
    requires i < |s| && j == (if s[i] == MINUS then i + 1 else i) && k == DigitsEnd(s, j) && f == FractionEnd(s, k)
    requires !HexPrefix(s, j) && !InfOrNan(s, j) && (k > j || f > k + 1) && Mantissa(s, j, k, f) == m
    ensures Strtod(s, i) == Scaled(s, f, if s[i] == MINUS then -m else m)
  {
    hide HexPrefix, InfOrNan, DigitsEnd, FractionEnd, Mantissa, Scaled;
  }

  lemma PartsAreRead(p: Parts, s: Bytes, i: nat)
    requires PartsOk(p) && Taken(p) && Has(s, i, PartsText(p)) && i + |PartsText(p)| <= |s|
    requires Stops(s, i + |PartsText(p)|, p)
    ensures PartsText(p) != [] && i < |s| && (s[i] == MINUS || Digit(s[i]))
    ensures Strtod(s, i) == Converted(PartsValue(p), i + |PartsText(p)|) && IsDecimal(s, i, i + |PartsText(p)|)
  {
    hide FractionText, ExponentText, PartsText, Has, DigitsValue, PowerOf, Scaled, FractionEnd, DigitsEnd, Strtod,
      IsDecimal, HexPrefix, InfOrNan, Mantissa, FractionOf, DigitsOf, HexFollows, ExponentDigits, AllDigits;
    var j, k, f, e := PartsFound(p, s, i);
    TextLengths(p);
    TokenBytes(p, s, i);
    MantissaIs(p, s, j, k, f);
    NoOtherNumber(p, s, i, j, k);
    IsDecimalToken(p, s, i, j, k, e);
    StrtodIs(s, i, j, k, f, DigitsOf(p.integer) as real + FractionOf(p.fraction));
  }

  lemma TokenBytes(p: Parts, s: Bytes, i: nat)
    requires PartsOk(p) && Has(s, i, PartsText(p)) && i + |PartsText(p)| <= |s|
    ensures forall m | i <= m < i + |PartsText(p)| :: !Letter(s[m], 120)
  {
    NoXInParts(p);
    hide PartsText;
    forall m | i <= m < i + |PartsText(p)| ensures !Letter(s[m], 120) {
      assert s[i + (m - i)] == PartsText(p)[m - i];
    }
  }

  lemma TokenStarts(p: Parts)
    requires TokenOk(p)
    ensures PartsText(p) != [] && (PartsText(p)[0] == MINUS || Digit(PartsText(p)[0]))
  {
    hide OutOfRange, PartsValue, FractionText, ExponentText;
  }

  lemma TextLengths(p: Parts)
    ensures |FractionText(p.fraction)| == if p.fraction.Some? then 1 + |p.fraction.value| else 0
    ensures p.exponent.None? ==> ExponentText(p.exponent) == []
  {
  }

  // ---------------------------------------------------------------- from what is read to parts

  function ExponentAt(t: Bytes, f: nat): Option<Exponent>
    requires f <= |t|
  {
    match ExponentDigits(t, f)
    case None => None
    case Some(x) => Some(Exponent(t[f], t[f + 1..x], t[x..DigitsEnd(t, x)]))
  }

  function FractionAt(t: Bytes, k: nat): Option<Bytes>
    requires k <= |t|
  {
    if At(t, k) == DOT then Some(t[k + 1..FractionEnd(t, k)]) else None
  }

  /** The exponent that stands at `f`, with its text and value, and nothing that goes on behind it. */
  lemma ExponentPart(s: Bytes, f: nat, x: real)
    requires f <= |s|
    ensures ExponentOk(ExponentAt(s, f)) && (ExponentAt(s, f).None? <==> ExponentDigits(s, f).None?)
    ensures var e := f + |ExponentText(ExponentAt(s, f))|;
            && e <= |s| && Scaled(s, f, x) == Converted(x * PowerOf(ExponentAt(s, f)), e)
            && ExponentText(ExponentAt(s, f)) == s[f..e]
            && (ExponentAt(s, f).Some? ==> !Digit(At(s, e)))
  {
    hide DigitsValue, DigitsOf, DigitsEnd, Pow10, Tens, ExponentText, Has, AllDigits, ExponentAt, ExponentDigits;
    NoExponentAt(s, f);
    var d := ExponentDigits(s, f);
    if d.Some? {
      var e := DigitsEnd(s, d.value);
      ExponentTextAt(s, f, d.value, e);
      HasSlice(s, d.value, e);
      DigitsMove(s, d.value, s[d.value..e]);
      DigitsArePositive(s[d.value..e]);
      PowersOfTen(DigitsOf(s[d.value..e]));
    }
  }

  lemma NoExponentAt(s: Bytes, f: nat)
    requires f <= |s|
    ensures ExponentAt(s, f).None? <==> ExponentDigits(s, f).None?
    ensures ExponentAt(s, f).None? ==> ExponentText(ExponentAt(s, f)) == [] == s[f..f] && ExponentOk(ExponentAt(s, f))
  {
  }

  lemma ExponentTextAt(s: Bytes, f: nat, d: nat, e: nat)
    requires f <= |s| && ExponentDigits(s, f) == Some(d) && e == DigitsEnd(s, d)
    ensures ExponentText(ExponentAt(s, f)) == s[f..e] && ExponentOk(ExponentAt(s, f))
    ensures s[d - 1] == MINUS <==> s[f + 1..d] == [MINUS]
    ensures ExponentAt(s, f) == Some(Exponent(s[f], s[f + 1..d], s[d..e])) && e <= |s|
  {
    hide DigitsEnd;
    TwoCuts(s, f, d, e);
    assert s[f + 1..d] == [] || s[f + 1..d] == [s[f + 1]];
    assert AllDigits(s[d..e]) by { DigitsPart(s, d); }
  }

  lemma TwoCuts(s: Bytes, f: nat, d: nat, e: nat)
    requires f < d <= e <= |s|
    ensures s[f..e] == [s[f]] + (s[f + 1..d] + s[d..e])
  {
  }

  lemma FractionPart(s: Bytes, k: nat)
    requires k <= |s|
    ensures FractionOk(FractionAt(s, k)) && (FractionAt(s, k).Some? <==> At(s, k) == DOT)
    ensures FractionText(FractionAt(s, k)) == s[k..FractionEnd(s, k)]
    ensures At(s, k) == DOT ==> !Digit(At(s, FractionEnd(s, k)))
    ensures At(s, k) == DOT ==> FractionEnd(s, k) >= k + 1
    ensures At(s, k) == DOT ==> FractionAt(s, k).value == s[k + 1..FractionEnd(s, k)]
    ensures At(s, k) == DOT ==>
              DigitsValue(s, k + 1, FractionEnd(s, k)) == DigitsOf(FractionAt(s, k).value)
  {
    if At(s, k) == DOT {
      var f := FractionEnd(s, k);
      assert s[k..f] == [DOT] + s[k + 1..f];
      DigitsMove(s, k + 1, s[k + 1..f]);
    }
  }

  /** The parts of what `strtod` reads at `i`. */
  function PartsAt(s: Bytes, i: nat): Parts
    requires i < |s|
  {
    var j := if s[i] == MINUS then i + 1 else i;
    var k := DigitsEnd(s, j);
    Parts(s[i..j], s[j..k], FractionAt(s, k), ExponentAt(s, FractionEnd(s, k)))
  }

  lemma Pieces(s: Bytes, i: nat, j: nat, k: nat, f: nat, e: nat)
    requires i <= j <= k <= f <= e <= |s|
    ensures s[i..e] == s[i..j] + (s[j..k] + (s[k..f] + s[f..e]))
  {
  }

  /** What `strtod` has found when it has read something. */
  lemma StrtodFound(s: Bytes, i: nat, n: nat, v: real) returns (j: nat, k: nat, f: nat)
    requires i < n && i < |s| && Strtod(s, i) == Converted(v, n)
    ensures j == (if s[i] == MINUS then i + 1 else i) && k == DigitsEnd(s, j) && f == FractionEnd(s, k)
    ensures (k > j || f > k + 1) && !HexPrefix(s, j)
    ensures Scaled(s, f, if s[i] == MINUS then -Mantissa(s, j, k, f) else Mantissa(s, j, k, f)) == Converted(v, n)
  {
    hide DigitsEnd, FractionEnd, HexPrefix, InfOrNan, Mantissa, Scaled;
    j := if s[i] == MINUS then i + 1 else i;
    k := DigitsEnd(s, j);
    f := FractionEnd(s, k);
  }

  /** Conversely, what was read is a token with its double, and nothing behind it goes on with it. */
  lemma NumberIsRead(s: Bytes, i: nat, n: nat, v: real) returns (p: Parts)
    requires i < n && i < |s| && (s[i] == MINUS || Digit(s[i])) && ParseNumber(s, i) == Some(Number(v, n))
    ensures TokenOk(p) && PartsText(p) == s[i..n] && PartsDouble(p) == v && Stops(s, n, p)
  {
    hide DigitsEnd, FractionEnd, HexPrefix, InfOrNan, Mantissa, Scaled, Strtod, FractionText, ExponentText, Has,
      OutOfRange, PowerOf, FractionOf, DigitsOf, ExponentDigits, FractionOk, ExponentOk, AllDigits, Taken, Stops,
      FractionAt, ExponentAt, IsDecimal, Rounded;
    var x := Strtod(s, i).value;
    var j, k, f := StrtodFound(s, i, n, x);
    p := PartsAt(s, i);
    ExponentPart(s, f, if s[i] == MINUS then -Mantissa(s, j, k, f) else Mantissa(s, j, k, f));
    FractionPart(s, k);
    Pieces(s, i, j, k, f, n);
    SignPart(s, i, j);
    DigitsPart(s, j);
    ValueFound(s, i, j, k, f, p);
    assert PartsOk(p);
    assert PartsValue(p) == x;
    assert !OutOfRange(x);
    ReadIsTaken(s, i, j, k, f, n, p);
  }

  lemma SignPart(s: Bytes, i: nat, j: nat)
    requires i < |s| && j == (if s[i] == MINUS then i + 1 else i)
    ensures if s[i] == MINUS then s[i..j] == [MINUS] else s[i..j] == []
  {
  }

  lemma DigitsPart(s: Bytes, j: nat)
    requires j <= |s|
    ensures AllDigits(s[j..DigitsEnd(s, j)]) && !Digit(At(s, DigitsEnd(s, j)))
  {
  }

  lemma ValueFound(s: Bytes, i: nat, j: nat, k: nat, f: nat, p: Parts)
    requires i < |s| && j == (if s[i] == MINUS then i + 1 else i) && k == DigitsEnd(s, j) && f == FractionEnd(s, k)
    requires p == PartsAt(s, i)
    ensures Mantissa(s, j, k, f) == DigitsOf(p.integer) as real + FractionOf(p.fraction)
  {
    hide DigitsValue, DigitsOf, DigitsEnd, FractionEnd, Has, FractionAt, ExponentAt, Pow10, Tens, FractionText;
    HasSlice(s, j, k);
    DigitsMove(s, j, s[j..k]);
    FractionPart(s, k);
    FractionLonger(s, k);
    if p.fraction.Some? {
      FractionValue(DigitsOf(p.fraction.value) as real, f - k - 1);
    }
  }

  lemma FractionLonger(s: Bytes, k: nat)
    requires k <= |s|
    ensures FractionEnd(s, k) == k <==> At(s, k) != DOT
  {
  }

  lemma HasSlice(s: Bytes, j: nat, k: nat)
    requires j <= k <= |s|
    ensures Has(s, j, s[j..k])
  {
  }

  lemma ReadIsTaken(s: Bytes, i: nat, j: nat, k: nat, f: nat, n: nat, p: Parts)
    requires i < n <= |s| && (s[i] == MINUS || Digit(s[i])) && IsDecimal(s, i, n)
    requires j == (if s[i] == MINUS then i + 1 else i) && k == DigitsEnd(s, j) && f == FractionEnd(s, k)
    requires (k > j || f > k + 1) && !HexPrefix(s, j) && p == PartsAt(s, i)
    requires n == f + |ExponentText(p.exponent)| && (p.exponent.Some? ==> !Digit(At(s, n)))
    requires p.exponent.None? <==> ExponentDigits(s, f).None?
    ensures Taken(p) && Stops(s, n, p)
  {
    hide ExponentDigits, ExponentFollows, ExponentAt, ExponentText, FractionAt, FractionText, FractionEnd, DigitsEnd;
    ExponentDigitsFollow(s, f);
    FractionPart(s, k);
    FractionLonger(s, k);
    DigitsPart(s, j);
    TextLengths(p);
    assert |p.integer| == k - j && (k > j ==> p.integer[0] == s[j]);
    ReadDecimal(s, i, j, k, n, p.integer);
    assert p.exponent.None? ==> n == f;
    assert p.fraction.None? ==> f == k;
    assert p.integer == [48] ==> k == j + 1 && s[j] == 48;
    assert k > j + 1 ==> Digit(p.integer[1]) && s[j + 1] == p.integer[1];
    ExponentGoesOn(p.exponent);
  }

  lemma ExponentGoesOn(e: Option<Exponent>)
    ensures e.Some? ==> |ExponentText(e)| > 0
  {
  }

  /** What `is_decimal` has refused already. */
  lemma ReadDecimal(s: Bytes, i: nat, j: nat, k: nat, n: nat, integer: Bytes)
    requires i < n <= |s| && IsDecimal(s, i, n) && j == (if s[i] == MINUS then i + 1 else i) <= k <= n
    requires integer == s[j..k]
    ensures k > j && s[j] == 48 ==> n == j + 1 || s[j + 1] == DOT
  {
  }

  /**
   * At a minus sign or a digit the number branch succeeds without moving the cursor exactly at a minus
   * sign that no digits, no fraction, and no infinity or NaN follow.
   */
  lemma NumberStays(s: Bytes, i: nat)
    requires i < |s| && (s[i] == MINUS || Digit(s[i]))
    ensures (ParseNumber(s, i).Some? && ParseNumber(s, i).value.next == i) <==> BareMinus(s, i)
    ensures BareMinus(s, i) ==> ParseNumber(s, i) == Some(Number(0.0, i))
  {
    ZeroInRange();
    hide OutOfRange, Rounded, Mantissa, Pow10, DigitsValue;
  }

  predicate BareMinus(s: Bytes, i: nat)
    requires i < |s|
  {
    && s[i] == MINUS && !Decimal(At(s, i + 1)) && !(At(s, i + 1) == DOT && Decimal(At(s, i + 2)))
    && !Spelled(s, i + 1, "inf") && !Spelled(s, i + 1, "nan")
  }

  /** The three letters stand at `i`, each in either case. */
  predicate Spelled(s: Bytes, i: nat, word: string)
    requires |word| == 3
  {
    i + 3 <= |s| && EitherCase(s[i], word[0]) && EitherCase(s[i + 1], word[1]) && EitherCase(s[i + 2], word[2])
  }

  lemma ZeroInRange()
    ensures !OutOfRange(0.0) && Rounded(0.0) == 0.0
  {
    hide OutOfRange, Rounded;
    IntegersInRange(0);
    IntegersStay(0);
  }

  // ---------------------------------------------------------------- whole texts

  /** `t` is read to its end by the number branch of `parse_value`. */
  predicate IsToken(t: Bytes) {
    && t != [] && (t[0] == MINUS || Digit(t[0]))
    && ParseNumber(t, 0).Some? && ParseNumber(t, 0).value.next == |t|
  }

  lemma StopsAtEnd(t: Bytes, p: Parts)
    ensures Stops(t, |t|, p)
  {
  }

  lemma TextStands(t: Bytes)
    ensures Has(t, 0, t)
  {
  }

  /** A whole text is taken as a number exactly when it is the text of parts the code takes, and in range. */
  lemma TokensAreTakenParts(t: Bytes)
    ensures IsToken(t) <==> exists p | TokenOk(p) :: PartsText(p) == t
    ensures forall p | TokenOk(p) && PartsText(p) == t ::
              t != [] && ParseNumber(t, 0) == Some(Number(PartsDouble(p), |t|))
  {
    hide PartsText, TokenOk, Stops, ParseNumber, PartsValue;
    if IsToken(t) {
      var p := NumberIsRead(t, 0, |t|, ParseNumber(t, 0).value.value);
      assert t[0..|t|] == t;
    }
    forall p | TokenOk(p) && PartsText(p) == t
      ensures PartsOk(p) && t != [] && ParseNumber(t, 0) == Some(Number(PartsDouble(p), |t|)) && IsToken(t)
    {
      TokenPartsOk(p);
      StopsAtEnd(t, p);
      TextStands(t);
      TokenReads(p, t, 0);
    }
  }

  lemma TokenPartsOk(p: Parts)
    requires TokenOk(p)
    ensures PartsOk(p)
  {
  }

  /** The first byte tells whether there is a sign. */
  lemma FirstByte(p: Parts, t: Bytes)
    requires PartsOk(p) && t == PartsText(p)
    ensures p.sign == [] <==> At(t, 0) != MINUS
  {
    if p.sign == [] {
      if p.integer != [] {
        assert t[0] == p.integer[0];
      } else if p.fraction.Some? {
        assert t[0] == DOT;
      } else if p.exponent.Some? {
        assert t[0] == p.exponent.value.letter;
      }
    }
  }

  /** A text has one sequence of parts at most. */
  lemma PartsUnique(p: Parts, q: Parts)
    requires PartsOk(p) && PartsOk(q) && PartsText(p) == PartsText(q)
    ensures p == q
  {
    hide FractionText, ExponentText, PartsText, Has, PowerOf, Scaled, FractionEnd, DigitsEnd, Stops, DigitsOf,
      DigitsValue, FractionOk, ExponentOk, AllDigits;
    var t := PartsText(p);
    TextStands(t);
    StopsAtEnd(t, p);
    StopsAtEnd(t, q);
    FirstByte(p, t);
    FirstByte(q, t);
    var j, k, f, e := PartsFound(p, t, 0);
    var j', k', f', e' := PartsFound(q, t, 0);
    PiecesAre(p, t, j, k, f);
    PiecesAre(q, t, j, k, f);
    FractionsDiffer(p.fraction, q.fraction);
    ExponentsDiffer(p.exponent, q.exponent);
  }

  lemma PiecesAre(p: Parts, t: Bytes, j: nat, k: nat, f: nat)
    requires t == PartsText(p) && j == |p.sign| && k == j + |p.integer| && f == k + |FractionText(p.fraction)|
    ensures k <= f <= |t| && p.sign == t[..j] && p.integer == t[j..k]
    ensures FractionText(p.fraction) == t[k..f] && ExponentText(p.exponent) == t[f..]
  {
    hide FractionText, ExponentText;
  }

  lemma FractionsDiffer(f: Option<Bytes>, g: Option<Bytes>)
    requires FractionText(f) == FractionText(g)
    ensures f == g
  {
    if f.Some? {
      assert FractionText(f)[1..] == f.value;
      assert g.Some? && FractionText(g)[1..] == g.value;
    } else {
      assert g.Some? ==> |FractionText(g)| > 0;
    }
  }

  lemma ExponentsDiffer(e: Option<Exponent>, g: Option<Exponent>)
    requires ExponentOk(e) && ExponentOk(g) && ExponentText(e) == ExponentText(g)
    ensures e == g
  {
    if e.Some? && g.Some? {
      SignThenDigits(e.value.sign, e.value.digits, ExponentText(e)[1..]);
      SignThenDigits(g.value.sign, g.value.digits, ExponentText(e)[1..]);
      assert ExponentText(e)[0] == e.value.letter && ExponentText(g)[0] == g.value.letter;
    } else {
      assert e.Some? ==> |ExponentText(e)| > 0;
      assert g.Some? ==> |ExponentText(g)| > 0;
    }
  }

  lemma SignThenDigits(sign: Bytes, digits: Bytes, t: Bytes)
    requires (sign == [] || sign == [43] || sign == [MINUS]) && AllDigits(digits) && digits != [] && t == sign + digits
    ensures if t[0] == 43 || t[0] == MINUS then sign == [t[0]] && digits == t[1..] else sign == [] && digits == t
  {
    assert sign == [] ==> t[0] == digits[0];
  }

  // ---------------------------------------------------------------- compared with RFC 8259

  ghost predicate RfcText(t: Bytes) {
    exists p | PartsOk(p) && Rfc(p) :: PartsText(p) == t
  }

  /**
   * A number of RFC 8259 is refused exactly when it is a zero directly followed by an exponent, or when
   * `strtod` reports a range error for it.
   */
  lemma RfcTaken(p: Parts)
    requires PartsOk(p) && Rfc(p)
    ensures IsToken(PartsText(p)) <==>
            !(p.integer == [48] && p.fraction.None? && p.exponent.Some?) && !OutOfRange(PartsValue(p))
  {
    hide PartsText, IsToken, OutOfRange, PartsValue;
    TokensAreTakenParts(PartsText(p));
    forall q | TokenOk(q) && PartsText(q) == PartsText(p) ensures q == p {
      PartsUnique(q, p);
    }
    assert TokenOk(p) <==> Taken(p) && !OutOfRange(PartsValue(p));
  }

  /** A number that is taken is one of RFC 8259 exactly when digits stand in front of its dot and behind it. */
  lemma TakenIsRfc(p: Parts)
    requires PartsOk(p) && IsToken(PartsText(p))
    ensures RfcText(PartsText(p)) <==> p.integer != [] && p.fraction != Some([])
  {
    hide PartsText, IsToken, OutOfRange, PartsValue;
    TokensAreTakenParts(PartsText(p));
    forall q | PartsOk(q) && PartsText(q) == PartsText(p) ensures q == p {
      PartsUnique(q, p);
    }
    assert TokenOk(p);
  }

  /** `0e1` is a number of RFC 8259 and refused; `1.` is none and taken. */
  lemma BothDiffer()
    ensures RfcText([48, 101, 49]) && !IsToken([48, 101, 49])
    ensures !RfcText([49, DOT]) && IsToken([49, DOT])
  {
    hide IsToken, PartsValue, OutOfRange;
    var p := Parts([], [48], None, Some(Exponent(101, [], [49])));
    assert PartsText(p) == [48, 101, 49];
    RfcTaken(p);
    var q := Parts([], [49], Some([]), None);
    assert PartsText(q) == [49, DOT];
    OneDotIsToken(q);
    TakenIsRfc(q);
  }

  lemma OneDotIsToken(q: Parts)
    requires q == Parts([], [49], Some([]), None)
    ensures PartsOk(q) && IsToken(PartsText(q))
  {
    assert DigitsOf([49]) == 1 && DigitsOf([]) == 0;
    assert PartsValue(q) == 1.0;
    IntegersInRange(1);
    hide OutOfRange, PartsValue;
    assert TokenOk(q);
    TokensAreTakenParts(PartsText(q));
  }

  // ---------------------------------------------------------------- printed integers

  function IntParts(n: int): Parts {
    if n < 0 then Parts([MINUS], NatText(-n), None, None) else Parts([], NatText(n), None, None)
  }

  /** What `%1.17g` prints for an integer is a token with that value. */
  lemma IntTextIsToken(n: int)
    requires -TWO_53 <= n <= TWO_53
    ensures TokenOk(IntParts(n)) && PartsText(IntParts(n)) == IntText(n) && PartsDouble(IntParts(n)) == n as real
  {
    hide OutOfRange, Rounded, NatText, DigitsOf, DigitsValue, Has, AllDigits;
    var m := if n < 0 then -n else n;
    TextStands(NatText(m));
    NatTextValue(m, NatText(m), 0);
    DigitsMove(NatText(m), 0, NatText(m));
    IntegersInRange(n);
    IntegersStay(n);
    FirstDigit(m);
    assert NatText(m) + ([] + []) == NatText(m);
    assert [] + NatText(m) == NatText(m);
    assert PartsOk(IntParts(n)) && PartsValue(IntParts(n)) == n as real;
  }

  lemma FirstDigit(m: nat)
    ensures AllDigits(NatText(m)) && NatText(m) != [] && (|NatText(m)| > 1 ==> NatText(m)[0] != 48)
  {
    assert NatText(m)[0] == 48 ==> m == 0;
  }
}
