/**
 * Number tokens: `strtod` on the inputs `parse_value` hands to it, its range errors, the `is_decimal`
 * filter, and the text `%1.17g` gives an integer.
 */
module Numbers {
  import opened Bytes
  import opened Doubles

  predicate Digit(b: byte) { 48 <= b <= 57 }

  /** `a` or `A`, for a lower-case letter. */
  predicate Letter(b: byte, lower: byte) {
    b == lower || b + 32 == lower
  }

  predicate HexDigit(b: byte) {
    Digit(b) || 65 <= b <= 70 || 97 <= b <= 102
  }

  /** The first position at or behind `i` that holds no digit. */
  function DigitsEnd(s: Bytes, i: nat): (j: nat)
    requires i <= |s|
    ensures i <= j <= |s| && forall k | i <= k < j :: Digit(s[k])
    ensures !Digit(At(s, j))
    decreases |s| - i
  {
    if i < |s| && Digit(s[i]) then DigitsEnd(s, i + 1) else i
  }

  function DigitsValue(s: Bytes, i: nat, j: nat): int
    requires i <= j <= |s|
  {
    if i == j then 0 else DigitsValue(s, i, j - 1) * 10 + (s[j - 1] as int - 48)
  }

  function Pow10(e: int): real
    decreases if e < 0 then -e else e
  {
    if e == 0 then 1.0 else if e > 0 then 10.0 * Pow10(e - 1) else Pow10(e + 1) / 10.0
  }

  /** What `strtod` reads, before it rounds: a prefix, or something the caller refuses (hex, inf, nan). */
  datatype Conversion = Converted(value: real, next: nat) | NotDecimal

  predicate HexPrefix(s: Bytes, i: nat)
    requires i <= |s|
  {
    At(s, i) == 48 && Letter(At(s, i + 1), 120)
    && (HexDigit(At(s, i + 2)) || (At(s, i + 2) == DOT && HexDigit(At(s, i + 3))))
  }

  predicate InfOrNan(s: Bytes, i: nat)
    requires i <= |s|
  {
    || (Letter(At(s, i), 105) && Letter(At(s, i + 1), 110) && Letter(At(s, i + 2), 102))
    || (Letter(At(s, i), 110) && Letter(At(s, i + 1), 97) && Letter(At(s, i + 2), 110))
  }

  /** Where the fraction ends: behind the dot's digits, or where the integer ended. */
  function FractionEnd(s: Bytes, k: nat): (f: nat)
    requires k <= |s|
    ensures k <= f <= |s|
  {
    if At(s, k) == DOT then DigitsEnd(s, k + 1) else k
  }

  /** Where the digits of an exponent start, if one stands at `f`. */
  function ExponentDigits(s: Bytes, f: nat): (x: Option<nat>)
    requires f <= |s|
    ensures x.Some? ==> f < x.value < |s| && Digit(s[x.value])
  {
    if !Letter(At(s, f), 101) then None
    else
      var x := if At(s, f + 1) == 43 || At(s, f + 1) == MINUS then f + 2 else f + 1;
      if Digit(At(s, x)) then Some(x) else None
  }

  function Strtod(s: Bytes, i: nat): (c: Conversion)
    requires i < |s|
    ensures c.Converted? ==> i <= c.next <= |s|
  {
    var j := if s[i] == MINUS then i + 1 else i;
    if HexPrefix(s, j) || InfOrNan(s, j) then NotDecimal
    else
      var k := DigitsEnd(s, j);
      var f := FractionEnd(s, k);
      if k == j && f <= k + 1 then Converted(0.0, i)
      else
        var magnitude := Mantissa(s, j, k, f);
        Scaled(s, f, if s[i] == MINUS then -magnitude else magnitude)
  }

  /** Applies the exponent that stands at `f`, if any. */
  function Scaled(s: Bytes, f: nat, x: real): (c: Conversion)
    requires f <= |s|
    ensures c.Converted? && f <= c.next <= |s|
  {
    match ExponentDigits(s, f)
    case None => Converted(x, f)
    case Some(d) =>
      var e := DigitsEnd(s, d);
      var power := DigitsValue(s, d, e);
      Converted(x * Pow10(if s[d - 1] == MINUS then -power else power), e)
  }

  function Mantissa(s: Bytes, j: nat, k: nat, f: nat): real
    requires j <= k <= |s| && k == DigitsEnd(s, j) && f == FractionEnd(s, k)
  {
    if f == k then DigitsValue(s, j, k) as real
    else DigitsValue(s, j, k) as real + DigitsValue(s, k + 1, f) as real * Pow10(-(f - k - 1))
  }

  /** `is_decimal`, on the token between `i` and `n`. */
  predicate IsDecimal(s: Bytes, i: nat, n: nat)
    requires i <= n <= |s|
  {
    && !(n - i > 1 && s[i] == 48 && s[i + 1] != DOT)
    && !(n - i > 2 && s[i] == MINUS && s[i + 1] == 48 && s[i + 2] != DOT)
    && forall k | i <= k < n :: !Letter(s[k], 120)
  }

  datatype Number = Number(value: real, next: nat)

  /** `parse_number_value`: the value of the prefix as a double, unless it is out of range. */
  function ParseNumber(s: Bytes, i: nat): (r: Option<Number>)
    requires i < |s|
    ensures r.Some? ==> i <= r.value.next <= |s|
  {
    match Strtod(s, i)
    case NotDecimal => None
    case Converted(v, n) => if OutOfRange(v) || !IsDecimal(s, i, n) then None else Some(Number(Rounded(v), n))
  }

  // ---------------------------------------------------------------- printing integers

  /** The digits of a natural number. */
  function NatText(n: nat): (t: Bytes)
    ensures |t| > 0 && forall k | 0 <= k < |t| :: Digit(t[k])
    ensures t[0] == 48 ==> n == 0
    ensures n == 0 ==> t == [48]
  {
    if n < 10 then [48 + n] else NatText(n / 10) + [48 + n % 10]
  }

  /** `%1.17g` of an integer of magnitude at most 2 to the 53rd. */
  function IntText(n: int): (t: Bytes)
    ensures |t| > 0
  {
    if n < 0 then [MINUS] + NatText(-n) else NatText(n)
  }

  lemma {:induction false} NatTextValue(n: nat, s: Bytes, i: nat)
    requires Has(s, i, NatText(n))
    ensures i + |NatText(n)| <= |s| && DigitsValue(s, i, i + |NatText(n)|) == n
  {
    if n >= 10 {
      HasConcat(s, i, NatText(n / 10), [48 + n % 10]);
      NatTextValue(n / 10, s, i);
      HasOne(s, i + |NatText(n / 10)|, 48 + n % 10);
    } else {
      HasOne(s, i, 48 + n);
    }
  }

  lemma {:induction false} DigitsRun(s: Bytes, i: nat, n: nat)
    requires i + n <= |s| && forall k | i <= k < i + n :: Digit(s[k])
    requires !Digit(At(s, i + n))
    ensures DigitsEnd(s, i) == i + n
    decreases n
  {
    if n > 0 {
      DigitsRun(s, i + 1, n - 1);
    }
  }
}
