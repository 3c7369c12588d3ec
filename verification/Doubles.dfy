/** IEEE 754 doubles as reals: their range, and rounding to the nearest one, ties to even. */
module Doubles {

  function Pow2(e: nat): (p: real)
    ensures p >= 1.0
  {
    if e == 0 then 1.0 else 2.0 * Pow2(e - 1)
  }

  lemma {:induction false} Pow2Grows(a: nat, b: nat)
    requires a <= b
    ensures Pow2(a) <= Pow2(b)
    decreases b
  {
    if b > 0 {
      Pow2Grows(if a == b then a - 1 else a, b - 1);
    }
  }

  lemma {:induction false} Pow2Adds(a: nat, b: nat)
    ensures Pow2(a + b) == Pow2(a) * Pow2(b)
  {
    if b > 0 {
      Pow2Adds(a, b - 1);
    }
  }

  lemma Pow2Doubles(e: nat)
    ensures Pow2(e + 1) == 2.0 * Pow2(e)
  {
  }

  const TWO_53: int := 0x20_0000_0000_0000

  lemma Pow2Of53()
    ensures Pow2(53) == TWO_53 as real
  {
    assert Pow2(1) == 2.0 && Pow2(2) == 4.0 && Pow2(3) == 8.0;
    Pow2Adds(3, 3);
    Pow2Adds(6, 6);
    Pow2Adds(12, 12);
    Pow2Adds(24, 24);
    Pow2Adds(48, 3);
    Pow2Adds(51, 2);
    hide Pow2;
    assert Pow2(6) == 64.0 && Pow2(12) == 4096.0;
    assert Pow2(24) == 16777216.0;
    assert Pow2(48) == 281474976710656.0;
  }

  predicate Whole(x: real) {
    x == x.Floor as real
  }

  function Magnitude(x: real): real {
    if x < 0.0 then -x else x
  }

  /** The least positive double is 2 to the power of minus this. */
  const LEAST: nat := 1074

  /** Doubles are multiples of the least positive one by `n * 2^k`, with `n` of 53 bits and `k` up to this. */
  const TOP: nat := 2045

  /** How many least positive doubles make up 1. */
  function PerOne(): (c: real)
    ensures c >= 1.0
  {
    Pow2(LEAST)
  }

  ghost predicate IsDouble(d: real) {
    Representable(Magnitude(d) * PerOne())
  }

  ghost predicate Representable(m: real) {
    exists n: nat, k: nat | n < TWO_53 && k <= TOP :: OnGrid(m, n, k)
  }

  predicate OnGrid(m: real, n: nat, k: nat) {
    m == n as real * Pow2(k)
  }

  /**
   * When `strtod` sets `errno`: a value that would round to more than the largest double, or one below
   * the normal doubles that is not a double itself.
   */
  predicate OutOfRange(x: real) {
    var m := Magnitude(x);
    TooLarge(m) || (TooSmall(m) && !Whole(InLeast(m)))
  }

  /** The exponents of the number behind the largest double, of the step in front of it, of half that step. */
  const NEXT: nat := 1024
  const STEP: nat := 971
  const HALF: nat := 970
  /** Minus the exponent of the least normal double. */
  const NORMAL: nat := 1022

  predicate TooLarge(m: real) {
    m >= Pow2(NEXT) - Pow2(HALF)
  }

  /** How many least normal doubles make up 1. */
  function NormalsPerOne(): (c: real)
    ensures c >= 1.0
  {
    Pow2(NORMAL)
  }

  /** `m` counted in least positive doubles, and in least normal ones. */
  function InLeast(m: real): real { m * PerOne() }

  function InNormals(m: real): real { m * NormalsPerOne() }

  predicate TooSmall(m: real) {
    0.0 < m && InNormals(m) < 1.0
  }

  /** The exponent of the grid on which `m`, counted in least positive doubles, has 53 bits or fewer. */
  function Grid(m: real, k: nat): (g: nat)
    requires k <= TOP
    ensures k <= g <= TOP && (g < TOP ==> m < TWO_53 as real * Pow2(g))
    ensures g > k ==> m >= TWO_53 as real * Pow2(g - 1)
    decreases TOP - k
  {
    if k == TOP || m < TWO_53 as real * Pow2(k) then k else Grid(m, k + 1)
  }

  /** The nearest integer, and of two the even one. */
  function NearestEven(y: real): (q: int)
    ensures -0.5 <= q as real - y <= 0.5 && (q as real - y in {-0.5, 0.5} ==> q % 2 == 0)
  {
    var f := y.Floor;
    var d := y - f as real;
    if d < 0.5 || (d == 0.5 && f % 2 == 0) then f else f + 1
  }

  function RoundedSize(m: real): real {
    var u := Pow2(Grid(m, 0));
    NearestEven(m / u) as real * u
  }

  /** The conversion to a double. */
  function Rounded(x: real): real {
    Unscaled(x, RoundedSize(Magnitude(x) * PerOne()))
  }

  /** The number with the sign of `x` that is `z` least positive doubles away from 0. */
  function Unscaled(x: real, z: real): real {
    if x < 0.0 then -(z / PerOne()) else z / PerOne()
  }

  // ---------------------------------------------------------------- rounding is to the nearest double

  lemma NearestEvenIsNearest(y: real, n: int)
    ensures Magnitude(NearestEven(y) as real - y) <= Magnitude(n as real - y)
  {
    var q := NearestEven(y);
    if n != q {
      assert n as real - q as real >= 1.0 || q as real - n as real >= 1.0;
    }
  }

  lemma Scale(a: real, u: real)
    requires u > 0.0
    ensures Magnitude(a * u) == Magnitude(a) * u
  {
    if a < 0.0 {
      assert (-a) * u == -(a * u) && (-a) * u > 0.0;
    } else {
      assert a * u >= 0.0;
    }
  }

  /** On the scale of least positive doubles: no `n * 2^k` with 53 bits is nearer than the rounded value. */
  lemma SizeIsNearest(m: real, n: nat, k: nat)
    requires m >= 0.0 && n < TWO_53 && k <= TOP && m < TWO_53 as real * Pow2(TOP)
    ensures Magnitude(RoundedSize(m) - m) <= Magnitude(n as real * Pow2(k) - m)
  {
    hide Pow2, PerOne, NearestEven, Magnitude, RoundedSize, Grid;
    var g, y := SizeIs(m);
    var r, d := RoundedSize(m), n as real * Pow2(k);
    if k >= g {
      OnFinerGrid(n, k, g, y, m, r, d);
    } else {
      OnCoarserGrid(n, k, g, y, m, r, d);
    }
  }

  lemma SizeIs(m: real) returns (g: nat, y: real)
    ensures g == Grid(m, 0) && m == y * Pow2(g) && RoundedSize(m) == NearestEven(y) as real * Pow2(g)
  {
    hide Pow2, PerOne, NearestEven, Grid;
    g := Grid(m, 0);
    y := m / Pow2(g);
    Quotient(m, Pow2(g));
  }

  lemma Quotient(m: real, u: real)
    requires u > 0.0
    ensures m / u * u == m
  {
  }

  lemma OnFinerGrid(n: nat, k: nat, g: nat, y: real, m: real, r: real, d: real)
    requires g <= k && m == y * Pow2(g) && r == NearestEven(y) as real * Pow2(g) && d == n as real * Pow2(k)
    ensures Magnitude(r - m) <= Magnitude(d - m)
  {
    hide Pow2, PerOne, NearestEven, Magnitude;
    Pow2Adds(k - g, g);
    var p := PowerIsWhole(k - g);
    var q, whole := NearestEven(y) as real, (n * p) as real;
    NearestEvenIsNearest(y, n * p);
    Product3(n as real, p as real, Pow2(g));
    assert whole == n as real * p as real;
    Differences(q, whole, y, Pow2(g), r, d, m);
  }

  lemma OnCoarserGrid(n: nat, k: nat, g: nat, y: real, m: real, r: real, d: real)
    requires k < g && n < TWO_53 && m >= TWO_53 as real * Pow2(g - 1)
    requires m == y * Pow2(g) && r == NearestEven(y) as real * Pow2(g) && d == n as real * Pow2(k)
    ensures Magnitude(r - m) <= Magnitude(d - m)
  {
    hide Pow2, PerOne, NearestEven, Magnitude;
    var half := TWO_53 / 2;
    var h := half as real * Pow2(g);
    NearestEvenIsNearest(y, half);
    Differences(NearestEven(y) as real, half as real, y, Pow2(g), r, h, m);
    BelowGrid(n, k, g);
    FurtherBelow(d, h, m);
  }

  /** A number on a coarser place is not above the least one with 53 bits on the grid `g`. */
  lemma BelowGrid(n: nat, k: nat, g: nat)
    requires n < TWO_53 && k < g
    ensures n as real * Pow2(k) <= (TWO_53 / 2) as real * Pow2(g) == TWO_53 as real * Pow2(g - 1)
  {
    Pow2Doubles(g - 1);
    Pow2Grows(k, g - 1);
    hide Pow2;
    ProductGrows(n as real, TWO_53 as real, Pow2(k), Pow2(g - 1));
    var half := TWO_53 / 2;
    assert half as real * 2.0 == TWO_53 as real;
    Product3(half as real, 2.0, Pow2(g - 1));
  }

  lemma FurtherBelow(a: real, b: real, m: real)
    requires a <= b <= m
    ensures Magnitude(b - m) <= Magnitude(a - m)
  {
  }

  lemma Product3(a: real, b: real, c: real)
    ensures a * (b * c) == (a * b) * c
  {
  }

  lemma ProductGrows(a: real, b: real, c: real, d: real)
    requires 0.0 <= a <= b && 0.0 <= c <= d
    ensures a * c <= b * d
  {
    assert b * d - a * c == (b - a) * d + a * (d - c);
  }

  /** Differences `a - y` and `b - y` scaled by `u`. */
  lemma Differences(a: real, b: real, y: real, u: real, au: real, bu: real, yu: real)
    requires u > 0.0 && Magnitude(a - y) <= Magnitude(b - y)
    requires au == a * u && bu == b * u && yu == y * u
    ensures Magnitude(au - yu) <= Magnitude(bu - yu)
  {
    ScaledDifference(a, y, u, au, yu);
    ScaledDifference(b, y, u, bu, yu);
    MagnitudeIsPositive(a - y);
    ProductGrows(Magnitude(a - y), Magnitude(b - y), u, u);
  }

  lemma ScaledDifference(a: real, y: real, u: real, au: real, yu: real)
    requires u > 0.0 && au == a * u && yu == y * u
    ensures Magnitude(au - yu) == Magnitude(a - y) * u
  {
    Distribute(a, y, u);
    var d, e := a - y, au - yu;
    assert d * u == e;
    hide Magnitude;
    Scale(d, u);
  }

  lemma Distribute(a: real, b: real, u: real)
    ensures (a - b) * u == a * u - b * u
  {
  }

  lemma MagnitudeIsPositive(a: real)
    ensures Magnitude(a) >= 0.0
  {
  }

  lemma {:induction false} PowerIsWhole(e: nat) returns (p: nat)
    ensures p as real == Pow2(e) && p > 0
  {
    if e == 0 {
      p := 1;
    } else {
      var half := PowerIsWhole(e - 1);
      p := 2 * half;
    }
  }

  /** Rounding gives a double, in range. */
  lemma SizeIsDouble(m: real)
    requires 0.0 <= m < Pow2(TOP + 53) - Pow2(TOP - 1)
    ensures Representable(RoundedSize(m)) && RoundedSize(m) >= 0.0
  {
    hide Pow2, PerOne, NearestEven, RoundedSize, Grid;
    var g, y := SizeIs(m);
    BelowTop(m);
    var slack := if g == TOP then 0.5 else 0.0;
    assert slack * Pow2(g) == if g == TOP then Pow2(TOP) / 2.0 else 0.0;
    SignificandFits(m, Pow2(g), y, slack);
    var q := NearestEven(y);
    ProductGrows(0.0, q as real, 0.0, Pow2(g));
    if q < TWO_53 {
      assert OnGrid(RoundedSize(m), q, g);
    } else {
      Pow2Doubles(g);
      var half := TWO_53 / 2;
      assert half as real * 2.0 == q as real;
      Product3(half as real, 2.0, Pow2(g));
      assert OnGrid(RoundedSize(m), half, g + 1);
    }
  }

  lemma BelowTop(m: real)
    requires m < Pow2(TOP + 53) - Pow2(TOP - 1)
    ensures m < TWO_53 as real * Pow2(TOP) - Pow2(TOP) / 2.0
  {
    hide Pow2;
    Pow2Adds(53, TOP);
    Pow2Of53();
    Pow2Doubles(TOP - 1);
  }

  lemma SignificandFits(m: real, u: real, y: real, slack: real)
    requires u > 0.0 && m == y * u && 0.0 <= m < TWO_53 as real * u - slack * u && (slack == 0.0 || slack == 0.5)
    ensures 0 <= NearestEven(y) <= TWO_53 && (slack == 0.5 ==> NearestEven(y) < TWO_53)
  {
    hide NearestEven;
    if y < 0.0 {
      ProductIsNegative(y, u);
    } else {
      var top := TWO_53 as real - slack;
      Distribute(TWO_53 as real, slack, u);
      Below(y, top, u);
      NearestEvenBelow(y, slack);
    }
  }

  lemma NearestEvenBelow(y: real, slack: real)
    requires 0.0 <= y < TWO_53 as real - slack && (slack == 0.0 || slack == 0.5)
    ensures 0 <= NearestEven(y) <= TWO_53 && (slack == 0.5 ==> NearestEven(y) < TWO_53)
  {
  }

  lemma ProductIsNegative(a: real, u: real)
    requires a < 0.0 < u
    ensures a * u < 0.0
  {
  }

  lemma Below(a: real, b: real, u: real)
    requires u > 0.0 && a * u < b * u
    ensures a < b
  {
  }

  /**
   * What `strtod` gives in range is a double, and none is nearer. Which of two that are as near it is, the
   * definition of `NearestEven` says.
   */
  lemma RoundedIsNearest(x: real)
    requires !OutOfRange(x)
    ensures IsDouble(Rounded(x))
    ensures forall d | IsDouble(d) :: Magnitude(Rounded(x) - x) <= Magnitude(d - x)
  {
    hide Pow2, PerOne, RoundedSize, IsDouble, Representable, Unscaled, Magnitude;
    var c := PerOne();
    var m := Magnitude(x) * c;
    ScaledRange(x, m);
    SizeIsDouble(m);
    var r := Unscaled(x, RoundedSize(m));
    assert Rounded(x) == r;
    SizeUnscaled(x, RoundedSize(m));
    DoubleFrom(r, RoundedSize(m));
    forall d | IsDouble(d) ensures Magnitude(r - x) <= Magnitude(d - x) {
      NoneNearer(x, m, d);
    }
  }

  lemma NoneNearer(x: real, m: real, d: real)
    requires IsDouble(d) && m == Magnitude(x) * PerOne() && 0.0 <= m < Pow2(TOP + 53) - Pow2(TOP - 1)
    requires RoundedSize(m) >= 0.0
    ensures Magnitude(Unscaled(x, RoundedSize(m)) - x) <= Magnitude(d - x)
  {
    hide Pow2, PerOne, RoundedSize, IsDouble, Unscaled, Magnitude;
    var n, k := DoubleParts(d);
    var z, dc := RoundedSize(m), n as real * Pow2(k);
    BelowTop(m);
    SizeIsNearest(m, n, k);
    SizeUnscaled(x, z);
    NearerUnscaled(x, Unscaled(x, z), d, z, dc, m);
  }

  lemma DoubleFrom(d: real, m: real)
    requires Representable(m) && Magnitude(d) * PerOne() == m
    ensures IsDouble(d)
  {
    hide Pow2, PerOne, Representable, Magnitude;
  }

  lemma SizeUnscaled(x: real, z: real)
    requires z >= 0.0
    ensures Magnitude(Unscaled(x, z)) * PerOne() == z && SameSide(Unscaled(x, z), x)
  {
    hide PerOne;
    var c := PerOne();
    var r := z / c;
    Quotient(z, c);
    if r < 0.0 {
      ProductIsNegative(r, c);
    }
  }

  predicate SameSide(a: real, b: real) {
    (a >= 0.0 && b >= 0.0) || (a <= 0.0 && b <= 0.0)
  }

  lemma NearerUnscaled(x: real, r: real, d: real, rc: real, dc: real, xc: real)
    requires SameSide(r, x)
    requires Magnitude(r) * PerOne() == rc && Magnitude(d) * PerOne() == dc && Magnitude(x) * PerOne() == xc
    requires Magnitude(rc - xc) <= Magnitude(dc - xc)
    ensures Magnitude(r - x) <= Magnitude(d - x)
  {
    hide Magnitude, PerOne;
    var c := PerOne();
    var a, b, y := Magnitude(r), Magnitude(d), Magnitude(x);
    ScaledDifference(a, y, c, rc, xc);
    ScaledDifference(b, y, c, dc, xc);
    NotAbove(Magnitude(a - y), Magnitude(b - y), c);
    Sides(x, r, d);
  }

  lemma NotAbove(a: real, b: real, u: real)
    requires u > 0.0 && a * u <= b * u
    ensures a <= b
  {
  }

  lemma Sides(x: real, r: real, d: real)
    requires SameSide(r, x)
    ensures Magnitude(Magnitude(d) - Magnitude(x)) <= Magnitude(d - x)
    ensures Magnitude(r - x) == Magnitude(Magnitude(r) - Magnitude(x))
  {
  }

  lemma DoubleParts(d: real) returns (n: nat, k: nat)
    requires IsDouble(d)
    ensures n < TWO_53 && k <= TOP && Magnitude(d) * PerOne() == n as real * Pow2(k)
  {
    hide Pow2, PerOne, Magnitude;
    var m := Magnitude(d) * PerOne();
    assert Representable(m);
    n, k :| n < TWO_53 && k <= TOP && OnGrid(m, n, k);
  }

  lemma ScaledRange(x: real, m: real)
    requires !OutOfRange(x) && m == Magnitude(x) * PerOne()
    ensures 0.0 <= m < Pow2(TOP + 53) - Pow2(TOP - 1)
  {
    hide Pow2, Magnitude;
    var a, b, c := Pow2(NEXT), Pow2(HALF), PerOne();
    MagnitudeIsPositive(x);
    Pow2Adds(NEXT, LEAST);
    Pow2Adds(HALF, LEAST);
    assert a * c == Pow2(TOP + 53) && b * c == Pow2(TOP - 1);
    hide PerOne;
    Distribute(a, b, c);
    BelowScaled(Magnitude(x), a - b, c);
  }

  lemma BelowScaled(a: real, b: real, u: real)
    requires 0.0 <= a < b && u > 0.0
    ensures 0.0 <= a * u < b * u
  {
    assert (b - a) * u > 0.0;
  }

  /** A double is kept. */
  lemma DoubleStays(d: real)
    requires IsDouble(d) && !OutOfRange(d)
    ensures Rounded(d) == d
  {
    hide OutOfRange, Rounded, IsDouble;
    RoundedIsNearest(d);
    assert d - d == 0.0 && Magnitude(d - d) == 0.0;
    assert Magnitude(Rounded(d) - d) <= Magnitude(d - d);
  }

  // ---------------------------------------------------------------- integers

  /** The integers that doubles hold exactly are in range. */
  lemma IntegersInRange(n: int)
    requires -TWO_53 <= n <= TWO_53
    ensures !OutOfRange(n as real)
  {
    hide Pow2, PerOne, NormalsPerOne;
    Pow2Of53();
    Pow2Doubles(53);
    Pow2Doubles(NEXT - 1);
    Pow2Grows(54, NEXT - 1);
    Pow2Grows(HALF, NEXT - 1);
    assert Pow2(NEXT) - Pow2(HALF) >= Pow2(NEXT - 1) > TWO_53 as real;
    if n != 0 {
      ProductAtLeastOne(if n < 0 then -n as real else n as real, NormalsPerOne());
    }
  }

  lemma ProductAtLeastOne(x: real, y: real)
    requires x >= 1.0 && y >= 1.0
    ensures x * y >= 1.0
  {
    assert x * y - 1.0 == (x - 1.0) * y + (y - 1.0);
  }

  /** They are kept by rounding. */
  lemma IntegersStay(n: int)
    requires -TWO_53 <= n <= TWO_53
    ensures Rounded(n as real) == n as real
  {
    hide OutOfRange, Rounded, IsDouble;
    IntegersInRange(n);
    IntegerIsDouble(n);
    DoubleStays(n as real);
  }

  lemma IntegerIsDouble(n: int)
    requires -TWO_53 <= n <= TWO_53
    ensures IsDouble(n as real)
  {
    var size := if n < 0 then -n else n;
    var m := size as real * PerOne();
    if size < TWO_53 {
      assert OnGrid(m, size, LEAST);
    } else {
      Pow2Doubles(LEAST);
      var half := TWO_53 / 2;
      assert half as real * 2.0 == size as real;
      Product3(half as real, 2.0, PerOne());
      assert OnGrid(m, half, LEAST + 1);
    }
    hide PerOne, OnGrid;
    assert Representable(m);
    assert Magnitude(n as real) == size as real;
    DoubleFrom(n as real, m);
  }

  // ---------------------------------------------------------------- the range

  /** The largest double. */
  function Largest(): real {
    Pow2(NEXT) - Pow2(STEP)
  }

  /** 2 to the power of 1024, the number that would come next, is as near as any double. */
  ghost predicate BeyondDoubles(x: real) {
    forall d | IsDouble(d) :: Magnitude(Pow2(NEXT) - Magnitude(x)) <= Magnitude(d - Magnitude(x))
  }

  /** A number of 53 bits whose highest is set, in least positive doubles: a normal double. */
  function Normal(n: nat, k: nat): real {
    n as real * Pow2(k)
  }

  /** Nearer to 0 than every normal double, and not 0. */
  ghost predicate Subnormal(x: real) {
    x != 0.0 && forall n: nat, k: nat | TWO_53 / 2 <= n < TWO_53 && k <= TOP :: InLeast(Magnitude(x)) < Normal(n, k)
  }

  /** The range errors: a number that would round beyond the doubles, or a subnormal one that is no double. */
  lemma OutOfRangeExactly(x: real)
    ensures OutOfRange(x) <==> BeyondDoubles(x) || (Subnormal(x) && !IsDouble(x))
  {
    hide Pow2, PerOne, IsDouble, BeyondDoubles, Subnormal, Whole, Magnitude, TooLarge, TooSmall;
    BeyondExactly(x);
    SubnormalExactly(x);
    if Subnormal(x) {
      SmallDoubles(x);
    }
  }

  lemma BeyondExactly(x: real)
    ensures BeyondDoubles(x) <==> TooLarge(Magnitude(x))
  {
    hide Pow2, PerOne, IsDouble;
    var m, next, half := Magnitude(x), Pow2(NEXT), Pow2(HALF);
    Pow2Doubles(HALF);
    if m >= next - half {
      forall d | IsDouble(d) ensures Magnitude(next - m) <= Magnitude(d - m) {
        DoubleIsSmaller(d);
      }
    } else {
      LargestIsDouble();
      assert Magnitude(Largest() - m) < Magnitude(next - m);
    }
  }

  lemma DoubleIsSmaller(d: real)
    requires IsDouble(d)
    ensures d <= Magnitude(d) <= Largest()
  {
    hide Pow2, PerOne, IsDouble;
    var n, k := DoubleParts(d);
    Pow2Grows(k, TOP);
    ProductGrows(n as real, (TWO_53 - 1) as real, Pow2(k), Pow2(TOP));
    LargestScaled();
    NotAbove(Magnitude(d), Largest(), PerOne());
  }

  lemma LargestScaled()
    ensures Largest() * PerOne() == (TWO_53 - 1) as real * Pow2(TOP)
  {
    hide Pow2;
    Pow2Adds(NEXT, LEAST);
    Pow2Adds(STEP, LEAST);
    Pow2Adds(53, TOP);
    Pow2Of53();
    Distribute(Pow2(NEXT), Pow2(STEP), Pow2(LEAST));
    Distribute(TWO_53 as real, 1.0, Pow2(TOP));
  }

  lemma LargestIsDouble()
    ensures IsDouble(Largest())
  {
    hide Pow2, PerOne;
    LargestScaled();
    Pow2Grows(STEP, NEXT);
    var m := (TWO_53 - 1) as real * Pow2(TOP);
    assert OnGrid(m, TWO_53 - 1, TOP);
    assert Magnitude(Largest()) == Largest();
    DoubleFrom(Largest(), m);
  }

  lemma SubnormalExactly(x: real)
    ensures Subnormal(x) <==> TooSmall(Magnitude(x))
  {
    hide InLeast, InNormals, Normal, Magnitude;
    var m := Magnitude(x);
    SmallScaled(m);
    NormalIsLarge();
    OnlyZeroIsZero(x);
    if Subnormal(x) {
      assert InLeast(m) < Normal(TWO_53 / 2, 0);
    }
  }

  lemma OnlyZeroIsZero(x: real)
    ensures x != 0.0 <==> 0.0 < Magnitude(x)
  {
  }

  lemma NormalIsLarge()
    ensures Normal(TWO_53 / 2, 0) == (TWO_53 / 2) as real
    ensures forall n: nat, k: nat | n >= TWO_53 / 2 :: Normal(n, k) >= (TWO_53 / 2) as real
  {
    var h := (TWO_53 / 2) as real;
    assert Pow2(0) == 1.0 && Normal(TWO_53 / 2, 0) == h * 1.0;
    hide Pow2;
    forall n: nat, k: nat | n >= TWO_53 / 2 ensures Normal(n, k) >= (TWO_53 / 2) as real {
      ProductGrows((TWO_53 / 2) as real, n as real, 1.0, Pow2(k));
    }
  }

  lemma SmallScaled(m: real)
    ensures InLeast(m) < (TWO_53 / 2) as real <==> InNormals(m) < 1.0
  {
    hide PerOne, NormalsPerOne;
    var a, b, c := NormalsPerOne(), (TWO_53 / 2) as real, PerOne();
    PerOneSplit();
    Product3(m, a, b);
    var p, q := InNormals(m), InLeast(m);
    assert p == m * a && q == m * c;
    assert q == p * b;
    BelowOne(p, q, b);
  }

  lemma BelowOne(p: real, q: real, b: real)
    requires b > 0.0 && q == p * b
    ensures q < b <==> p < 1.0
  {
    ProductBelow(p, 1.0, b);
  }

  lemma PerOneSplit()
    ensures PerOne() == NormalsPerOne() * (TWO_53 / 2) as real
  {
    hide Pow2;
    Pow2Adds(NORMAL, 52);
    Pow2Doubles(52);
    Pow2Of53();
    assert Pow2(52) == (TWO_53 / 2) as real;
    assert PerOne() == Pow2(NORMAL + 52) && NormalsPerOne() == Pow2(NORMAL);
  }

  lemma ProductBelow(a: real, b: real, u: real)
    requires u > 0.0
    ensures a * u < b * u <==> a < b
  {
    if a < b {
      assert (b - a) * u > 0.0;
    } else {
      ProductGrowsBy(b, a, u);
    }
  }

  lemma ProductGrowsBy(a: real, b: real, u: real)
    requires a <= b && u > 0.0
    ensures a * u <= b * u
  {
    assert (b - a) * u >= 0.0;
  }

  /** Below the normal doubles exactly the multiples of the least positive one are doubles. */
  lemma SmallDoubles(x: real)
    requires Subnormal(x)
    ensures IsDouble(x) <==> Whole(InLeast(Magnitude(x)))
  {
    hide Pow2, PerOne, Magnitude, IsDouble, Normal;
    var m := Magnitude(x) * PerOne();
    NormalIsLarge();
    assert m < Normal(TWO_53 / 2, 0);
    if IsDouble(x) {
      var n, k := DoubleParts(x);
      var p := PowerIsWhole(k);
      assert m == (n * p) as real;
    }
    if Whole(m) {
      MagnitudeIsPositive(x);
      WholeIsDouble(x, m);
    }
  }

  lemma WholeIsDouble(x: real, m: real)
    requires Whole(m) && m == Magnitude(x) * PerOne() && m < (TWO_53 / 2) as real && Magnitude(x) >= 0.0
    ensures IsDouble(x)
  {
    hide PerOne, Magnitude;
    ProductGrows(0.0, Magnitude(x), 0.0, PerOne());
    assert OnGrid(m, m.Floor, 0);
    DoubleFrom(x, m);
  }
}
