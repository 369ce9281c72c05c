/**
 The estimate of a quotient digit in double precision: two divisions, two products, a sum and four roundings of these
 before the number is rounded down.
 */
module Estimates {
  import opened Arithmetic
  import opened Digits
  import opened Doubles

  const E24 := 0x100_0000
  const E27 := 0x800_0000
  const D24 := 16777216.0
  const D28 := 268435456.0

  /** 2^24 / yt: the unit of all that follows. */
  ghost function Unit(yt: int): real
    requires yt > 0
  {
    D24 / yt as real
  }

  lemma SmallHalves()
    ensures Half(24) * D24 == 1.0 && Half(28) * D28 == 1.0 && Half(27) == 2.0 * Half(28) && Half(26) == 4.0 * Half(28)
    ensures Half(25) == 8.0 * Half(28) && Half(24) == 16.0 * Half(28)
  {
    assert Half(4) == 0.0625;
    HalfAdd(4, 4);
    HalfAdd(8, 8);
    HalfAdd(16, 8);
    assert Half(25) == Half(24) / 2.0 && Half(26) == Half(25) / 2.0 && Half(27) == Half(26) / 2.0;
    assert Half(28) == Half(27) / 2.0;
  }

  lemma OtherHalves()
    ensures E53 * Half(25) == D28 && E53 * Half(24) == 2.0 * D28 && E53 * Half(52) == 2.0
    ensures D28 * Half(53) == Half(25) && E53 * Half(80) == Half(27) && D28 * Half(81) == Half(53)
  {
    hide Half;
    SmallHalves();
    HalfAdd(24, 28);
    HalfAdd(28, 25);
    HalfAdd(28, 53);
    HalfAdd(53, 27);
    HalvesInts(Half(24), Half(28), Half(25), Half(27), Half(52), Half(53), Half(80), Half(81));
  }

  lemma TinyHalves()
    ensures Half(50) == 4.0 * Half(52) && Half(51) == 2.0 * Half(52) && Half(53) == Half(52) / 2.0
    ensures Half(50) <= Half(28) && Half(81) <= Half(27)
  {
    hide Half;
    HalfStep(52);
    HalfStep(51);
    HalfStep(50);
    HalfMono(22, 28);
    HalfMono(54, 27);
  }

  lemma HalfMono(m: nat, n: nat)
    ensures Half(m + n) <= Half(n)
  {
    hide Half;
    HalfAdd(m, n);
    HalfBelow(Half(m), Half(n), Half(m + n));
  }

  lemma HalfStep(n: nat)
    ensures Half(n + 1) == Half(n) / 2.0
  {
  }

  lemma HalfBelow(a: real, b: real, c: real)
    requires 0.0 < a <= 1.0 && b > 0.0 && c == a * b
    ensures c <= b
  {
  }

  lemma HalvesInts(h24: real, h28: real, h25: real, h27: real, h52: real, h53: real, h80: real, h81: real)
    requires h24 * D24 == 1.0 && h28 * D28 == 1.0 && h25 == 8.0 * h28 && h24 == 16.0 * h28 && h27 == 2.0 * h28
    requires h52 == h24 * h28 && h53 == h28 * h25 && h81 == h28 * h53 && h80 == h53 * h27
    ensures E53 * h25 == D28 && E53 * h24 == 2.0 * D28 && E53 * h52 == 2.0 && D28 * h53 == h25 && E53 * h80 == h27
    ensures D28 * h81 == h53
  {
    assert E53 == D24 * (D28 * 2.0);
    assert E53 * h52 == (D24 * h24) * (D28 * h28) * 2.0;
    assert D28 * h53 == (D28 * h28) * h25;
    assert D28 * h81 == (D28 * h28) * h53;
    assert E53 * h53 == 1.0 by { assert h53 == h52 / 2.0; }
    assert E53 * h80 == (E53 * h53) * h27;
  }

  // ----- the ratios -----

  /** What the unit is between, and the exact ratio. */
  lemma UnitRange(yt: int)
    requires E27 * E24 <= yt < DV * E24
    ensures Half(28) <= Unit(yt) <= Half(27) && E52 / yt as real == D28 * Unit(yt)
    ensures Unit(yt) * yt as real == D24 && 0.0 <= Unit(yt) < 1.0 && 0.0 <= E52 / yt as real <= 2.0
  {
    hide Half;
    SmallHalves();
    var y, w := yt as real, Unit(yt);
    assert w * y == D24;
    RatioOf(y, w);
    UnitInts(y, w, Half(28));
  }

  lemma RatioOf(y: real, w: real)
    requires y > 0.0 && w * y == D24
    ensures E52 / y == D28 * w
  {
    assert (D28 * w) * y == D28 * (w * y);
    assert (D28 * w) * y / y == D28 * w;
  }

  lemma UnitInts(y: real, w: real, h: real)
    requires w * y == D24 && h * D28 == 1.0 && D28 * D24 / 2.0 <= y < D28 * D24
    ensures h <= w <= 2.0 * h && 0.0 < h < 0.5
  {
    if w < h {
      RealLess(w, h, y);
      RealLess(y, D28 * D24, h);
    }
    if w > 2.0 * h {
      RealLess(2.0 * h, w, y);
    }
  }

  /** d1 = 2^52 / yt and d2 = 2^24 / yt, as doubles. */
  ghost predicate Ratios(d1: real, d2: real, yt: int) {
    && E27 * E24 <= yt < DV * E24
    && (UnitRange(yt); d1 == Double(E52 / yt as real) && d2 == Double(D24 / yt as real))
  }

  /** Both are close to the exact ratios. */
  lemma RatioErrors(d1: real, d2: real, yt: int)
    requires Ratios(d1, d2, yt)
    ensures D28 * Unit(yt) - Half(53) <= d1 <= D28 * Unit(yt) + Half(53)
    ensures Unit(yt) - Half(81) <= d2 <= Unit(yt) + Half(81)
  {
    hide Half, Rounded;
    UnitRange(yt);
    OtherHalves();
    HalfStep(52);
    HalfStep(80);
    RoundedError(E52 / yt as real, 1074, 52);
    RoundedError(Unit(yt), 1074, 80);
  }

  // ----- the estimate -----

  /** The product of the first digit and the first ratio is below the base, and its error small. */
  lemma FirstProduct(a: int, d1: real, d2: real, yt: int)
    requires Ratios(d1, d2, yt) && 0 <= a < DV && (a + 1) * E24 <= yt
    ensures var w := Unit(yt); var exact := a as real * (D28 * w);
      && exact - Half(25) <= a as real * d1 <= exact + Half(25)
      && 0.0 <= exact <= D28 - 1.0 && 0.0 <= a as real * d1 < D28
  {
    hide Half, Ratios;
    assert E27 * E24 <= yt < DV * E24 by { RatiosRange(d1, d2, yt); }
    UnitRange(yt);
    RatioErrors(d1, d2, yt);
    SmallHalves();
    OtherHalves();
    ProductInts(a, yt, d1, Unit(yt), Half(28), Half(53), Half(25));
  }

  lemma ProductInts(a: int, yt: int, d1: real, w: real, h28: real, h: real, h25: real)
    requires 0 <= a < DV && (a + 1) * E24 <= yt && w * yt as real == D24
    requires D28 * w - h <= d1 <= D28 * w + h && h28 <= w && h28 * D28 == 1.0 && 0.0 < h <= 1.0 && D28 * h == h25 < 1.0
    ensures var exact := a as real * (D28 * w);
      && exact - h25 <= a as real * d1 <= exact + h25
      && 0.0 <= exact <= D28 - 1.0 && 0.0 <= a as real * d1 < D28
  {
    var x, e := a as real, D28 * w;
    RealScale(h28, w, D28);
    ExactProduct(a, yt, w);
    ErrorScaled(x, d1, e, h, D28);
    RealNonNeg(x, e);
    RealNonNeg(x, d1);
  }

  lemma ErrorScaled(x: real, d: real, e: real, h: real, top: real)
    requires 0.0 <= x <= top && e - h <= d <= e + h
    ensures x * e - top * h <= x * d <= x * e + top * h
  {
    var z := d - e;
    assert x * d == x * e + x * z;
    AbsProduct(x, z, h, top);
  }

  lemma AbsProduct(x: real, z: real, h: real, top: real)
    requires 0.0 <= x <= top && -h <= z <= h
    ensures -(top * h) <= x * z <= top * h
  {
    RealScale(z, h, x);
    RealScale(-h, z, x);
    RealScale(x, top, h);
  }

  lemma RatiosRange(d1: real, d2: real, yt: int)
    requires Ratios(d1, d2, yt)
    ensures E27 * E24 <= yt < DV * E24
  {
  }

  lemma ExactProduct(a: int, yt: int, w: real)
    requires 0 <= a && (a + 1) * E24 <= yt && w * yt as real == D24 && w > 0.0 && D28 * w >= 1.0
    ensures a as real * (D28 * w) <= D28 - 1.0
  {
    var x := a as real;
    assert ((a + 1) * E24) as real == (x + 1.0) * D24;
    RealScale((x + 1.0) * D24, yt as real, w);
    assert ((x + 1.0) * w) * D24 <= D24;
    assert (x + 1.0) * w <= 1.0;
    assert x * (D28 * w) == D28 * ((x + 1.0) * w) - D28 * w;
  }

  /** The product of the second digit and the second ratio is small. */
  lemma SecondProduct(b: int, d1: real, d2: real, yt: int)
    requires Ratios(d1, d2, yt) && IsDigit(b)
    ensures var exact, v := (b + 16) as real * Unit(yt), (b + 16) as real * d2;
      exact - Half(52) <= v <= exact + Half(52) && 0.0 <= exact <= 4.0 && 0.0 <= v <= 8.0
  {
    hide Half, Ratios;
    RatiosRange(d1, d2, yt);
    UnitRange(yt);
    RatioErrors(d1, d2, yt);
    SmallHalves();
    OtherHalves();
    TinyHalves();
    SecondInts((b + 16) as real, d2, Unit(yt), Half(28), Half(81), Half(52));
  }

  lemma SecondInts(y: real, d2: real, w: real, h28: real, h81: real, h52: real)
    requires 0.0 <= y <= 2.0 * D28 && w - h81 <= d2 <= w + h81 && h28 <= w <= 2.0 * h28 && h28 * D28 == 1.0
    requires 0.0 < h81 && 2.0 * (D28 * h81) == h52 <= 1.0 && h81 <= h28
    ensures y * w - h52 <= y * d2 <= y * w + h52 && 0.0 <= y * w <= 4.0 && 0.0 <= y * d2 <= 8.0
  {
    ErrorScaled(y, d2, w, h81, 2.0 * D28);
    AtMostFour(y, w, h28);
    RealNonNeg(y, w);
    RealNonNeg(y, d2);
  }

  lemma AtMostFour(y: real, w: real, h28: real)
    requires 0.0 <= y <= 2.0 * D28 && 0.0 <= w <= 2.0 * h28 && h28 * D28 == 1.0
    ensures y * w <= 4.0
  {
    RealScale(w, 2.0 * h28, y);
    RealScale(y, 2.0 * D28, 2.0 * h28);
    assert 2.0 * D28 * (2.0 * h28) == 4.0 * (h28 * D28);
  }

  /** The sum of the two products before and after its rounding, in units: not below the number with 1 in place of 16,
      and not above the one with 37. */
  lemma SumErrors(v1: real, v2: real, e1: real, e2: real, s1: real, s2: real, s: real, w: real, h: real)
    requires 0.0 < h <= w && e1 - 8.0 * h <= v1 <= e1 + 8.0 * h && v1 - 4.0 * h <= s1 <= v1 + 4.0 * h
    requires e2 - h / 2.0 <= v2 <= e2 + h / 2.0 && v2 - h / 2.0 <= s2 <= v2 + h / 2.0
    requires s <= s1 + s2 + 8.0 * h
    ensures s1 + s2 >= e1 + e2 - 15.0 * w && s <= e1 + e2 + 21.0 * w
  {
  }

  /** The estimate from the two highest digits of the remainder, in double precision. */
  method Estimate(a: int, b: int, d1: real, d2: real, ghost yt: int) returns (qd: int)
    requires Ratios(d1, d2, yt) && 0 <= a < DV && (a + 1) * E24 <= yt && IsDigit(b)
    ensures (a * DV + b + 1) * E24 < (qd + 1) * yt && qd * yt <= (a * DV + b + 37) * E24
  {
    hide Half, Ratios, Double;
    RatiosRange(d1, d2, yt);
    FirstProduct(a, d1, d2, yt);
    SecondProduct(b, d1, d2, yt);
    var v1, v2 := a as real * d1, (b + 16) as real * d2;
    var s1, s2 := Double(v1), Double(v2);
    ProductsRounded(v1, v2, s1, s2);
    var s := Double(s1 + s2);
    qd := s.Floor;
    SumRounded(s1 + s2, s);
    EstimateBounds(a, b, v1, v2, s1, s2, s, yt);
  }

  lemma EstimateBounds(a: int, b: int, v1: real, v2: real, s1: real, s2: real, s: real, yt: int)
    requires E27 * E24 <= yt < DV * E24
    requires var e1 := a as real * (D28 * Unit(yt));
      e1 - Half(25) <= v1 <= e1 + Half(25) && v1 - Half(26) <= s1 <= v1 + Half(26)
    requires var e2 := (b + 16) as real * Unit(yt);
      e2 - Half(52) <= v2 <= e2 + Half(52) && v2 - Half(51) <= s2 <= v2 + Half(51)
    requires s <= s1 + s2 + Half(25) && (s1 + s2).Floor as real <= s
    ensures (a * DV + b + 1) * E24 < (s.Floor + 1) * yt && s.Floor * yt <= (a * DV + b + 37) * E24
  {
    hide Half, Unit;
    UnitRange(yt);
    var w, n := Unit(yt), a * DV + b + 16;
    Errors(v1, v2, a as real * (D28 * w), (b + 16) as real * w, s1, s2, s, w);
    ExactSum(a, b, w);
    FloorBounds(s1 + s2, s, s.Floor, n, w, yt, a as real * (D28 * w) + (b + 16) as real * w);
  }

  /** The products are rounded by at most 2^-26 and 2^-51. */
  lemma ProductsRounded(v1: real, v2: real, s1: real, s2: real)
    requires 0.0 <= v1 < D28 && 0.0 <= v2 <= 8.0 && s1 == Double(v1) && s2 == Double(v2)
    ensures v1 - Half(26) <= s1 <= v1 + Half(26) && v2 - Half(51) <= s2 <= v2 + Half(51)
    ensures 0.0 <= s1 + s2 <= 2.0 * D28
  {
    hide Half, Rounded;
    OtherHalves();
    TinyHalves();
    HalfStep(25);
    HalfStep(50);
    RoundedError(v1, 1074, 25);
    RoundedError(v2, 1074, 50);
    RoundedAtLeast(v1, 1074, 0);
    RoundedAtLeast(v2, 1074, 0);
  }

  /** The sum is rounded by at most 2^-25. */
  lemma SumRounded(v: real, s: real)
    requires 0.0 <= v <= 2.0 * D28 && s == Double(v)
    ensures s <= v + Half(25) && v.Floor as real <= s
  {
    hide Half, Rounded;
    OtherHalves();
    HalfStep(24);
    RoundedError(v, 1074, 24);
    RoundedAtLeast(v, 1074, v.Floor);
  }

  lemma Errors(v1: real, v2: real, e1: real, e2: real, s1: real, s2: real, s: real, w: real)
    requires Half(28) <= w && e1 - Half(25) <= v1 <= e1 + Half(25) && v1 - Half(26) <= s1 <= v1 + Half(26)
    requires e2 - Half(52) <= v2 <= e2 + Half(52) && v2 - Half(51) <= s2 <= v2 + Half(51) && s <= s1 + s2 + Half(25)
    ensures s1 + s2 >= e1 + e2 - 15.0 * w && s <= e1 + e2 + 21.0 * w
  {
    hide Half;
    SmallHalves();
    TinyHalves();
    SumErrors(v1, v2, e1, e2, s1, s2, s, w, Half(28));
  }

  lemma ExactSum(a: int, b: int, w: real)
    ensures a as real * (D28 * w) + (b + 16) as real * w == (a * DV + b + 16) as real * w
  {
    assert (a * DV + b + 16) as real == a as real * D28 + (b + 16) as real;
    var x, y := a as real, (b + 16) as real;
    assert (x * D28 + y) * w == x * (D28 * w) + y * w;
  }

  /** From the bounds in units to bounds in integers. */
  lemma FloorBounds(v: real, s: real, qd: int, n: int, w: real, yt: int, e: real)
    requires yt > 0 && w * yt as real == D24 && e == n as real * w && v >= e - 15.0 * w && s <= e + 21.0 * w
    requires v.Floor as real <= s && qd == s.Floor
    ensures (n - 15) * E24 < (qd + 1) * yt && qd * yt <= (n + 21) * E24
  {
    var y := yt as real;
    assert v.Floor <= qd;
    assert v < (qd + 1) as real && qd as real <= s;
    UnitsBelow(n as real, 15.0, e, (qd + 1) as real, w, y);
    UnitsAbove(n as real, 21.0, e, qd as real, w, y);
    RealInts(n - 15, qd + 1, yt);
    RealInts(n + 21, qd, yt);
  }

  lemma UnitsBelow(n: real, k: real, e: real, q: real, w: real, y: real)
    requires y > 0.0 && w * y == D24 && e == n * w && e - k * w < q
    ensures (n - k) * D24 < q * y
  {
    RealLess((n - k) * w, q, y);
    assert (n - k) * w * y == (n - k) * (w * y);
  }

  lemma UnitsAbove(n: real, k: real, e: real, q: real, w: real, y: real)
    requires y > 0.0 && w * y == D24 && e == n * w && e + k * w >= q
    ensures (n + k) * D24 >= q * y
  {
    RealScale(q, (n + k) * w, y);
    assert (n + k) * w * y == (n + k) * (w * y);
  }

  lemma RealInts(n: int, q: int, y: int)
    ensures (n * E24) as real == n as real * D24 && (q * y) as real == q as real * y as real
  {
  }
}
