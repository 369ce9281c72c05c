/**
 The binary extended algorithm: rows of a remainder and its coefficients.
 */
module Inverse {
  import opened Arithmetic
  import opened Divisors

  /** One remainder with its two coefficients.  With an odd modulus the first one is not kept up to date. */
  datatype Row = Row(u: nat, a: int, b: int)

  /** What the coefficients say about the remainder: u = a m + b x, and modulo m in any case. */
  ghost predicate Fits(r: Row, x: int, m: int) {
    Divides(m, r.u - r.b * x) && (m % 2 == 0 ==> r.u == r.a * m + r.b * x)
  }

  /** Halves an even remainder and its coefficients, which the other operand is added to where they are odd. */
  function HalveRow(r: Row, x: int, m: int): (q: Row)
    requires r.u % 2 == 0
    ensures q.u == r.u / 2
  {
    if m % 2 == 0 then
      var p := if r.a % 2 != 0 || r.b % 2 != 0 then Row(r.u, r.a + x, r.b - m) else r;
      Row(r.u / 2, p.a / 2, p.b / 2)
    else
      Row(r.u / 2, r.a, (if r.b % 2 != 0 then r.b - m else r.b) / 2)
  }

  lemma HalveRowFits(r: Row, x: int, m: int)
    requires m > 0 && r.u % 2 == 0 && Fits(r, x, m) && (m % 2 == 0 ==> x % 2 == 1)
    ensures Fits(HalveRow(r, x, m), x, m)
  {
    hide Divides;
    var q := HalveRow(r, x, m);
    var k := Quotient(m, r.u - r.b * x);
    if m % 2 == 0 {
      EvenModulus(r.u, r.a, r.b, x, m);
      DividesBy(m, q.u - q.b * x, q.a);
    } else if r.b % 2 == 0 {
      k := OddModulus(r.u / 2, r.b / 2, x, k, m);
      DividesBy(m, q.u - q.b * x, k);
    } else {
      assert (r.b - m) * x == r.b * x - x * m && (k + x) * m == k * m + x * m;
      k := OddModulus(r.u / 2, (r.b - m) / 2, x, k + x, m);
      DividesBy(m, q.u - q.b * x, k);
    }
  }

  lemma OddModulus(u: int, b: int, x: int, k: int, m: int) returns (h: int)
    requires m % 2 == 1 && 2 * u - (2 * b) * x == k * m
    ensures u - b * x == h * m
  {
    h := k / 2;
    assert (2 * b) * x == 2 * (b * x);
    Parity(k, m);
    assert k * m == 2 * (h * m) + (k % 2) * m by {
      assert (2 * h + k % 2) * m == 2 * (h * m) + (k % 2) * m;
    }
  }

  /** A product is odd exactly when both factors are. */
  lemma Parity(a: int, b: int)
    ensures (a * b) % 2 == if a % 2 == 1 && b % 2 == 1 then 1 else 0
  {
    var i, p := a / 2, a % 2;
    assert a * b == 2 * (i * b) + p * b by {
      assert (2 * i + p) * b == 2 * (i * b) + p * b;
    }
  }

  lemma EvenModulus(u: int, a: int, b: int, x: int, m: int)
    requires u % 2 == 0 && m % 2 == 0 && x % 2 == 1 && u == a * m + b * x
    ensures b % 2 == 0
    ensures if a % 2 != 0 then u / 2 == ((a + x) / 2) * m + ((b - m) / 2) * x
            else u / 2 == (a / 2) * m + (b / 2) * x
  {
    EvenCoefficient(u, a, b, x, m);
    if a % 2 != 0 {
      CrossInts(a, b, x, m);
      HalfSum(u / 2, a + x, (a + x) / 2, m, b - m, (b - m) / 2, x);
    } else {
      HalfSum(u / 2, a, a / 2, m, b, b / 2, x);
    }
  }

  lemma EvenCoefficient(u: int, a: int, b: int, x: int, m: int)
    requires u % 2 == 0 && m % 2 == 0 && x % 2 == 1 && u == a * m + b * x
    ensures b % 2 == 0
  {
    Parity(a, m);
    Parity(b, x);
    EvenDifference(u, a * m, b * x);
  }

  lemma EvenDifference(u: int, y: int, z: int)
    requires u == y + z && u % 2 == 0 && y % 2 == 0
    ensures z % 2 == 0
  {
  }

  lemma CrossInts(a: int, b: int, x: int, m: int)
    ensures (a + x) * m + (b - m) * x == a * m + b * x
  {
  }

  lemma HalfSum(h: int, a2: int, a: int, m: int, b2: int, b: int, x: int)
    requires a2 == 2 * a && b2 == 2 * b && 2 * h == a2 * m + b2 * x
    ensures h == a * m + b * x
  {
    MulAssoc(2, a, m);
    MulAssoc(2, b, x);
  }

  // ----- the algorithm -----

  function HalvedOut(r: Row, x: int, m: int): (q: Row)
    ensures q.u <= r.u && (r.u > 0 ==> q.u > 0)
    decreases r.u
  {
    if r.u == 0 || r.u % 2 == 1 then r else HalvedOut(HalveRow(r, x, m), x, m)
  }

  function Minus(r: Row, q: Row, m: int): Row
    requires r.u >= q.u
  {
    Row(r.u - q.u, if m % 2 == 0 then r.a - q.a else r.a, r.b - q.b)
  }

  lemma SubtractFits(r: Row, q: Row, x: int, m: int)
    requires Fits(r, x, m) && Fits(q, x, m) && r.u >= q.u
    ensures Fits(Minus(r, q, m), x, m)
  {
    hide Divides;
    DifferenceTimes(r.b, q.b, x);
    DifferenceTimes(r.a, q.a, m);
    DividesDifference(m, r.u - r.b * x, q.u - q.b * x);
  }

  lemma DifferenceTimes(a: int, b: int, x: int)
    ensures (a - b) * x == a * x - b * x
  {
  }

  lemma DividesDifference(m: int, y: int, z: int)
    requires Divides(m, y) && Divides(m, z)
    ensures Divides(m, y - z)
  {
    hide Divides;
    var i := Quotient(m, y);
    var j := Quotient(m, z);
    DifferenceTimes(i, j, m);
    DividesBy(m, y - z, i - j);
  }

  /** The row that is left when the other one has reached zero. */
  function Rounds(r: Row, q: Row, x: int, m: int): Row
    requires q.u > 0
    decreases r.u + q.u
  {
    if r.u == 0 then q
    else
      var r1, q1 := HalvedOut(r, x, m), HalvedOut(q, x, m);
      if r1.u >= q1.u then Rounds(Minus(r1, q1, m), q1, x, m) else Rounds(r1, Minus(q1, r1, m), x, m)
  }

  /** Halving until the remainder is odd keeps the congruence, and the greatest common divisor with an odd number. */
  lemma {:induction false} HalvedOutFits(r: Row, x: int, m: int, v: nat)
    requires m > 0 && r.u > 0 && Fits(r, x, m) && (m % 2 == 0 ==> x % 2 == 1) && (r.u % 2 == 1 || v % 2 == 1)
    ensures var q := HalvedOut(r, x, m);
      && Fits(q, x, m) && 0 < q.u <= r.u && q.u % 2 == 1
      && forall h :: IsGcd(h, q.u, v) ==> IsGcd(h, r.u, v)
    decreases r.u
  {
    hide Fits, IsGcd, HalveRow;
    if r.u % 2 == 0 {
      HalveRowFits(r, x, m);
      HalvedOutFits(HalveRow(r, x, m), x, m, v);
      forall h | IsGcd(h, r.u / 2, v)
        ensures IsGcd(h, r.u, v)
      {
        GcdDouble(h, r.u / 2, v);
      }
    }
  }

  lemma Subtracted(x: nat, y: nat)
    requires x >= y
    ensures forall h :: IsGcd(h, x - y, y) ==> IsGcd(h, x, y)
  {
    hide IsGcd;
    forall h | IsGcd(h, x - y, y)
      ensures IsGcd(h, x, y)
    {
      GcdSubtract(h, x, y);
    }
  }

  /** What remains at the end is the greatest common divisor of the two remainders, with a congruent coefficient. */
  lemma {:induction false} RoundsFit(r: Row, q: Row, x: int, m: int)
    requires m > 0 && q.u > 0 && Fits(r, x, m) && Fits(q, x, m) && (m % 2 == 0 ==> x % 2 == 1)
    requires r.u % 2 == 1 || q.u % 2 == 1
    ensures Fits(Rounds(r, q, x, m), x, m) && Rounds(r, q, x, m).u > 0 && IsGcd(Rounds(r, q, x, m).u, r.u, q.u)
    decreases r.u + q.u
  {
    hide IsGcd, Fits, HalvedOut;
    if r.u == 0 {
      GcdZero(q.u);
    } else {
      var r1, q1 := HalvedOut(r, x, m), HalvedOut(q, x, m);
      HalvedOutFits(r, x, m, q.u);
      HalvedOutFits(q, x, m, r1.u);
      Swapped(q1.u, r1.u, q.u);
      if r1.u >= q1.u {
        SubtractFits(r1, q1, x, m);
        Subtracted(r1.u, q1.u);
        RoundsFit(Minus(r1, q1, m), q1, x, m);
      } else {
        SubtractFits(q1, r1, x, m);
        Subtracted(q1.u, r1.u);
        Swapped(q1.u - r1.u, r1.u, q1.u);
        RoundsFit(r1, Minus(q1, r1, m), x, m);
      }
    }
  }

  /** From the rows of the operands: m = 1 m + 0 x and x = 0 m + 1 x. */
  lemma Euclid(x: nat, m: nat)
    requires x > 0 && m > 0 && (x % 2 == 1 || m % 2 == 1)
    ensures var q := Rounds(Row(m, 1, 0), Row(x, 0, 1), x, m); Fits(q, x, m) && IsGcd(q.u, m, x)
  {
    hide IsGcd, Rounds;
    DividesBy(m, m - 0 * x, 1);
    DividesBy(m, x - 1 * x, 0);
    RoundsFit(Row(m, 1, 0), Row(x, 0, 1), x, m);
  }

  /** The coefficient of `x` that the loop ends with. */
  function Coefficient(x: nat, m: nat): int
    requires x > 0
  {
    Rounds(Row(m, 1, 0), Row(x, 0, 1), x, m).b
  }

  /** The coefficient can leave the range that the last steps of `modInverse` allow for, so that the result is
      an inverse but not in 0..m. */
  lemma OutOfRange()
    ensures Coefficient(1748, 3659) < -2 * 3659 && IsGcd(1, 3659, 1748)
  {
    hide Rounds, HalvedOut, HalveRow, Minus;
    HalfStep(Row(1748, 0, 1), Row(874, 0, -1829));
    HalfStep(Row(874, 0, -1829), Row(437, 0, -2744));
    OneRound(Row(3659, 1, 0), Row(1748, 0, 1), Row(3659, 1, 0), Row(437, 0, -2744));
    HalfStep(Row(3222, 1, 2744), Row(1611, 1, 1372));
    OneRound(Row(3222, 1, 2744), Row(437, 0, -2744), Row(1611, 1, 1372), Row(437, 0, -2744));
    HalfStep(Row(1174, 1, 4116), Row(587, 1, 2058));
    OneRound(Row(1174, 1, 4116), Row(437, 0, -2744), Row(587, 1, 2058), Row(437, 0, -2744));
    HalfStep(Row(150, 1, 4802), Row(75, 1, 2401));
    OneRound(Row(150, 1, 4802), Row(437, 0, -2744), Row(75, 1, 2401), Row(437, 0, -2744));
    HalfStep(Row(362, 0, -5145), Row(181, 0, -4402));
    OneRound(Row(75, 1, 2401), Row(362, 0, -5145), Row(75, 1, 2401), Row(181, 0, -4402));
    HalfStep(Row(106, 0, -6803), Row(53, 0, -5231));
    OneRound(Row(75, 1, 2401), Row(106, 0, -6803), Row(75, 1, 2401), Row(53, 0, -5231));
    HalfStep(Row(22, 1, 7632), Row(11, 1, 3816));
    OneRound(Row(22, 1, 7632), Row(53, 0, -5231), Row(11, 1, 3816), Row(53, 0, -5231));
    HalfStep(Row(42, 0, -9047), Row(21, 0, -6353));
    OneRound(Row(11, 1, 3816), Row(42, 0, -9047), Row(11, 1, 3816), Row(21, 0, -6353));
    HalfStep(Row(10, 0, -10169), Row(5, 0, -6914));
    OneRound(Row(11, 1, 3816), Row(10, 0, -10169), Row(11, 1, 3816), Row(5, 0, -6914));
    HalfStep(Row(6, 1, 10730), Row(3, 1, 5365));
    OneRound(Row(6, 1, 10730), Row(5, 0, -6914), Row(3, 1, 5365), Row(5, 0, -6914));
    HalfStep(Row(2, 0, -12279), Row(1, 0, -7969));
    OneRound(Row(3, 1, 5365), Row(2, 0, -12279), Row(3, 1, 5365), Row(1, 0, -7969));
    HalfStep(Row(2, 1, 13334), Row(1, 1, 6667));
    OneRound(Row(2, 1, 13334), Row(1, 0, -7969), Row(1, 1, 6667), Row(1, 0, -7969));
    LastRound(Row(0, 1, 14636), Row(1, 0, -7969));
    assert Combines(3807, -7969, 1, 3659, 1748);
  }

  lemma HalfStep(r: Row, q: Row)
    requires r.u % 2 == 0 && r.u == 2 * q.u && q.u > 0 && r.a == q.a
    requires 2 * q.b == if r.b % 2 == 0 then r.b else r.b - 3659
    ensures HalvedOut(r, 1748, 3659) == HalvedOut(q, 1748, 3659)
  {
    assert HalveRow(r, 1748, 3659) == q;
  }

  lemma OneRound(r: Row, q: Row, r1: Row, q1: Row)
    requires r.u > 0 && q.u > 0 && r1.u > 0 && q1.u > 0 && r1.u % 2 == 1 && q1.u % 2 == 1
    requires HalvedOut(r1, 1748, 3659) == HalvedOut(r, 1748, 3659)
    requires HalvedOut(q1, 1748, 3659) == HalvedOut(q, 1748, 3659)
    ensures r1.u >= q1.u ==> Rounds(r, q, 1748, 3659) == Rounds(Row(r1.u - q1.u, r1.a, r1.b - q1.b), q1, 1748, 3659)
    ensures r1.u < q1.u ==> Rounds(r, q, 1748, 3659) == Rounds(r1, Row(q1.u - r1.u, q1.a, q1.b - r1.b), 1748, 3659)
  {
  }

  /** With a remainder of zero, halving goes on for ever. */
  lemma {:induction false} ZeroStaysEven(r: Row, x: int, m: int, n: nat)
    requires r.u == 0
    ensures Halvings(r, x, m, n).u == 0
    decreases n
  {
    if n > 0 {
      ZeroStaysEven(HalveRow(r, x, m), x, m, n - 1);
    }
  }

  /** The row after `n` turns of the halving loop. */
  function Halvings(r: Row, x: int, m: int, n: nat): Row
    decreases n
  {
    if n == 0 || r.u % 2 != 0 then r else Halvings(HalveRow(r, x, m), x, m, n - 1)
  }

  lemma LastRound(r: Row, q: Row)
    requires q.u > 0 && r.u == 0
    ensures Rounds(r, q, 1748, 3659) == q
  {
  }

  lemma BothEven(x: int, y: int)
    requires x % 2 == 0 && y % 2 == 0
    ensures !IsGcd(1, x, y)
  {
    forall a, b
      ensures !Combines(a, b, 1, x, y)
    {
      Parity(a, x);
      Parity(b, y);
    }
  }
}
