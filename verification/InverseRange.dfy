/**
 How far the coefficient of the inverse can leave the range of the modulus.

 Measured in moduli, let the coefficient of one row be at least -p and that of the other at most q.  A round that
 changes the first row makes p at most (p + q + 1) / 2, and one that changes the second row makes q at most (p + q) / 2.
 Either raises 2 q + (p - q)^2 by no more than a third, and it halves the sum of the remainders.
 */
module InverseRange {
  import opened Arithmetic
  import opened Bits
  import opened Divisors
  import opened Inverse

  /** The coefficient of `a` is bounded from below by -p and that of `b` from above by q, in moduli. */
  ghost predicate Bounded(a: Row, b: Row, m: int, p: real, q: real, potential: real) {
    && a.u > 0 && b.u > 0 && a.u % 2 == 1 && b.u % 2 == 1
    && a.b as real >= -(p * m as real) && b.b as real <= q * m as real
    && p * m as real >= m as real - 1.0 && q >= 0.0
    && 2.0 * q + (p - q) * (p - q) <= potential
  }

  // ----- halving -----

  /** Halving is exact. */
  lemma HalveExact(r: Row, x: int, m: int)
    requires m > 0 && r.u % 2 == 0 && Fits(r, x, m) && (m % 2 == 0 ==> x % 2 == 1)
    ensures 2 * HalveRow(r, x, m).b == r.b || 2 * HalveRow(r, x, m).b == r.b - m
  {
    hide Fits;
    if m % 2 == 0 {
      EvenRow(r, x, m);
    }
    HalfExact(r.b);
    HalfExact(r.b - m);
  }

  lemma EvenRow(r: Row, x: int, m: int)
    requires m % 2 == 0 && x % 2 == 1 && r.u % 2 == 0 && Fits(r, x, m)
    ensures r.b % 2 == 0
  {
    hide Divides;
    EvenCoefficient(r.u, r.a, r.b, x, m);
  }

  lemma HalfExact(b: int)
    ensures b % 2 == 0 ==> 2 * (b / 2) == b
  {
  }

  /** After one halving or more, the remainder is odd and at most half of what it was, and the coefficient is
      bounded. */
  lemma {:induction false} Halved(r: Row, x: int, m: int, top: int, bottom: int)
    requires m > 0 && r.u > 0 && r.u % 2 == 0 && Fits(r, x, m) && (m % 2 == 0 ==> x % 2 == 1)
    requires top >= 0 && r.b <= 2 * top + 1 && bottom >= m - 1 && r.b >= m - 2 * bottom - 1
    ensures var q := HalvedOut(r, x, m);
      q.u > 0 && q.u % 2 == 1 && 2 * q.u <= r.u && Fits(q, x, m) && -bottom <= q.b <= top
    decreases r.u
  {
    hide Fits;
    HalveExact(r, x, m);
    HalveRowFits(r, x, m);
    var h := HalveRow(r, x, m);
    assert -bottom <= h.b <= top;
    if h.u % 2 == 0 {
      Halved(h, x, m, top, bottom);
    }
  }

  // ----- one round -----

  /** The potential rises by at most a third when the first bound changes. */
  lemma FirstRises(p: real, q: real, potential: real)
    requires 2.0 * q + (p - q) * (p - q) <= potential
    ensures var p' := (p + q + 1.0) / 2.0; 2.0 * q + (p' - q) * (p' - q) <= potential + 1.0 / 3.0
  {
    var y := p - q;
    assert (y + 1.0) / 2.0 * ((y + 1.0) / 2.0) == (y * y + 2.0 * y + 1.0) / 4.0;
    assert (3.0 * y - 1.0) * (3.0 * y - 1.0) == 9.0 * (y * y) - 6.0 * y + 1.0;
    RealSquare(3.0 * y - 1.0);
    assert (p + q + 1.0) / 2.0 - q == (y + 1.0) / 2.0;
  }

  /** And when the second one does. */
  lemma SecondRises(p: real, q: real, potential: real)
    requires 2.0 * q + (p - q) * (p - q) <= potential
    ensures var q' := (p + q) / 2.0; 2.0 * q' + (p - q') * (p - q') <= potential + 1.0 / 3.0
  {
    var y := p - q;
    assert y / 2.0 * (y / 2.0) == (y * y) / 4.0;
    assert (3.0 * y - 2.0) * (3.0 * y - 2.0) == 9.0 * (y * y) - 12.0 * y + 4.0;
    RealSquare(3.0 * y - 2.0);
    assert p - (p + q) / 2.0 == y / 2.0;
  }

  lemma RealSquare(z: real)
    ensures z * z >= 0.0
  {
  }

  /** The first row changes. */
  lemma StepFirst(a: Row, b: Row, x: int, m: int, p: real, q: real, potential: real)
    requires Bounded(a, b, m, p, q, potential) && a.u > b.u && m >= 2 && (m % 2 == 0 ==> x % 2 == 1)
    requires Fits(a, x, m) && Fits(b, x, m)
    ensures var c := HalvedOut(Minus(a, b, m), x, m);
      && Fits(c, x, m) && 2 * (c.u + b.u) <= a.u + b.u
      && Bounded(c, b, m, (p + q + 1.0) / 2.0, q, potential + 1.0 / 3.0)
  {
    hide Fits, HalvedOut;
    SubtractFits(a, b, x, m);
    FirstRises(p, q, potential);
    var bottom := FirstBottom(a.b, b.b, m, p, q);
    Halved(Minus(a, b, m), x, m, High(a.b - b.b), bottom);
  }

  lemma FirstBottom(a: int, b: int, m: int, p: real, q: real) returns (bottom: int)
    requires a as real >= -(p * m as real) && b as real <= q * m as real && m >= 2
    requires p * m as real >= m as real - 1.0 && q >= 0.0
    ensures bottom >= m - 1 && a - b >= m - 2 * bottom - 1
    ensures bottom as real <= (p + q + 1.0) / 2.0 * m as real
    ensures (p + q + 1.0) / 2.0 * m as real >= m as real - 1.0
  {
    var y := (p + q + 1.0) / 2.0 * m as real;
    HalfOfSum(p, q, 1.0, m as real);
    RealNonNeg(q, m as real);
    bottom := y.Floor;
  }

  lemma HalfOfSum(p: real, q: real, z: real, m: real)
    ensures 2.0 * ((p + q + z) / 2.0 * m) == p * m + q * m + z * m
  {
    assert 2.0 * ((p + q + z) / 2.0 * m) == (p + q + z) * m;
  }

  function Far(b: int, m: int): (f: int)
    requires m > 0
    ensures f >= m && b >= m - 2 * f - 1
  {
    m + if b < 0 then -b else 0
  }

  /** The second row changes. */
  lemma StepSecond(a: Row, b: Row, x: int, m: int, p: real, q: real, potential: real)
    requires Bounded(a, b, m, p, q, potential) && b.u > a.u && m >= 2 && (m % 2 == 0 ==> x % 2 == 1)
    requires Fits(a, x, m) && Fits(b, x, m)
    ensures var c := HalvedOut(Minus(b, a, m), x, m);
      && Fits(c, x, m) && 2 * (c.u + a.u) <= a.u + b.u
      && Bounded(a, c, m, p, (p + q) / 2.0, potential + 1.0 / 3.0)
  {
    hide Fits, HalvedOut;
    SubtractFits(b, a, x, m);
    SecondRises(p, q, potential);
    var top := SecondTop(a.b, b.b, m, p, q);
    Halved(Minus(b, a, m), x, m, top, Far(b.b - a.b, m));
  }

  lemma SecondTop(a: int, b: int, m: int, p: real, q: real) returns (top: int)
    requires a as real >= -(p * m as real) && b as real <= q * m as real && m >= 2
    requires p * m as real >= m as real - 1.0 && q >= 0.0
    ensures top >= 0 && b - a <= 2 * top + 1 && top as real <= (p + q) / 2.0 * m as real && (p + q) / 2.0 >= 0.0
  {
    var y := (p + q) / 2.0 * m as real;
    HalfOfSum(p, q, 0.0, m as real);
    RealNonNeg(q, m as real);
    PositiveFactor(p, m as real);
    top := y.Floor;
  }

  lemma NegativeProduct(a: real, b: real)
    requires a < 0.0 && b > 0.0
    ensures a * b < 0.0
  {
  }

  lemma PositiveFactor(p: real, m: real)
    requires m >= 2.0 && p * m >= m - 1.0
    ensures p >= 0.0
  {
    if p < 0.0 {
      NegativeProduct(p, m);
    }
  }

  function High(b: int): (f: int)
    ensures f >= 0 && b <= 2 * f + 1
  {
    if b < 0 then 0 else b
  }

  // ----- the whole run -----

  /** Rows are made odd first, whatever they are. */
  lemma RoundsHalved(r: Row, q: Row, x: int, m: int)
    requires r.u > 0 && q.u > 0
    ensures Rounds(r, q, x, m) == Rounds(HalvedOut(r, x, m), HalvedOut(q, x, m), x, m)
  {
    HalvedTwice(r, x, m);
    HalvedTwice(q, x, m);
  }

  lemma {:induction false} HalvedTwice(r: Row, x: int, m: int)
    requires r.u > 0
    ensures HalvedOut(HalvedOut(r, x, m), x, m) == HalvedOut(r, x, m)
    decreases r.u
  {
    if r.u % 2 == 0 {
      HalvedTwice(HalveRow(r, x, m), x, m);
    }
  }

  lemma RoundOdd(r: Row, q: Row, x: int, m: int)
    requires r.u > 0 && q.u > 0 && r.u % 2 == 1 && q.u % 2 == 1
    ensures r.u == q.u ==> Rounds(r, q, x, m) == q
    ensures r.u > q.u ==> Rounds(r, q, x, m) == Rounds(HalvedOut(Minus(r, q, m), x, m), q, x, m)
    ensures r.u < q.u ==> Rounds(r, q, x, m) == Rounds(r, HalvedOut(Minus(q, r, m), x, m), x, m)
  {
    assert HalvedOut(r, x, m) == r && HalvedOut(q, x, m) == q;
    if r.u > q.u {
      RoundsHalved(Minus(r, q, m), q, x, m);
    } else if r.u < q.u {
      RoundsHalved(r, Minus(q, r, m), x, m);
    } else {
      var z := Minus(r, q, m);
      assert z.u == 0 && Rounds(z, q, x, m) == q;
    }
  }

  /** What the bounds are at the end. */
  lemma EndBounds(r: Row, q: Row, m: int, p1: real, q1: real, p2: real, q2: real, potential: real, n: nat)
    requires Bounded(r, q, m, p1, q1, potential) && Bounded(q, r, m, p2, q2, potential) && m >= 2
    requires potential <= 1.0 + 2.0 * n as real
    ensures -((n + 1) * m) <= q.b < (n + 1) * m
  {
    FactorBounds(p1, q1, potential);
    FactorBounds(p2, q2, potential);
    EndLower(q.b, m, p2, n);
    EndUpper(q.b, m, q1, n);
  }

  lemma EndLower(b: int, m: int, p: real, n: nat)
    requires b as real >= -(p * m as real) && p <= n as real + 1.0 && m >= 2
    ensures -((n + 1) * m) <= b
  {
    RealScale(p, n as real + 1.0, m as real);
    RealProduct(n + 1, m);
  }

  lemma EndUpper(b: int, m: int, q: real, n: nat)
    requires b as real <= q * m as real && q <= n as real + 0.5 && m >= 2
    ensures b < (n + 1) * m
  {
    RealScale(q, n as real + 0.5, m as real);
    RealProduct(n + 1, m);
    assert (n as real + 0.5) * m as real == (n as real + 1.0) * m as real - 0.5 * m as real;
  }

  lemma FactorBounds(p: real, q: real, potential: real)
    requires 2.0 * q + (p - q) * (p - q) <= potential
    ensures 2.0 * q <= potential && 2.0 * p <= potential + 1.0
  {
    RealSquare(p - q);
    RealSquare(p - q - 1.0);
    assert (p - q - 1.0) * (p - q - 1.0) == (p - q) * (p - q) - 2.0 * (p - q) + 1.0;
  }

  /** As long as the remainders have a sum below 2^(left + 2), at most `left` rounds are left. */
  lemma {:induction false} RoundsInRange(r: Row, q: Row, x: int, m: int, n: nat, left: nat,
                                         p1: real, q1: real, p2: real, q2: real, potential: real)
    requires Bounded(r, q, m, p1, q1, potential) && Bounded(q, r, m, p2, q2, potential)
    requires m >= 2 && (m % 2 == 0 ==> x % 2 == 1) && Fits(r, x, m) && Fits(q, x, m)
    requires r.u + q.u < 4 * Two(left) && potential + left as real / 3.0 <= 1.0 + 2.0 * n as real
    ensures -((n + 1) * m) <= Rounds(r, q, x, m).b < (n + 1) * m
    decreases left
  {
    assert r.u > 0 && q.u > 0 && r.u % 2 == 1 && q.u % 2 == 1;
    hide Bounded, Fits, Rounds, HalvedOut;
    RoundOdd(r, q, x, m);
    if r.u == q.u {
      EndBounds(r, q, m, p1, q1, p2, q2, potential, n);
    } else {
      RoundsLeft(r.u, q.u, left);
      if r.u > q.u {
        StepFirst(r, q, x, m, p1, q1, potential);
        StepSecond(q, r, x, m, p2, q2, potential);
        RoundsInRange(HalvedOut(Minus(r, q, m), x, m), q, x, m, n, left - 1,
                      (p1 + q1 + 1.0) / 2.0, q1, p2, (p2 + q2) / 2.0, potential + 1.0 / 3.0);
      } else {
        StepSecond(r, q, x, m, p1, q1, potential);
        StepFirst(q, r, x, m, p2, q2, potential);
        RoundsInRange(r, HalvedOut(Minus(q, r, m), x, m), x, m, n, left - 1,
                      p1, (p1 + q1) / 2.0, (p2 + q2 + 1.0) / 2.0, q2, potential + 1.0 / 3.0);
      }
    }
  }

  lemma RoundsLeft(a: nat, b: nat, left: nat)
    requires a % 2 == 1 && b % 2 == 1 && a != b && a + b < 4 * Two(left)
    ensures left >= 1 && Two(left) == 2 * Two(left - 1)
  {
  }

  /** The first halvings. */
  lemma Started(r: Row, x: int, m: int) returns (q: Row)
    requires m >= 2 && r.u > 0 && 0 <= r.b <= 1 && Fits(r, x, m) && (m % 2 == 0 ==> x % 2 == 1)
    ensures q == HalvedOut(r, x, m) && Fits(q, x, m) && 0 < q.u <= r.u && q.u % 2 == 1
    ensures -(m - 1) <= q.b <= 1
  {
    q := HalvedOut(r, x, m);
    if r.u % 2 == 0 {
      Halved(r, x, m, 0, m - 1);
    }
  }

  lemma StartBounded(r: Row, q: Row, m: int)
    requires r.u > 0 && q.u > 0 && r.u % 2 == 1 && q.u % 2 == 1 && r.b >= -(m - 1) && q.b <= 1 && m >= 2
    ensures Bounded(r, q, m, 1.0 - 1.0 / m as real, 1.0 / m as real, 1.0)
  {
    var z := 1.0 / m as real;
    assert z * m as real == 1.0;
    assert (1.0 - z) * m as real == m as real - 1.0;
    SmallStart(z, m as real);
  }

  lemma SmallStart(z: real, m: real)
    requires m >= 2.0 && z * m == 1.0
    ensures 0.0 <= z <= 0.5 && 2.0 * z + (1.0 - z - z) * (1.0 - z - z) <= 1.0
  {
    if z < 0.0 {
      NegativeProduct(z, m);
    }
    if z > 0.5 {
      RealScale(2.0, m, z);
    }
    RealNonNeg(z, 0.5 - z);
    assert (1.0 - z - z) * (1.0 - z - z) == 1.0 - 4.0 * z + 4.0 * (z * z);
    assert z * (0.5 - z) == 0.5 * z - z * z;
  }

  lemma FirstRows(x: nat, m: nat)
    requires m >= 2
    ensures Fits(Row(m, 1, 0), x, m) && Fits(Row(x, 0, 1), x, m)
  {
    DividesBy(m, m - 0 * x, 1);
    DividesBy(m, x - 1 * x, 0);
  }

  /** For operands whose sum is below 2^(6 n + 2), the coefficient is in -(n + 1) m..(n + 1) m. */
  lemma CoefficientRange(x: nat, m: nat, n: nat)
    requires x > 0 && m >= 2 && (x % 2 == 1 || m % 2 == 1) && x + m < 4 * Two(6 * n)
    ensures -((n + 1) * m) <= Coefficient(x, m) < (n + 1) * m
  {
    hide Fits, Bounded, Rounds, HalvedOut, Two;
    var r0, q0 := Row(m, 1, 0), Row(x, 0, 1);
    FirstRows(x, m);
    var r := Started(r0, x, m);
    var q := Started(q0, x, m);
    RoundsHalved(r0, q0, x, m);
    StartBounded(r, q, m);
    StartBounded(q, r, m);
    var p, z := 1.0 - 1.0 / m as real, 1.0 / m as real;
    RoundsInRange(r, q, x, m, n, 6 * n, p, z, p, z, 1.0);
  }
}
