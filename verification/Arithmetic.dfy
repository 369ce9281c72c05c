/**
 Facts about products, quotients and remainders of integers, and about products of real numbers.
 */
module Arithmetic {

  lemma MulAssoc(a: int, b: int, c: int)
    ensures a * (b * c) == (a * b) * c
  {
  }

  lemma MulSub(a: int, b: int, c: int)
    ensures a * b - a * c == a * (b - c)
  {
  }

  lemma MulLe(a: int, b: int, c: int)
    requires a <= b && 0 <= c
    ensures a * c <= b * c
  {
  }

  lemma HalfProduct(a: int, b: int, p: int, q: int)
    requires 0 <= a < p && 0 <= b < q
    ensures 0 <= a * b <= (p - 1) * (q - 1)
  {
    MulLe(a, p - 1, b);
    MulLe(b, q - 1, p - 1);
  }

  lemma MulNonNeg(a: int, b: int)
    requires 0 <= a && 0 <= b
    ensures 0 <= a * b
  {
  }

  lemma ModDiff(v: int, n: int)
    requires n > 0
    ensures (v - v % n) % n == 0 && 0 <= v % n < n
  {
    assert v == n * (v / n) + v % n;
    MultipleMod(v / n, n);
  }

  lemma MultipleMod(q: int, n: int)
    requires n > 0
    ensures (n * q) % n == 0 && (q * n) % n == 0
  {
    var r, d := (n * q) % n, (n * q) / n;
    assert n * q == n * d + r;
    assert n * (q - d) == r;
    if q - d >= 1 {
      MulLe(1, q - d, n);
    } else if q - d <= -1 {
      MulLe(q - d, -1, n);
    }
  }

  lemma SumMultiple(a: int, b: int, n: int)
    requires n > 0 && a % n == 0 && b % n == 0
    ensures (a + b) % n == 0
  {
    assert a == n * (a / n) && b == n * (b / n);
    assert a + b == n * (a / n + b / n);
    MultipleMod(a / n + b / n, n);
  }

  lemma ProductMultiple(a: int, b: int, n: int)
    requires n > 0 && a % n == 0
    ensures (a * b) % n == 0
  {
    assert a == n * (a / n);
    MulAssoc(n, a / n, b);
    MultipleMod((a / n) * b, n);
  }

  lemma AddMultiple(v: int, q: int, n: int)
    requires n > 0
    ensures (v + n * q) % n == v % n
  {
    ModDiff(v, n);
    var a, b := (v + n * q) % n, v % n;
    var c := (v + n * q) / n - v / n - q;
    assert b - a == n * c;
    if c >= 1 {
      MulLe(1, c, n);
    } else if c <= -1 {
      MulLe(c, -1, n);
    }
  }

  lemma MulLess(a: int, b: int, c: int)
    requires a < b && 0 < c
    ensures c * a < c * b
  {
  }

  lemma DivUnique(x: int, n: int, q: int, r: int)
    requires n > 0 && x == n * q + r && 0 <= r < n
    ensures x / n == q && x % n == r
  {
    var q', r' := x / n, x % n;
    assert n * (q' - q) == r - r';
    if q' - q >= 1 {
      MulLe(1, q' - q, n);
    } else if q' - q <= -1 {
      MulLe(q' - q, -1, n);
    }
  }

  lemma DivDiv(x: int, a: nat, b: nat)
    requires a > 0 && b > 0
    ensures a * b > 0 && (x / a) / b == x / (a * b)
  {
    var q := x / a;
    var h, l := q / b, q % b;
    MulLe(1, a, b);
    MulAssoc(a, b, h);
    MulNonNeg(a, l);
    MulLe(l, b - 1, a);
    assert (b - 1) * a == a * b - a;
    assert a * q == a * (b * h) + a * l;
    DivUnique(x, a * b, h, a * l + x % a);
  }

  lemma CancelDiv(x: nat, a: nat, b: nat)
    requires a > 0 && b > 0
    ensures a * b > 0 && (x * a) / (a * b) == x / b
  {
    var q, r := x / b, x % b;
    assert x == b * q + r;
    assert x * a == (a * b) * q + a * r;
    MulLe(r, b - 1, a);
    assert a * b > 0;
    DivUnique(x * a, a * b, q, a * r);
  }

  lemma ExactDiv(e: nat, a: nat, b: nat)
    requires b > 0
    ensures (e * (a * b)) / b == e * a
  {
    MulAssoc(e, a, b);
    DivUnique((e * a) * b, b, e * a, 0);
  }

  lemma ModProduct(a: int, b: int, m: int)
    requires m > 0
    ensures ((a % m) * (b % m)) % m == (a * b) % m
  {
    var qa, ra, qb, rb := a / m, a % m, b / m, b % m;
    assert a * b == ra * rb + m * (qa * b + ra * qb) by {
      assert a * b == (m * qa + ra) * b;
      assert (m * qa + ra) * b == m * (qa * b) + ra * b by { MulAssoc(m, qa, b); }
      assert ra * b == ra * (m * qb + rb) == m * (ra * qb) + ra * rb;
    }
    AddMultiple(ra * rb, qa * b + ra * qb, m);
  }

  lemma QuotientNat(e: nat, d: nat)
    requires d > 0
    ensures e / d >= 0
  {
  }

  lemma ProductNat(e: nat, f: nat)
    ensures e * f >= 0
  {
  }

  lemma FactorMod(x: int, u: int, m: int)
    requires m > 0
    ensures ((x % m) * u) % m == (x * u) % m
  {
    assert x * u == (x % m) * u + m * ((x / m) * u) by {
      MulAssoc(m, x / m, u);
      assert x == m * (x / m) + x % m;
    }
    AddMultiple((x % m) * u, (x / m) * u, m);
  }

  lemma NegateMod(v: int, m: int)
    requires m > 0
    ensures (-v) % m == if v % m > 0 then m - v % m else 0
  {
    var q, r := v / m, v % m;
    assert v == m * q + r;
    if r > 0 {
      assert m * (-q - 1) == -(m * q) - m;
      DivUnique(-v, m, -q - 1, m - r);
    } else {
      assert m * -q == -(m * q);
      DivUnique(-v, m, -q, 0);
    }
  }

  // ----- real numbers -----

  lemma RealScale(a: real, b: real, c: real)
    requires a <= b && c >= 0.0
    ensures a * c <= b * c
  {
  }

  lemma RealLess(a: real, b: real, c: real)
    requires a < b && c > 0.0
    ensures a * c < b * c
  {
  }

  lemma RealNonNeg(a: real, b: real)
    requires a >= 0.0 && b >= 0.0
    ensures a * b >= 0.0
  {
  }

  lemma RealProduct(a: int, b: int)
    ensures (a * b) as real == a as real * b as real
  {
  }
}
