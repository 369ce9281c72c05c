/**
 Powers modulo m, plain and in Montgomery form: a number x stands for base^n when x u is base^n modulo m, where u is
 the inverse of the factor R, or 1.
 */
module Exponentiation {
  import opened Arithmetic
  import opened Bits
  import opened Digits
  import opened Montgomery

  ghost function Exp(b: int, n: nat): int {
    if n == 0 then 1 else b * Exp(b, n - 1)
  }

  lemma {:induction false} ExpAdd(b: int, n: nat, k: nat)
    ensures Exp(b, n + k) == Exp(b, n) * Exp(b, k)
  {
    if n > 0 {
      ExpAdd(b, n - 1, k);
      MulAssoc(b, Exp(b, n - 1), Exp(b, k));
    }
  }

  lemma ScaledProduct(g: int, h: int, u: int, m: int)
    requires m > 0
    ensures (((g * h * u) % m) * u) % m == (((g * u) % m) * ((h * u) % m)) % m
  {
    ModProduct(g * u, h * u, m);
    FactorMod(g * h * u, u, m);
    assert (g * h * u) * u == (g * u) * (h * u) by {
      MulAssoc(g * u, h, u);
      assert (g * u) * h == g * h * u;
    }
  }

  // ----- the inverse of R -----

  /** The inverse of 2 modulo an odd number, to the power of the number of bits of R. */
  ghost function InverseR(m: int, t: nat): int {
    Exp((m + 1) / 2, 28 * t)
  }

  lemma {:induction false} PowersCancel(m: int, n: nat)
    requires m > 0 && m % 2 == 1
    ensures (Two(n) * Exp((m + 1) / 2, n)) % m == 1 % m
  {
    var h := (m + 1) / 2;
    if n == 0 {
      assert Two(0) * Exp(h, 0) == 1;
    } else {
      PowersCancel(m, n - 1);
      assert Two(n) == 2 * Two(n - 1) && Exp(h, n) == h * Exp(h, n - 1);
      CancelInts(Two(n - 1), Exp(h, n - 1), h, m);
    }
  }

  lemma CancelInts(a: int, b: int, h: int, m: int)
    requires m > 0 && 2 * h == m + 1
    ensures ((2 * a) * (h * b)) % m == (a * b) % m
  {
    assert (2 * a) * (h * b) == (2 * h) * (a * b) by {
      assert (2 * a) * (h * b) == 2 * (a * (h * b));
      assert a * (h * b) == h * (a * b);
    }
    assert (m + 1) * (a * b) == a * b + m * (a * b);
    AddMultiple(a * b, a * b, m);
  }

  lemma InverseOfR(m: int, t: nat)
    requires m > 0 && m % 2 == 1
    ensures (Pow(t) * InverseR(m, t)) % m == 1 % m
  {
    TwoPow(t);
    PowersCancel(m, 28 * t);
  }

  /** What Montgomery reduction returns is determined: it is the argument times the inverse of R. */
  lemma ReductionDetermined(y: int, r: int, u: int, x: int, m: int)
    requires m > 0 && Reduces(y, x, m, r) && (r * u) % m == 1 % m
    ensures y == (x * u) % m
  {
    FactorMod(y * r, u, m);
    FactorMod(x, u, m);
    MulAssoc(y, r, u);
    ModProduct(y, r * u, m);
    ModProduct(y, 1, m);
    DivUnique(y, m, 0, y);
  }

  // ----- what stands for a power -----

  /** The product of two numbers in Montgomery form. */
  lemma ProductStands(r: int, x: int, y: int, m: int, rr: int, u: int, base: int, n: nat, k: nat)
    requires m > 0 && Reduces(r, x * y, m, rr) && (rr * u) % m == 1 % m
    requires (x * u) % m == Exp(base, n) % m && (y * u) % m == Exp(base, k) % m
    ensures (r * u) % m == Exp(base, n + k) % m
  {
    hide Exp;
    ReductionDetermined(r, rr, u, x * y, m);
    ScaledProduct(x, y, u, m);
    ModProduct(Exp(base, n), Exp(base, k), m);
    ExpAdd(base, n, k);
  }

  /** A number in Montgomery form. */
  lemma StartMontgomery(r: int, base: int, rr: int, u: int, m: int)
    requires m > 0 && (rr * u) % m == 1 % m && r == (base * rr) % m
    ensures 0 <= r < m && (r * u) % m == Exp(base, 1) % m
  {
    FactorMod(base * rr, u, m);
    MulAssoc(base, rr, u);
    ModProduct(base, rr * u, m);
    ModProduct(base, 1, m);
    assert Exp(base, 1) == base * Exp(base, 0) == base;
  }

  /** The product of two numbers that stand for themselves. */
  lemma PlainProduct(r: int, x: int, y: int, m: int, base: int, n: nat, k: nat)
    requires m > 0 && r == (x * y) % m && (x * 1) % m == Exp(base, n) % m && (y * 1) % m == Exp(base, k) % m
    ensures 0 <= r < m && (r * 1) % m == Exp(base, n + k) % m
  {
    hide Exp;
    ModProduct(x, y, m);
    ModProduct(Exp(base, n), Exp(base, k), m);
    ExpAdd(base, n, k);
    DivUnique(r, m, 0, r);
  }

  lemma PlainStart(r: int, base: int, m: int)
    requires m > 0 && r == base % m
    ensures 0 <= r < m && (r * 1) % m == Exp(base, 1) % m
  {
    assert Exp(base, 1) == base * Exp(base, 0) == base;
    DivUnique(r, m, 0, r);
  }

  /** With exponent zero, the result 1 is the power modulo m exactly when m is not 1. */
  lemma ZeroExponent(x: int, m: int)
    requires m > 0
    ensures Exp(x, 0) % m == 1 <==> m != 1
  {
    if m > 1 {
      DivUnique(1, m, 0, 1);
    }
  }
}
