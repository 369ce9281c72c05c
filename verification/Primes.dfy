/**
 Powers modulo primes: Fermat's little theorem by way of the binomial theorem, and what it means for two primes.
 */
module Primes {
  import opened Arithmetic
  import opened Exponentiation

  ghost predicate Prime(p: int) {
    p >= 2 && forall k :: 2 <= k < p ==> p % k != 0
  }

  /** `n` is a multiple of `p`. */
  ghost predicate Multiple(n: int, p: int) {
    p > 0 && n % p == 0
  }

  lemma MultipleOf(k: int, p: int)
    requires p > 0
    ensures Multiple(p * k, p) && Multiple(k * p, p)
  {
    MultipleMod(k, p);
  }

  lemma MultipleSum(a: int, b: int, p: int)
    requires Multiple(a, p) && Multiple(b, p)
    ensures Multiple(a + b, p) && Multiple(a - b, p)
  {
    SumMultiple(a, b, p);
    ProductMultiple(b, -1, p);
    SumMultiple(a, b * -1, p);
  }

  lemma MultipleTimes(a: int, b: int, p: int)
    requires Multiple(a, p)
    ensures Multiple(a * b, p) && Multiple(b * a, p)
  {
    ProductMultiple(a, b, p);
  }

  /** Congruence is a multiple as difference. */
  lemma CongruentIff(a: int, b: int, p: int)
    requires p > 0
    ensures a % p == b % p <==> Multiple(a - b, p)
  {
    if a % p == b % p {
      assert a - b == p * (a / p - b / p);
      MultipleOf(a / p - b / p, p);
    } else if Multiple(a - b, p) {
      var k := (a - b) / p;
      assert a == b + p * k;
      AddMultiple(b, k, p);
    }
  }

  /** A prime that divides a product divides a factor. */
  lemma {:induction false} EuclidsLemma(p: int, k: int, c: int)
    requires Prime(p) && 0 < k < p && Multiple(k * c, p)
    ensures Multiple(c, p)
    decreases k
  {
    if k > 1 {
      var q, r := p / k, p % k;
      assert p == k * q + r && r != 0;
      assert r * c == p * c - q * (k * c);
      MultipleOf(c, p);
      MultipleTimes(k * c, q, p);
      MultipleSum(p * c, q * (k * c), p);
      EuclidsLemma(p, r, c);
    }
  }

  /** A number below a prime has a combination with it that is one. */
  lemma {:induction false} Bezout(p: int, k: int) returns (a: int, b: int)
    requires Prime(p) && 0 < k < p
    ensures a * p + b * k == 1
    decreases k
  {
    if k == 1 {
      a, b := 0, 1;
    } else {
      var q, r := p / k, p % k;
      assert p == k * q + r && r != 0;
      var c, d := Bezout(p, r);
      a, b := c + d, -(d * q);
      assert (c + d) * p - (d * q) * k == c * p + d * (p - k * q);
    }
  }

  /** And so have two different primes. */
  lemma BezoutPrimes(p: int, q: int) returns (a: int, b: int)
    requires Prime(p) && Prime(q) && p != q
    ensures a * p + b * q == 1
  {
    var r, k := p % q, p / q;
    NotDivided(p, q);
    var c, d := Bezout(q, r);
    a, b := d, c - d * k;
    assert c * q + d * (p - q * k) == d * p + (c - d * k) * q;
  }

  lemma NotDivided(p: int, q: int)
    requires Prime(p) && Prime(q) && p != q
    ensures 0 < p % q < q
  {
    if p < q {
      DivUnique(p, q, 0, p);
    }
  }

  // ----- the binomial theorem -----

  ghost function Choose(n: nat, k: nat): nat {
    if k == 0 then 1 else if n == 0 then 0 else Choose(n - 1, k - 1) + Choose(n - 1, k)
  }

  lemma {:induction false} ChooseNone(n: nat, k: nat)
    requires k > n
    ensures Choose(n, k) == 0
  {
    if n > 0 {
      ChooseNone(n - 1, k - 1);
      ChooseNone(n - 1, k);
    }
  }

  lemma {:induction false} ChooseAll(n: nat)
    ensures Choose(n, n) == 1
  {
    if n > 0 {
      ChooseAll(n - 1);
      ChooseNone(n - 1, n);
    }
  }

  lemma {:induction false} Absorption(n: nat, k: nat)
    requires n >= 1 && k >= 1
    ensures k * Choose(n, k) == n * Choose(n - 1, k - 1)
    decreases n
  {
    if n == 1 {
      if k > 1 {
        ChooseNone(1, k);
        ChooseNone(0, k - 1);
      } else {
        ChooseAll(1);
      }
    } else {
      Absorption(n - 1, k);
      if k > 1 {
        Absorption(n - 1, k - 1);
      }
      AbsorptionInts(n, k, Choose(n - 1, k - 1), Choose(n - 1, k), Choose(n - 2, k - 1),
                     if k > 1 then Choose(n - 2, k - 2) else 0);
    }
  }

  lemma AbsorptionInts(n: nat, k: nat, a: nat, b: nat, c: nat, d: nat)
    requires k >= 1 && k * b == (n - 1) * c && (k - 1) * a == (n - 1) * d && a == c + d
    ensures k * (a + b) == n * a
  {
    assert k * (a + b) == k * a + k * b && (n - 1) * (c + d) == (n - 1) * c + (n - 1) * d;
    assert k * a == (k - 1) * a + a && n * a == (n - 1) * a + a;
  }

  /** The terms up to the m-th of the expansion of (a + 1)^n. */
  ghost function Terms(n: nat, a: int, m: nat): int {
    Choose(n, m) * Exp(a, m) + if m == 0 then 0 else Terms(n, a, m - 1)
  }

  lemma {:induction false} TermsStep(n: nat, a: int, m: nat)
    requires n >= 1 && m >= 1
    ensures Terms(n, a, m) == Terms(n - 1, a, m) + a * Terms(n - 1, a, m - 1)
    decreases m
  {
    assert Exp(a, m) == a * Exp(a, m - 1);
    var c, d, x := Choose(n - 1, m - 1), Choose(n - 1, m), Exp(a, m - 1);
    assert Choose(n, m) == c + d;
    if m == 1 {
      assert Terms(n, a, 0) == Terms(n - 1, a, 0) == 1;
      TermsInts(c, d, a, x, 1, 1, 0);
    } else {
      TermsStep(n, a, m - 1);
      TermsInts(c, d, a, x, Terms(n, a, m - 1), Terms(n - 1, a, m - 1), Terms(n - 1, a, m - 2));
    }
  }

  lemma TermsInts(c: int, d: int, a: int, x: int, s: int, t: int, r: int)
    requires s == t + a * r
    ensures (c + d) * (a * x) + s == (d * (a * x) + t) + a * (c * x + r)
  {
    assert a * (c * x + r) == c * (a * x) + a * r;
  }

  lemma {:induction false} Binomial(n: nat, a: int)
    ensures Exp(a + 1, n) == Terms(n, a, n)
  {
    if n == 0 {
      assert Terms(0, a, 0) == Choose(0, 0) * Exp(a, 0);
    } else {
      Binomial(n - 1, a);
      TermsStep(n, a, n);
      ChooseNone(n - 1, n);
      assert Terms(n - 1, a, n) == 0 * Exp(a, n) + Terms(n - 1, a, n - 1);
    }
  }

  // ----- Fermat's little theorem -----

  /** All terms but the first and the last are multiples of the prime. */
  lemma {:induction false} MiddleTerms(p: int, a: int, m: nat)
    requires Prime(p) && m < p
    ensures Multiple(Terms(p, a, m) - 1, p)
  {
    if m == 0 {
      assert Terms(p, a, 0) == 1;
      MultipleOf(0, p);
    } else {
      MiddleTerms(p, a, m - 1);
      Absorption(p, m);
      MultipleOf(Choose(p - 1, m - 1), p);
      EuclidsLemma(p, m, Choose(p, m));
      MultipleTimes(Choose(p, m), Exp(a, m), p);
      MultipleSum(Choose(p, m) * Exp(a, m), Terms(p, a, m - 1) - 1, p);
    }
  }

  lemma {:induction false} FermatNat(p: int, a: nat)
    requires Prime(p)
    ensures Multiple(Exp(a, p) - a, p)
  {
    hide Exp, Multiple, Prime;
    if a == 0 {
      FermatZero(p);
    } else {
      FermatNat(p, a - 1);
      FermatNext(p, a - 1);
    }
  }

  lemma FermatZero(p: int)
    requires Prime(p)
    ensures Multiple(Exp(0, p) - 0, p)
  {
    hide Exp;
    ZeroPower(p);
    MultipleOf(0, p);
  }

  lemma FermatNext(p: int, a: int)
    requires Prime(p) && Multiple(Exp(a, p) - a, p)
    ensures Multiple(Exp(a + 1, p) - (a + 1), p)
  {
    hide Exp, Terms, Multiple;
    FirstAndLast(p, a);
    MiddleTerms(p, a, p - 1);
    MultipleSum(Exp(a, p) - a, Terms(p, a, p - 1) - 1, p);
    SumOfDifferences(Exp(a + 1, p), Exp(a, p), Terms(p, a, p - 1), a + 1);
  }

  lemma ZeroPower(n: nat)
    requires n >= 1
    ensures Exp(0, n) == 0
  {
    assert Exp(0, n) == 0 * Exp(0, n - 1);
  }

  /** (a + 1)^n is a^n and the terms below it. */
  lemma FirstAndLast(n: nat, a: int)
    requires n >= 1
    ensures Exp(a + 1, n) == Exp(a, n) + Terms(n, a, n - 1)
  {
    hide Exp, Choose;
    Binomial(n, a);
    ChooseAll(n);
    assert Terms(n, a, n) == Choose(n, n) * Exp(a, n) + Terms(n, a, n - 1);
  }

  lemma SumOfDifferences(e: int, f: int, t: int, a: int)
    requires e == f + t
    ensures e - a == (f - (a - 1)) + (t - 1)
  {
  }

  lemma {:induction false} ExpMod(x: int, n: nat, m: int)
    requires m > 0
    ensures Exp(x % m, n) % m == Exp(x, n) % m
  {
    if n > 0 {
      ExpMod(x, n - 1, m);
      ModProduct(x, Exp(x, n - 1), m);
      ModProduct(x % m, Exp(x % m, n - 1), m);
      DivUnique(x % m, m, 0, x % m);
    }
  }

  /** x^p = x modulo the prime p. */
  lemma Fermat(p: int, x: int)
    requires Prime(p)
    ensures Exp(x, p) % p == x % p
  {
    FermatNat(p, x % p);
    CongruentIff(Exp(x % p, p), x % p, p);
    ExpMod(x, p, p);
    DivUnique(x % p, p, 0, x % p);
  }

  /** So exponents that are one more than a multiple of p - 1 change nothing. */
  lemma {:induction false} FermatTimes(p: int, x: int, k: nat)
    requires Prime(p)
    ensures k * (p - 1) >= 0 && Exp(x, 1 + k * (p - 1)) % p == x % p
    decreases k
  {
    MulNonNeg(k, p - 1);
    if k == 0 {
      assert Exp(x, 1) == x * Exp(x, 0) == x;
    } else {
      FermatTimes(p, x, k - 1);
      MulNonNeg(k - 1, p - 1);
      var n := 1 + (k - 1) * (p - 1);
      assert 1 + k * (p - 1) == n + (p - 1);
      ExpAdd(x, n, p - 1);
      ModProduct(Exp(x, n), Exp(x, p - 1), p);
      ModProduct(x, Exp(x, p - 1), p);
      assert Exp(x, p) == x * Exp(x, p - 1);
      Fermat(p, x);
    }
  }

  lemma {:induction false} ExpTimes(x: int, n: nat, k: nat)
    ensures n * k >= 0 && Exp(Exp(x, n), k) == Exp(x, n * k)
    decreases k
  {
    MulNonNeg(n, k);
    if k > 0 {
      ExpTimes(x, n, k - 1);
      MulNonNeg(n, k - 1);
      assert n * k == n + n * (k - 1);
      ExpAdd(x, n, n * (k - 1));
    }
  }

  lemma ExponentWithout(p: int, x: int, k: nat, r: nat)
    requires Prime(p) && r >= 1
    ensures k * (p - 1) >= 0 && Exp(x, k * (p - 1) + r) % p == Exp(x, r) % p
  {
    hide Exp;
    FermatTimes(p, x, k);
    SameFactor(p, x, r - 1, 1 + k * (p - 1));
  }

  /** An exponent may be reduced modulo p - 1, if that does not make it zero. */
  lemma ReducedExponent(p: int, x: int, d: nat, n: int)
    requires Prime(p) && n == p - 1 && d % n > 0
    ensures Exp(x, d) % p == Exp(x, d % n) % p
  {
    hide Exp;
    SplitExponent(d, n);
    ExponentWithout(p, x, d / n, d % n);
  }

  lemma SplitExponent(d: nat, n: int)
    requires n > 0
    ensures d / n >= 0 && (d / n) * n >= 0 && d == (d / n) * n + d % n
  {
    MulNonNeg(d / n, n);
  }

  lemma SameFactor(p: int, x: int, n: nat, k: nat)
    requires p > 0 && Exp(x, k) % p == x % p
    ensures Exp(x, n + k) % p == Exp(x, n + 1) % p
  {
    assert Exp(x, 1) == x * Exp(x, 0) == x;
    hide Exp;
    ExpAdd(x, n, k);
    ExpAdd(x, n, 1);
    ModProduct(Exp(x, n), Exp(x, k), p);
    ModProduct(Exp(x, n), x, p);
  }

  // ----- two primes -----

  /** A number below the product of two primes is determined by its remainders. */
  lemma Chinese(p: int, q: int, x: int, y: int)
    requires Prime(p) && Prime(q) && p != q && 0 <= x < p * q && 0 <= y < p * q
    requires x % p == y % p && x % q == y % q
    ensures x == y
  {
    CongruentIff(x, y, p);
    CongruentIff(x, y, q);
    var t := x - y;
    var s := t / p;
    assert t == p * s;
    Coprime(p, q, s);
    var k := s / q;
    assert t == (p * q) * k by { assert s == q * k; MulAssoc(p, q, k); }
    SmallMultiple(t, p * q, k);
  }

  lemma Coprime(p: int, q: int, s: int)
    requires Prime(p) && Prime(q) && p != q && Multiple(p * s, q)
    ensures Multiple(s, q)
  {
    var r, k := p % q, p / q;
    NotDivided(p, q);
    assert r * s == p * s - q * (k * s) by {
      assert p == q * k + r;
      MulAssoc(q, k, s);
    }
    MultipleOf(k * s, q);
    MultipleSum(p * s, q * (k * s), q);
    EuclidsLemma(q, r, s);
  }

  lemma SmallMultiple(t: int, n: int, k: int)
    requires t == n * k && -n < t < n
    ensures t == 0
  {
    if k >= 1 {
      MulLe(1, k, n);
    } else if k <= -1 {
      MulLe(k, -1, n);
    }
  }
}
