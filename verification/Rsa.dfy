/**
 RSA: the public and the private operation on numbers, the private one by the Chinese remainder theorem where the key
 has the primes, and the keys that key generation makes from two primes.
 */
module Rsa {
  import opened Arithmetic
  import opened Digits
  import opened Shifts
  import opened BigIntegers
  import opened Exponentiation
  import opened Primes
  import opened Divisors
  import opened Division
  import opened ModPow
  import BigGcd
  import BigInverse

  // ----- on values -----

  /** The numbers of a key fit together: two different odd primes, exponents that undo each other modulo each of the
      primes less one, and an inverse of the second prime modulo the first. */
  ghost predicate Fit(n: int, e: int, p: int, q: int, dp: int, dq: int, c: int) {
    && Prime(p) && Prime(q) && p != q && p > 2 && q > 2 && n == p * q && e >= 1
    && dp > 0 && dq > 0 && (e * dp) % (p - 1) == 1 && (e * dq) % (q - 1) == 1 && (c * q) % p == 1
  }

  /** Two exponents that undo each other modulo p - 1 undo each other in powers modulo p. */
  lemma PowersUndone(x: int, e: nat, d: nat, p: int, n: int)
    requires Prime(p) && n == p - 1 && (e * d) % n == 1
    ensures Exp(Exp(x, e), d) % p == x % p
  {
    hide Exp;
    ExpTimes(x, e, d);
    SplitExponent(e * d, n);
    FermatTimes(p, x, (e * d) / n);
  }

  lemma RemainderTwice(a: int, p: int, q: int)
    requires p > 0 && q > 0
    ensures p * q > 0 && (a % (p * q)) % p == a % p && (a % (p * q)) % q == a % q
  {
    MulLe(1, p, q);
    var n := p * q;
    var k := a / n;
    assert a == a % n + p * (q * k) by { assert a == n * k + a % n; MulAssoc(p, q, k); }
    assert a == a % n + q * (p * k) by { assert a == n * k + a % n; MulAssoc(q, p, k); }
    AddMultiple(a % n, q * k, p);
    AddMultiple(a % n, p * k, q);
  }

  /** Deciphering modulo one of the primes. */
  lemma UndoneModulo(x: int, y: int, e: nat, d: nat, p: int)
    requires Prime(p) && p > 2 && y % p == Exp(x, e) % p && (e * d) % (p - 1) == 1
    ensures Exp(y, d) % p == x % p
  {
    hide Exp, Prime;
    ExpMod(y, d, p);
    ExpMod(Exp(x, e), d, p);
    PowersUndone(x, e, d, p, p - 1);
  }

  /** What is enciphered and then deciphered is what it was. */
  lemma RoundTripValue(x: int, y: int, z: int, n: int, e: int, p: int, q: int, dp: int, dq: int, c: int)
    requires Fit(n, e, p, q, dp, dq, c) && 0 <= x < n && 0 <= z < n && y == Exp(x, e) % n
    requires z % p == Exp(y, dp) % p && z % q == Exp(y, dq) % q
    ensures z == x
  {
    hide Exp, Prime;
    RemainderTwice(Exp(x, e), p, q);
    UndoneModulo(x, y, e, dp, p);
    UndoneModulo(x, y, e, dq, q);
    Chinese(p, q, x, z);
  }

  /** The number below p q with given remainders. */
  lemma Combined(xp: int, xq: int, c: int, p: int, q: int, h: int, y: int)
    requires p > 0 && 0 <= xq < q && (c * q) % p == 1 && h == ((xp - xq) * c) % p && y == h * q + xq
    ensures 0 <= y < p * q && y % q == xq && y % p == xp % p
  {
    MulNonNeg(h, q);
    MulLe(h, p - 1, q);
    assert (p - 1) * q == p * q - q;
    DivUnique(y, q, h, xq);
    var t := xp - xq;
    FactorMod(t * c, q, p);
    MulAssoc(t, c, q);
    ModProduct(t, c * q, p);
    ModProduct(t, 1, p);
    OneMod(p, c * q);
    assert (h * q) % p == t % p;
    CongruentIff(h * q, t, p);
    CongruentIff(y, xp, p);
  }

  lemma OneMod(p: int, v: int)
    requires p > 0 && v % p == 1
    ensures 1 % p == 1
  {
    DivUnique(1, p, 0, 1);
  }

  /** Both ways of deciphering agree. */
  lemma BothWays(x: int, d: nat, n: int, p: int, q: int, z: int)
    requires Prime(p) && Prime(q) && p != q && p > 2 && q > 2 && n == p * q && 0 <= z < n
    requires d % (p - 1) > 0 && d % (q - 1) > 0
    requires z % p == Exp(x, d % (p - 1)) % p && z % q == Exp(x, d % (q - 1)) % q
    ensures z == Exp(x, d) % n
  {
    hide Exp, Prime;
    ReducedExponent(p, x, d, p - 1);
    ReducedExponent(q, x, d, q - 1);
    RemainderTwice(Exp(x, d), p, q);
    Chinese(p, q, z, Exp(x, d) % n);
  }

  // ----- keys -----

  /** The number of numbers below p q that have no divisor in common with it. */
  ghost function Totient(p: int, q: int): int {
    (p - 1) * (q - 1)
  }

  /** `d` undoes `e` modulo the totient, and the two other exponents are its remainders. */
  ghost predicate PrivateExponents(d: int, dp: int, dq: int, e: int, p: int, q: int) {
    p > 1 && q > 1 && Divides(Totient(p, q), d * e - 1) && dp == d % (p - 1) && dq == d % (q - 1)
  }

  /** A number that a key may hold: without superfluous digits, and not absurdly long. */
  ghost predicate Number(x: BigInteger)
    reads x
  {
    x.Valid() && x.Clamped() && x.t + 4 <= DV
  }

  class RsaKey {
    var n: BigInteger?
    var e: int
    var d: BigInteger?
    var p: BigInteger?
    var q: BigInteger?
    var dmp1: BigInteger?
    var dmq1: BigInteger?
    var coeff: BigInteger?

    constructor ()
      ensures n == d == p == q == dmp1 == dmq1 == coeff == null && e == 0
    {
      n, d, p, q, dmp1, dmq1, coeff, e := null, null, null, null, null, null, null, 0;
    }

    ghost predicate Public()
      reads this, n
    {
      n != null && n.Valid() && n.Clamped() && n.Value() > 0 && 1 <= e <= 0xffff_ffff
    }

    /** The key has a private exponent, and no primes. */
    ghost predicate Plain()
      reads this, n, d
    {
      Public() && Number(n) && d != null && d.Valid() && d.Clamped() && d.Value() > 0 && (p == null || q == null)
    }

    /** The key has the primes and what goes with them. */
    ghost predicate Complete()
      reads this, n, p, q, dmp1, dmq1, coeff
    {
      && Public() && p != null && q != null && dmp1 != null && dmq1 != null && coeff != null
      && Number(p) && Number(q)
      && dmp1.Valid() && dmp1.Clamped() && dmq1.Valid() && dmq1.Clamped() && coeff.Valid() && coeff.Clamped()
      && Fit(n.Value(), e, p.Value(), q.Value(), dmp1.Value(), dmq1.Value(), coeff.Value())
    }

    /** x^e modulo n. */
    method DoPublic(x: BigInteger) returns (r: BigInteger)
      requires Public() && x.Valid() && x.Clamped()
      ensures fresh(r) && r.Valid() && r.Clamped() && r.Value() == Exp(x.Value(), e) % n.Value()
    {
      hide Exp;
      r := ModPowInt(x, e, n);
    }

    /** x^d modulo n; with the primes, the number below n that is right modulo each of them. */
    method DoPrivate(x: BigInteger) returns (r: BigInteger)
      requires x.Valid() && x.Clamped() && (Plain() || Complete())
      ensures fresh(r) && r.Valid() && r.Clamped()
      ensures Plain() ==> r.Value() == Exp(x.Value(), d.Value()) % n.Value()
      ensures Complete() ==> 0 <= r.Value() < n.Value()
      ensures Complete() ==> r.Value() % p.Value() == Exp(x.Value(), dmp1.Value()) % p.Value()
      ensures Complete() ==> r.Value() % q.Value() == Exp(x.Value(), dmq1.Value()) % q.Value()
    {
      hide Exp, Prime, Val, Pow;
      if p == null || q == null {
        r := ModPow.ModPow(x, d, n);
        return;
      }
      var xp := PowerModulo(x, dmp1, p);
      var xq := PowerModulo(x, dmq1, q);
      r := Combine(xp, xq, coeff, p, q);
    }

    /** Deciphering what was enciphered gives the message back, for every message below n. */
    method RoundTrip(x: BigInteger) returns (r: BigInteger)
      requires Complete() && x.Valid() && x.Clamped() && 0 <= x.Value() < n.Value()
      ensures r.Valid() && r.Value() == x.Value()
    {
      hide Exp, Fit, Val, Pow;
      var y := DoPublic(x);
      r := DoPrivate(y);
      RoundTripValue(x.Value(), y.Value(), r.Value(), n.Value(), e, p.Value(), q.Value(),
                     dmp1.Value(), dmq1.Value(), coeff.Value());
    }

    /** The key that generation makes of two odd primes and the exponent, unless the exponent has a divisor in common
        with (p - 1) (q - 1).  The inverses may be out of range, but they are in the right classes, so that the key is
        complete whenever the primes are different and odd.  If they are equal the coefficient is zero, and if one of
        them is 2 an exponent is, and the key is useless. */
    method FromPrimes(p0: BigInteger, q0: BigInteger, e0: int, ee: BigInteger) returns (ok: bool)
      requires Number(p0) && Number(q0) && Prime(p0.Value()) && Prime(q0.Value())
      requires ee.Valid() && ee.Clamped() && 1 <= ee.Value() <= 0xffff_ffff && e0 == ee.Value()
      modifies this
      ensures ok <==> IsGcd(1, Totient(p0.Value(), q0.Value()), e0)
      ensures HasExponents(ok)
      ensures if p0.Value() > q0.Value() then p == p0 && q == q0 else p == q0 && q == p0
      ensures ok && p0.Value() != q0.Value() && p0.Value() > 2 && q0.Value() > 2 ==>
        Complete() && n.Value() == p0.Value() * q0.Value() && e == e0
      ensures ok && p0.Value() == q0.Value() ==> coeff != null && coeff.Valid() && coeff.Value() == 0
      ensures ok && (p0.Value() == 2 || q0.Value() == 2) ==> dmq1 != null && dmq1.Valid() && dmq1.Value() == 0
    {
      assert p0.Value() >= 2 && q0.Value() >= 2;
      hide Exp, Val, Pow, Prime, IsGcd, Fit, Totient;
      SignValue(p0.digits[..p0.t], p0.s);
      SignValue(q0.digits[..q0.t], q0.s);
      var c := p0.CompareTo(q0);
      if c <= 0 {
        Commutes(p0.Value(), q0.Value());
        ok := FromOrdered(q0, p0, e0, ee);
      } else {
        ok := FromOrdered(p0, q0, e0, ee);
      }
    }

    /** The private exponent and its remainders, once there is a key. */
    ghost predicate HasExponents(ok: bool)
      reads this, p, q, d, dmp1, dmq1
    {
      ok ==>
        && p != null && q != null && d != null && dmp1 != null && dmq1 != null
        && p.Valid() && q.Valid() && d.Valid() && dmp1.Valid() && dmq1.Valid()
        && PrivateExponents(d.Value(), dmp1.Value(), dmq1.Value(), e, p.Value(), q.Value())
    }

    method FromOrdered(p0: BigInteger, q0: BigInteger, e0: int, ee: BigInteger) returns (ok: bool)
      requires Number(p0) && Number(q0) && Prime(p0.Value()) && Prime(q0.Value()) && p0.Value() >= q0.Value() >= 2
      requires ee.Valid() && ee.Clamped() && 1 <= ee.Value() <= 0xffff_ffff && e0 == ee.Value()
      modifies this
      ensures ok <==> IsGcd(1, Totient(p0.Value(), q0.Value()), e0)
      ensures HasExponents(ok)
      ensures p == p0 && q == q0
      ensures ok && p0.Value() != q0.Value() && p0.Value() > 2 && q0.Value() > 2 ==>
        Complete() && n.Value() == p0.Value() * q0.Value() && e == e0
      ensures ok && p0.Value() == q0.Value() ==> coeff != null && coeff.Valid() && coeff.Value() == 0
      ensures ok && (p0.Value() == 2 || q0.Value() == 2) ==> dmq1 != null && dmq1.Valid() && dmq1.Value() == 0
    {
      hide Exp, Val, Pow, Signed, Prime, IsGcd, Fit, Totient;
      var p1, q1, phi := Predecessors(p0, q0);
      ok := HaveGcdOne(phi, ee);
      if ok {
        var modulus, d0, dp, dq, c := Parts(p0, q0, p1, q1, phi, ee);
        Fill(modulus, e0, d0, p0, q0, dp, dq, c);
      } else {
        e, p, q := e0, p0, q0;
      }
    }

    method Fill(n0: BigInteger, e0: int, d0: BigInteger, p0: BigInteger, q0: BigInteger,
                dp: BigInteger, dq: BigInteger, c: BigInteger)
      modifies this
      ensures n == n0 && e == e0 && d == d0 && p == p0 && q == q0 && dmp1 == dp && dmq1 == dq && coeff == c
    {
      n, e, d, p, q, dmp1, dmq1, coeff := n0, e0, d0, p0, q0, dp, dq, c;
    }
  }

  /** Everything that a key holds besides the primes. */
  method Parts(p: BigInteger, q: BigInteger, p1: BigInteger, q1: BigInteger, phi: BigInteger, ee: BigInteger)
    returns (n: BigInteger, d: BigInteger, dmp1: BigInteger, dmq1: BigInteger, c: BigInteger)
    requires p.Valid() && p.Clamped() && q.Valid() && q.Clamped() && ee.Valid() && ee.Clamped() && ee.Value() >= 1
    requires Prime(p.Value()) && Prime(q.Value()) && p.Value() >= 2 && q.Value() >= 2
    requires p1.Valid() && p1.Clamped() && q1.Valid() && q1.Clamped() && phi.Valid() && phi.Clamped()
    requires p1.Value() == p.Value() - 1 && q1.Value() == q.Value() - 1
    requires phi.Value() == Totient(p.Value(), q.Value()) && IsGcd(1, phi.Value(), ee.Value())
    ensures n.Valid() && n.Clamped() && n.Value() == p.Value() * q.Value() > 0
    ensures d.Valid() && d.Clamped() && dmp1.Valid() && dmp1.Clamped() && dmq1.Valid() && dmq1.Clamped()
    ensures c.Valid() && c.Clamped() && (p.Value() == q.Value() ==> c.Value() == 0)
    ensures q.Value() == 2 ==> dmq1.Value() == 0
    ensures PrivateExponents(d.Value(), dmp1.Value(), dmq1.Value(), ee.Value(), p.Value(), q.Value())
    ensures p.Value() != q.Value() && p.Value() > 2 && q.Value() > 2 ==>
      Fit(n.Value(), ee.Value(), p.Value(), q.Value(), dmp1.Value(), dmq1.Value(), c.Value())
  {
    hide Exp, Val, Pow, Signed, Prime, IsGcd, Fit, Divides;
    n := p.Multiply(q);
    d, dmp1, dmq1 := Exponents(p1, q1, phi, ee);
    c := Coefficient(q, p);
    MulLe(1, p.Value(), q.Value());
    if p.Value() != q.Value() && p.Value() > 2 && q.Value() > 2 {
      IsFit(n.Value(), ee.Value(), p.Value(), q.Value(), dmp1.Value(), dmq1.Value(), c.Value());
    }
  }

  lemma Commutes(p: int, q: int)
    ensures p * q == q * p && Totient(p, q) == Totient(q, p)
  {
  }

  lemma IsFit(n: int, e: int, p: int, q: int, dp: int, dq: int, c: int)
    requires Prime(p) && Prime(q) && p != q && p > 2 && q > 2 && n == p * q && e >= 1
    requires dp > 0 && dq > 0 && (e * dp) % (p - 1) == 1 && (e * dq) % (q - 1) == 1 && (c * q) % p == 1
    ensures Fit(n, e, p, q, dp, dq, c)
  {
  }

  /** p - 1, q - 1 and their product. */
  method Predecessors(p: BigInteger, q: BigInteger) returns (p1: BigInteger, q1: BigInteger, phi: BigInteger)
    requires p.Valid() && q.Valid()
    ensures fresh(p1) && fresh(q1) && fresh(phi) && p1.Valid() && p1.Clamped() && q1.Valid() && q1.Clamped()
    ensures p1.Value() == p.Value() - 1 && q1.Value() == q.Value() - 1
    ensures phi.Valid() && phi.Clamped() && phi.Value() == Totient(p.Value(), q.Value())
  {
    hide Val, Pow;
    var one := NewValue(1);
    p1 := p.Subtract(one);
    q1 := q.Subtract(one);
    phi := p1.Multiply(q1);
  }

  method HaveGcdOne(x: BigInteger, y: BigInteger) returns (r: bool)
    requires x.Valid() && x.Clamped() && y.Valid() && y.Clamped()
    ensures r <==> IsGcd(1, x.Value(), y.Value())
  {
    hide Val, Pow;
    var g := BigGcd.Gcd(x, y);
    r := BigInverse.IsOne(g);
    if IsGcd(1, x.Value(), y.Value()) {
      GcdUnique(1, g.Value(), x.Value(), y.Value());
    }
  }

  /** `dp` undoes `e` modulo n; there is only zero modulo 1. */
  ghost predicate Undoes(e: int, dp: int, n: int) {
    if n > 1 then dp > 0 && (e * dp) % n == 1 else dp == 0
  }

  /** The private exponent, and its remainders. */
  method Exponents(p1: BigInteger, q1: BigInteger, phi: BigInteger, ee: BigInteger)
    returns (d: BigInteger, dmp1: BigInteger, dmq1: BigInteger)
    requires p1.Valid() && p1.Clamped() && q1.Valid() && q1.Clamped() && phi.Valid() && phi.Clamped()
    requires ee.Valid() && ee.Clamped() && ee.Value() >= 1 && p1.Value() >= 1 && q1.Value() >= 1
    requires phi.Value() == p1.Value() * q1.Value() && IsGcd(1, phi.Value(), ee.Value())
    ensures d.Valid() && d.Clamped() && dmp1.Valid() && dmp1.Clamped() && dmq1.Valid() && dmq1.Clamped()
    ensures Divides(phi.Value(), d.Value() * ee.Value() - 1)
    ensures dmp1.Value() == d.Value() % p1.Value() && dmq1.Value() == d.Value() % q1.Value()
    ensures Undoes(ee.Value(), dmp1.Value(), p1.Value()) && Undoes(ee.Value(), dmq1.Value(), q1.Value())
  {
    hide Val, Pow, Signed, IsGcd, Divides, Undoes, BigInverse.InverseOf, Residue, BigInverse.IsInverse;
    ghost var a, b, f, e := p1.Value(), q1.Value(), phi.Value(), ee.Value();
    MulLe(1, a, b);
    d := BigInverse.ModInverse(ee, phi);
    ghost var v := d.Value();
    InverseDivides(v, e, f);
    dmp1 := Mod(d, p1);
    dmq1 := Mod(d, q1);
    ExponentOf(f, a, b, v, e);
    ExponentOf(f, b, a, v, e);
  }

  lemma InverseDivides(d: int, e: nat, phi: nat)
    requires BigInverse.IsInverse(d, e, phi) && IsGcd(1, phi, e) && phi > 0
    ensures Divides(phi, d * e - 1)
  {
  }

  lemma ExponentOf(phi: int, a: int, b: int, d: int, e: int)
    requires (phi == a * b || phi == b * a) && a >= 1 && b >= 1 && Divides(phi, d * e - 1)
    ensures Undoes(e, d % a, a)
  {
    MulLe(1, a, b);
    if a > 1 {
      var k := (d * e - 1) / phi;
      assert d * e == 1 + a * (b * k) by { MulAssoc(a, b, k); }
      AddMultiple(1, b * k, a);
      DivUnique(1, a, 0, 1);
      FactorMod(d, e, a);
      NotZero(d % a, e, a);
    }
  }

  lemma NotZero(d: int, e: int, a: int)
    requires a > 1 && d >= 0 && (d * e) % a == 1
    ensures d > 0 && (e * d) % a == 1
  {
    assert d * e == e * d;
    if d == 0 {
      DivUnique(0, a, 0, 0);
    }
  }

  /** The inverse of q modulo p; there is none if the primes are equal. */
  method Coefficient(q: BigInteger, p: BigInteger) returns (c: BigInteger)
    requires p.Valid() && p.Clamped() && q.Valid() && q.Clamped() && Prime(p.Value()) && Prime(q.Value())
    ensures fresh(c) && c.Valid() && c.Clamped()
    ensures if p.Value() == q.Value() then c.Value() == 0 else (c.Value() * q.Value()) % p.Value() == 1
  {
    hide Val, Pow, IsGcd, BigInverse.InverseOf;
    c := BigInverse.ModInverse(q, p);
    ghost var v, w := p.Value(), q.Value();
    if v != w {
      CoprimePrimes(v, w);
      OneMore(c.Value() * w, v);
    } else {
      NotCoprime(v);
    }
  }

  lemma CoprimePrimes(p: int, q: int)
    requires Prime(p) && Prime(q) && p != q
    ensures IsGcd(1, p, q)
  {
    var a, b := BezoutPrimes(p, q);
    assert Combines(a, b, 1, p, q);
  }

  lemma NotCoprime(p: int)
    requires p > 1
    ensures !IsGcd(1, p, p)
  {
    if IsGcd(1, p, p) {
      var a, b :| Combines(a, b, 1, p, p);
      assert p * (a + b) == 1;
      MultipleMod(a + b, p);
    }
  }

  lemma OneMore(v: int, p: int)
    requires p > 1 && Divides(p, v - 1)
    ensures v % p == 1
  {
    assert v == p * ((v - 1) / p) + 1;
    DivUnique(v, p, (v - 1) / p, 1);
  }

  /** Without the primes: the same round trip, on values. */
  lemma PlainRoundTrip(x: int, n: int, e: nat, d: nat, p: int, q: int)
    requires Prime(p) && Prime(q) && p != q && p > 2 && q > 2 && n == p * q && 0 <= x < n
    requires (e * d) % (p - 1) == 1 && (e * d) % (q - 1) == 1
    ensures n > 0 && Exp(Exp(x, e) % n, d) % n == x
  {
    hide Exp, Prime;
    RemainderTwice(Exp(x, e), p, q);
    var y := Exp(x, e) % n;
    UndoneModulo(x, y, e, d, p);
    UndoneModulo(x, y, e, d, q);
    RemainderTwice(Exp(y, d), p, q);
    Chinese(p, q, x, Exp(y, d) % n);
  }

  /** The number below p q with remainder xp modulo p and remainder xq modulo q. */
  method Combine(xp0: BigInteger, xq: BigInteger, coeff: BigInteger, p: BigInteger, q: BigInteger)
    returns (r: BigInteger)
    requires xp0.Valid() && xp0.Clamped() && xq.Valid() && xq.Clamped() && coeff.Valid() && coeff.Clamped()
    requires p.Valid() && p.Clamped() && q.Valid() && q.Clamped()
    requires 0 <= xp0.Value() < p.Value() && 0 <= xq.Value() < q.Value() && (coeff.Value() * q.Value()) % p.Value() == 1
    ensures fresh(r) && r.Valid() && r.Clamped() && 0 <= r.Value() < p.Value() * q.Value()
    ensures r.Value() % p.Value() == xp0.Value() && r.Value() % q.Value() == xq.Value()
  {
    hide Val, Pow, Residue;
    var xp := RaiseAbove(xp0, xq, p);
    DivUnique(xp0.Value(), p.Value(), 0, xp0.Value());
    ghost var v, w, c, k := xp.Value(), xq.Value(), coeff.Value(), q.Value();
    var h := HighPart(xp, xq, coeff, p);
    ghost var g := h.Value();
    var high := h.Multiply(q);
    r := high.Add(xq);
    Combined(v, w, c, p.Value(), k, g, r.Value());
  }

  /** (xp - xq) coeff modulo p. */
  method HighPart(xp: BigInteger, xq: BigInteger, coeff: BigInteger, p: BigInteger) returns (h: BigInteger)
    requires xp.Valid() && xq.Valid() && coeff.Valid() && p.Valid() && p.Clamped() && p.Value() > 0
    ensures fresh(h) && h.Valid() && h.Clamped() && h.Value() == ((xp.Value() - xq.Value()) * coeff.Value()) % p.Value()
  {
    hide Val, Pow, Residue;
    var diff := xp.Subtract(xq);
    var product := diff.Multiply(coeff);
    h := Mod(product, p);
  }

  /** (x mod p)^d modulo p. */
  method PowerModulo(x: BigInteger, d: BigInteger, p: BigInteger) returns (r: BigInteger)
    requires x.Valid() && x.Clamped() && d.Valid() && d.Clamped() && d.Value() > 0 && Number(p) && p.Value() > 0
    ensures fresh(r) && r.Valid() && r.Clamped() && 0 <= r.Value() < p.Value()
    ensures r.Value() == Exp(x.Value(), d.Value()) % p.Value()
  {
    hide Exp, Val, Pow;
    var y := Mod(x, p);
    ExpMod(x.Value(), d.Value(), p.Value());
    r := ModPow.ModPow(y, d, p);
  }

  /** Adds p to x until it is not below y. */
  method RaiseAbove(x: BigInteger, y: BigInteger, p: BigInteger) returns (r: BigInteger)
    requires x.Valid() && x.Clamped() && y.Valid() && y.Clamped() && p.Valid() && p.Clamped()
    requires x.Value() >= 0 && y.Value() >= 0 && p.Value() > 0
    ensures r.Valid() && r.Clamped() && r.Value() >= y.Value() && r.Value() % p.Value() == x.Value() % p.Value()
  {
    hide Val, Pow;
    SignValue(x.digits[..x.t], x.s);
    SignValue(y.digits[..y.t], y.s);
    r := x;
    var c := r.CompareTo(y);
    while c < 0
      invariant r.Valid() && r.Clamped() && r.Value() >= 0 && (c < 0 <==> r.Value() < y.Value())
      invariant r.Value() % p.Value() == x.Value() % p.Value()
      decreases y.Value() - r.Value()
    {
      AddMultiple(r.Value(), 1, p.Value());
      r := r.Add(p);
      SignValue(r.digits[..r.t], r.s);
      c := r.CompareTo(y);
    }
  }
}
