/**
 Greatest common divisors.
 */
module Divisors {
  import opened Arithmetic
  import opened Bits

  ghost predicate Divides(d: int, n: int) {
    if d == 0 then n == 0 else n % d == 0
  }

  ghost predicate Combines(a: int, b: int, h: int, x: int, y: int) {
    h == a * x + b * y
  }

  /** A common divisor of `x` and `y` that is a combination of them, and so a multiple of every other one. */
  ghost predicate IsGcd(h: int, x: int, y: int) {
    h >= 0 && Divides(h, x) && Divides(h, y) && exists a, b :: Combines(a, b, h, x, y)
  }

  lemma DividesBy(d: int, n: int, k: int)
    requires n == k * d
    ensures Divides(d, n)
  {
    if d > 0 {
      MultipleMod(k, d);
    } else if d < 0 {
      MultipleMod(-k, -d);
      NegativeDivisor(n, -d);
    }
  }

  lemma NegativeDivisor(n: int, d: int)
    requires d > 0 && n % d == 0
    ensures n % -d == 0
  {
  }

  lemma Quotient(d: int, n: int) returns (k: int)
    requires Divides(d, n)
    ensures n == k * d
  {
    k := if d == 0 then 0 else n / d;
  }

  /** Every common divisor divides the greatest one. */
  lemma Greatest(h: int, x: int, y: int, d: int)
    requires IsGcd(h, x, y) && Divides(d, x) && Divides(d, y)
    ensures Divides(d, h)
  {
    hide Divides;
    var a, b :| Combines(a, b, h, x, y);
    var k := Quotient(d, x);
    var l := Quotient(d, y);
    assert a * (k * d) + b * (l * d) == (a * k + b * l) * d;
    DividesBy(d, h, a * k + b * l);
  }

  lemma GcdUnique(g: int, h: int, x: int, y: int)
    requires IsGcd(g, x, y) && IsGcd(h, x, y)
    ensures g == h
  {
    Greatest(g, x, y, h);
    Greatest(h, x, y, g);
    hide Divides;
    var k := Quotient(g, h);
    var l := Quotient(h, g);
    Antisymmetric(g, h, k, l);
  }

  lemma Antisymmetric(g: nat, h: nat, k: int, l: int)
    requires h == k * g && g == l * h
    ensures g == h
  {
    if g > 0 && h > 0 {
      if k <= 0 {
        MulLe(k, 0, g);
      } else {
        MulLe(1, k, g);
      }
      if l <= 0 {
        MulLe(l, 0, h);
      } else {
        MulLe(1, l, h);
      }
    }
  }

  lemma GcdSwap(h: int, x: int, y: int)
    requires IsGcd(h, x, y)
    ensures IsGcd(h, y, x)
  {
    var a, b :| Combines(a, b, h, x, y);
    assert Combines(b, a, h, y, x);
  }

  lemma GcdZero(y: nat)
    ensures IsGcd(y, 0, y) && IsGcd(y, y, 0)
  {
    assert Combines(0, 1, y, 0, y);
    DividesBy(y, 0, 0);
    DividesBy(y, y, 1);
    GcdSwap(y, 0, y);
  }

  /** Subtracting one number from the other keeps the greatest common divisor. */
  lemma GcdSubtract(h: int, x: int, y: int)
    requires IsGcd(h, x - y, y)
    ensures IsGcd(h, x, y)
  {
    hide Divides;
    var a, b :| Combines(a, b, h, x - y, y);
    assert a * (x - y) + b * y == a * x + (b - a) * y;
    assert Combines(a, b - a, h, x, y);
    var k := Quotient(h, x - y);
    var l := Quotient(h, y);
    assert x == (k + l) * h;
    DividesBy(h, x, k + l);
  }

  /** So does doubling one number when the other is odd. */
  lemma GcdDouble(h: int, x: int, y: int)
    requires IsGcd(h, x, y) && y % 2 == 1
    ensures IsGcd(h, 2 * x, y)
  {
    hide Divides;
    var a, b :| Combines(a, b, h, x, y);
    var k := Quotient(h, x);
    DividesBy(h, 2 * x, 2 * k);
    if a % 2 == 0 {
      assert a * x == (a / 2) * (2 * x);
      assert Combines(a / 2, b, h, 2 * x, y);
    } else {
      DoubleInts(a, b, x, y);
      assert Combines((a + y) / 2, b - x, h, 2 * x, y);
    }
  }

  lemma DoubleInts(a: int, b: int, x: int, y: int)
    requires a % 2 == 1 && y % 2 == 1
    ensures ((a + y) / 2) * (2 * x) + (b - x) * y == a * x + b * y
  {
    var a' := (a + y) / 2;
    assert 2 * a' == a + y;
    assert a' * (2 * x) == (a + y) * x == a * x + y * x;
    assert (b - x) * y == b * y - x * y;
  }

  lemma {:induction false} GcdShift(h: int, x: int, y: int, n: nat)
    requires IsGcd(h, x, y) && y % 2 == 1
    ensures IsGcd(h, x * Two(n), y)
  {
    hide IsGcd;
    if n == 0 {
      assert x * Two(0) == x;
    } else {
      GcdShift(h, x, y, n - 1);
      GcdDouble(h, x * Two(n - 1), y);
      assert 2 * (x * Two(n - 1)) == x * Two(n);
    }
  }

  /** A common factor is a factor of the greatest common divisor. */
  lemma GcdScale(h: int, x: int, y: int, f: nat)
    requires IsGcd(h, x, y)
    ensures IsGcd(h * f, x * f, y * f)
  {
    hide Divides;
    var a, b :| Combines(a, b, h, x, y);
    assert Combines(a, b, h * f, x * f, y * f) by {
      assert (a * x + b * y) * f == a * (x * f) + b * (y * f);
    }
    var k := Quotient(h, x);
    var l := Quotient(h, y);
    assert k * (h * f) == x * f && l * (h * f) == y * f;
    DividesBy(h * f, x * f, k);
    DividesBy(h * f, y * f, l);
    assert h * f >= 0;
  }

  // ----- one of the numbers is odd -----

  lemma Halves(x: nat, y: nat)
    requires x % 2 == 1 && y % 2 == 1 && x >= y
    ensures (x - y) % 2 == 0 && forall h :: IsGcd(h, (x - y) / 2, y) ==> IsGcd(h, x, y)
  {
    hide IsGcd;
    forall h | IsGcd(h, (x - y) / 2, y)
      ensures IsGcd(h, x, y)
    {
      GcdDouble(h, (x - y) / 2, y);
      GcdSubtract(h, x, y);
    }
  }

  lemma Swapped(x: int, y: int, z: int)
    requires forall h :: IsGcd(h, x, y) ==> IsGcd(h, z, y)
    ensures forall h :: IsGcd(h, y, x) ==> IsGcd(h, y, z)
  {
    hide IsGcd;
    forall h | IsGcd(h, y, x)
      ensures IsGcd(h, y, z)
    {
      GcdSwap(h, y, x);
      GcdSwap(h, z, y);
    }
  }

  lemma Signs(h: int, x: int, y: int)
    requires var p, q := if x < 0 then -x else x, if y < 0 then -y else y; IsGcd(h, p, q) || IsGcd(h, q, p)
    ensures IsGcd(h, x, y)
  {
    hide Divides;
    var p, q := if x < 0 then -x else x, if y < 0 then -y else y;
    if !IsGcd(h, p, q) {
      GcdSwap(h, q, p);
    }
    var a, b :| Combines(a, b, h, p, q);
    assert Combines(if x < 0 then -a else a, if y < 0 then -b else b, h, x, y);
    var k := Quotient(h, p);
    var l := Quotient(h, q);
    DividesBy(h, x, if x < 0 then -k else k);
    DividesBy(h, y, if y < 0 then -l else l);
  }
}
