/**
 Powers of two, and the number of bits of a digit.
 */
module Bits {
  import opened Arithmetic
  import opened Digits

  function Two(n: nat): (p: nat)
    ensures p >= 1
  {
    if n == 0 then 1 else 2 * Two(n - 1)
  }

  lemma {:induction false} TwoAdd(m: nat, n: nat)
    ensures Two(m + n) == Two(m) * Two(n)
  {
    if m > 0 {
      TwoAdd(m - 1, n);
      MulAssoc(2, Two(m - 1), Two(n));
    }
  }

  lemma {:induction false} TwoPow(n: nat)
    ensures Two(28) == DV && Two(28 * n) == Pow(n)
  {
    Two28();
    if n > 0 {
      TwoPow(n - 1);
      TwoAdd(28, 28 * (n - 1));
    }
  }

  lemma Two28()
    ensures Two(28) == DV && Two(4) == 16 && Two(8) == 256
  {
    assert Two(4) == 16;
    TwoAdd(4, 4);
    TwoAdd(8, 8);
    TwoAdd(16, 8);
    TwoAdd(24, 4);
  }

  lemma SmallTwos()
    ensures Two(0) == 1 && Two(1) == 2 && Two(2) == 4 && Two(4) == 16 && Two(8) == 0x100 && Two(16) == 0x1_0000
  {
    Two28();
    TwoAdd(8, 8);
    assert Two(0) == 1;
    assert Two(1) == 2 * Two(0);
    assert Two(2) == 2 * Two(1);
  }

  lemma TwoEven(n: nat)
    requires n >= 1
    ensures Two(n) % 2 == 0
  {
  }

  lemma TwoDoubles(n: nat)
    ensures Two(n + 1) == 2 * Two(n)
  {
  }

  lemma TwoMono(a: nat, b: nat)
    requires a <= b
    ensures Two(a) <= Two(b)
  {
    TwoAdd(a, b - a);
    MulLe(1, Two(b - a), Two(a));
  }

  lemma TimesOne(v: int)
    ensures v * Two(0) == v
  {
  }

  lemma OverOne(v: int)
    ensures v / Two(0) == v
  {
  }

  lemma TwoSmall()
    ensures Two(1) == 2
  {
  }

  // ----- the length of a digit -----

  /** The number of bits of a 32-bit word; 1 for zero. */
  method NBits(x0: nat) returns (r: nat)
    requires x0 < 0x1_0000_0000
    ensures 1 <= r <= 32 && x0 < Two(r) && (x0 > 0 ==> Two(r - 1) <= x0)
  {
    hide Two;
    var x := x0;
    r := 1;
    SmallTwos();
    if x / 0x1_0000 != 0 {
      x, r := Halve(x, r, x0, 16, 0x1_0000);
    }
    if x / 0x100 != 0 {
      x, r := Halve(x, r, x0, 8, 0x100);
    }
    if x / 16 != 0 {
      x, r := Halve(x, r, x0, 4, 16);
    }
    if x / 4 != 0 {
      x, r := Halve(x, r, x0, 2, 4);
    }
    if x / 2 != 0 {
      x, r := Halve(x, r, x0, 1, 2);
    }
    BitBound(x0, r);
  }

  /** x = x >> k. */
  method Halve(x: nat, r: nat, ghost x0: nat, k: nat, power: nat) returns (x': nat, r': nat)
    requires r >= 1 && x == x0 / Two(r - 1) && power == Two(k) && x / power != 0
    ensures x' == x / power && r' == r + k && x' == x0 / Two(r' - 1) && x' > 0
  {
    hide Two;
    DivDiv(x0, Two(r - 1), Two(k));
    TwoAdd(r - 1, k);
    x', r' := x / power, r + k;
  }

  lemma BitBound(x: nat, r: nat)
    requires r >= 1 && x / Two(r - 1) <= 1 && (x > 0 ==> x / Two(r - 1) == 1 || r == 1)
    ensures x < Two(r) && (x > 0 ==> Two(r - 1) <= x)
  {
    var p := Two(r - 1);
    assert x == p * (x / p) + x % p;
  }

  lemma TopDigitBits(d: nat, r: nat)
    requires 0 < d < DV && 1 <= r && Two(r - 1) <= d
    ensures r <= 28
  {
    if r > 28 {
      TwoMono(28, r - 1);
      Two28();
    }
  }
}
