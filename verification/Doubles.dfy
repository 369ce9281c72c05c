/**
 Double-precision numbers: the rounding of a number that is not negative and below 2^53, to the nearest double, to the
 even one of two.
 */
module Doubles {
  const E52 := 4503599627370496.0
  const E53 := 9007199254740992.0

  /** The nearest integer, the even one of two. */
  function Nearest(x: real): (r: real)
    ensures x - 0.5 <= r <= x + 0.5
  {
    var k := x.Floor;
    var f := x - k as real;
    if f < 0.5 || (f == 0.5 && k % 2 == 0) then k as real else k as real + 1.0
  }

  /** From 2^52 on, doubles are integers; below, they are the halves of doubles, down to 2^-`bits`. */
  function Rounded(x: real, bits: nat): (r: real)
    requires 0.0 <= x < E53
    decreases bits
  {
    if x >= E52 || bits == 0 then Nearest(x) else Rounded(2.0 * x, bits - 1) / 2.0
  }

  /** The smallest double above zero is 2^-1074. */
  function Double(x: real): (r: real)
    requires 0.0 <= x < E53
  {
    Rounded(x, 1074)
  }

  /** 2^-n. */
  ghost function Half(n: nat): (h: real)
    ensures 0.0 < h <= 1.0
  {
    if n == 0 then 1.0 else Half(n - 1) / 2.0
  }

  lemma {:induction false} HalfAdd(m: nat, n: nat)
    ensures Half(m + n) == Half(m) * Half(n)
  {
    if m > 0 {
      HalfAdd(m - 1, n);
      assert Half(m) * Half(n) == (Half(m - 1) * Half(n)) / 2.0;
    }
  }

  /** A number of at most 2^(53 - n) is off by at most half a unit, 2^-n. */
  lemma {:induction false} RoundedError(x: real, bits: nat, n: nat)
    requires 0.0 <= x < E53 && x <= E53 * Half(n) && n <= bits
    ensures x - Half(n) / 2.0 <= Rounded(x, bits) <= x + Half(n) / 2.0
    decreases bits
  {
    if x >= E52 {
      if n > 0 {
        ExactPower(x, n);
      }
    } else if bits > 0 {
      if n > 0 {
        assert Half(n) == Half(n - 1) / 2.0;
        assert E53 * Half(n) == (E53 * Half(n - 1)) / 2.0;
      }
      RoundedError(2.0 * x, bits - 1, if n > 0 then n - 1 else 0);
    }
  }

  lemma ExactPower(x: real, n: nat)
    requires E52 <= x <= E53 * Half(n) && n > 0
    ensures x == E52 && Nearest(x) == x
  {
    assert Half(n) <= 0.5;
    assert E53 * Half(n) <= E53 * 0.5;
  }

  /** Rounding does not go below an integer. */
  lemma {:induction false} RoundedAtLeast(x: real, bits: nat, k: int)
    requires 0.0 <= x < E53 && k as real <= x
    ensures k as real <= Rounded(x, bits)
    decreases bits
  {
    hide Nearest;
    if x < E52 && bits > 0 {
      RoundedAtLeast(2.0 * x, bits - 1, k + k);
      assert (k + k) as real == k as real + k as real;
    } else {
      NearestAtLeast(x, k);
    }
  }

  lemma NearestAtLeast(x: real, k: int)
    requires k as real <= x
    ensures k as real <= Nearest(x)
  {
    assert k <= x.Floor;
  }

  // ----- the nearest double -----

  ghost function Distance(x: real, y: real): real {
    if x < y then y - x else x - y
  }

  /** `d` is `k` times 2^-n. */
  ghost predicate IsTimes(d: real, k: nat, n: nat) {
    d == k as real * Half(n)
  }

  /** A significand of at most 53 bits, and the next power of two. */
  ghost predicate IsDouble(d: real, bits: nat) {
    exists k: nat, n: nat :: n <= bits && k <= 0x20_0000_0000_0000 && IsTimes(d, k, n)
  }

  /** `r` is an even multiple of its distance from `d`. */
  ghost predicate EvenOne(r: real, d: real, bits: nat) {
    exists k: nat, n: nat :: n <= bits && k % 2 == 0 && IsTimes(r, k, n) && Distance(r, d) == Half(n)
  }

  /** `r` is at least as near to `x` as `d` is, and the even one if both are. */
  ghost predicate Preferred(x: real, r: real, d: real, bits: nat) {
    && Distance(x, r) <= Distance(x, d)
    && (Distance(x, r) == Distance(x, d) && r != d ==> EvenOne(r, d, bits))
  }

  lemma {:induction false} RoundedIsDouble(x: real, bits: nat)
    requires 0.0 <= x < E53
    ensures IsDouble(Rounded(x, bits), bits)
    decreases bits
  {
    hide Half, Nearest;
    if x >= E52 || bits == 0 {
      var k := NearestIs(x);
      assert k <= 0x20_0000_0000_0000;
      WholeNumber(k);
      assert IsTimes(Nearest(x), k, 0);
    } else {
      RoundedIsDouble(2.0 * x, bits - 1);
      var k: nat, n: nat :|
        n <= bits - 1 && k <= 0x20_0000_0000_0000 && IsTimes(Rounded(2.0 * x, bits - 1), k, n);
      HalfOf(Rounded(2.0 * x, bits - 1), k, n);
    }
  }

  lemma WholeNumber(k: int)
    ensures k as real * Half(0) == k as real
  {
  }

  lemma HalfOf(d: real, k: nat, n: nat)
    requires IsTimes(d, k, n)
    ensures IsTimes(d / 2.0, k, n + 1)
  {
    assert Half(n + 1) == Half(n) / 2.0;
  }

  lemma TwiceOf(d: real, k: nat, n: nat)
    requires IsTimes(d, k, n)
    ensures n > 0 ==> IsTimes(2.0 * d, k, n - 1)
    ensures n == 0 ==> IsTimes(2.0 * d, 2 * k, 0)
  {
    if n > 0 {
      assert Half(n) == Half(n - 1) / 2.0;
    }
  }

  lemma NearestIs(x: real) returns (r: nat)
    requires x >= 0.0
    ensures Nearest(x) == r as real && Distance(x, r as real) <= 0.5
    ensures Distance(x, r as real) == 0.5 ==> r % 2 == 0
  {
    r := if Nearest(x) == x.Floor as real then x.Floor else x.Floor + 1;
  }

  lemma Apart(x: real, r: nat, k: nat)
    requires Distance(x, r as real) <= 0.5
    ensures Distance(x, r as real) <= Distance(x, k as real)
    ensures Distance(x, r as real) == Distance(x, k as real) && k != r ==>
      Distance(x, r as real) == 0.5 && Distance(r as real, k as real) == 1.0
  {
    if k > r {
      assert k as real >= (r + 1) as real;
    } else if k < r {
      assert (k + 1) as real <= r as real;
    }
  }

  lemma NearestInteger(x: real, k: nat, bits: nat)
    requires x >= 0.0
    ensures Preferred(x, Nearest(x), k as real, bits)
  {
    hide Nearest, Distance;
    var r := NearestIs(x);
    Apart(x, r, k);
    WholeNumber(r);
    assert Half(0) == 1.0;
    if Distance(x, r as real) == 0.5 {
      assert IsTimes(r as real, r, 0);
    }
  }

  /** No double is nearer than the one that a number is rounded to, and if another one is just as near, it is the
      even one of the two. */
  lemma {:induction false} RoundedNearest(x: real, bits: nat, d: real)
    requires 0.0 <= x < E53 && IsDouble(d, bits)
    ensures Preferred(x, Rounded(x, bits), d, bits)
    decreases bits
  {
    hide Half, Preferred, Nearest;
    var k: nat, n: nat :| n <= bits && k <= 0x20_0000_0000_0000 && IsTimes(d, k, n);
    if x >= E52 || bits == 0 {
      NearestWhole(x, bits, d, k, n);
    } else {
      LargeOrTwice(d, k, n, bits);
      if d <= E52 {
        RoundedNearest(2.0 * x, bits - 1, 2.0 * d);
        PreferredHalf(x, Rounded(2.0 * x, bits - 1), d, bits);
      } else {
        TopIsDouble(bits - 1);
        RoundedNearest(2.0 * x, bits - 1, E53);
        PreferredHalf(x, Rounded(2.0 * x, bits - 1), E52, bits);
        NearerStill(x, Rounded(x, bits), d, bits);
      }
    }
  }

  lemma TopIsDouble(bits: nat)
    ensures IsDouble(E53, bits)
  {
    assert IsTimes(E53, 0x20_0000_0000_0000, 0);
  }

  lemma NearerStill(x: real, r: real, d: real, bits: nat)
    requires x < E52 < d && Preferred(x, r, E52, bits)
    ensures Preferred(x, r, d, bits)
  {
  }

  lemma NearestWhole(x: real, bits: nat, d: real, k: nat, n: nat)
    requires 0.0 <= x && n <= bits && k <= 0x20_0000_0000_0000 && IsTimes(d, k, n) && (x >= E52 || bits == 0)
    ensures Preferred(x, Nearest(x), d, bits)
  {
    hide Half, Preferred, Nearest;
    if n == 0 {
      WholeNumber(k);
      NearestInteger(x, k, bits);
    } else {
      AtMostHalf(k, n);
      NearestInteger(x, 0x10_0000_0000_0000, bits);
      if d != E52 {
        Lower(x, Nearest(x), d, bits);
      }
    }
  }

  lemma AtMostHalf(k: nat, n: nat)
    requires k <= 0x20_0000_0000_0000 && n > 0
    ensures k as real * Half(n) <= E52
  {
    assert Half(n) <= 0.5;
    assert k as real * Half(n) <= k as real * 0.5;
  }

  lemma Lower(x: real, r: real, d: real, bits: nat)
    requires d < E52 <= x && Preferred(x, r, E52, bits)
    ensures Preferred(x, r, d, bits)
  {
  }

  lemma LargeOrTwice(d: real, k: nat, n: nat, bits: nat)
    requires n <= bits && bits > 0 && k <= 0x20_0000_0000_0000 && IsTimes(d, k, n)
    ensures d <= E52 ==> IsDouble(2.0 * d, bits - 1)
  {
    hide Half;
    TwiceOf(d, k, n);
    if n == 0 {
      WholeNumber(k);
      if d <= E52 {
        assert IsTimes(2.0 * d, 2 * k, 0);
      }
    }
  }

  lemma PreferredHalf(x: real, r: real, d: real, bits: nat)
    requires bits > 0 && Preferred(2.0 * x, r, 2.0 * d, bits - 1)
    ensures Preferred(x, r / 2.0, d, bits)
  {
    if Distance(x, r / 2.0) == Distance(x, d) && r / 2.0 != d {
      var k: nat, n: nat :| n <= bits - 1 && k % 2 == 0 && IsTimes(r, k, n) && Distance(r, 2.0 * d) == Half(n);
      HalfOf(r, k, n);
      assert Half(n + 1) == Half(n) / 2.0;
      assert Distance(r / 2.0, d) == Half(n + 1);
    }
  }
}
