/**
 Digit sequences, least significant digit first, in base 2^28, and the 32-bit operations on them.
 */
module Digits {
  import opened Arithmetic

  const DV := 0x1000_0000
  const DM := 0xfff_ffff
  const INT32 := 0x8000_0000

  /** DV to the power `n`. */
  ghost function Pow(n: nat): (p: int)
    ensures p >= 1
  {
    if n == 0 then 1 else DV * Pow(n - 1)
  }

  ghost function Val(d: seq<int>): int {
    if d == [] then 0 else d[0] + DV * Val(d[1..])
  }

  ghost predicate IsDigit(x: int) {
    0 <= x < DV
  }

  ghost predicate AllDigits(d: seq<int>) {
    forall i :: 0 <= i < |d| ==> 0 <= d[i] < DV
  }

  lemma {:induction false} PowAdd(m: nat, n: nat)
    ensures Pow(m + n) == Pow(m) * Pow(n)
  {
    if m > 0 {
      PowAdd(m - 1, n);
      calc {
        Pow(m + n);
        DV * Pow(m - 1 + n);
        DV * (Pow(m - 1) * Pow(n));
        (DV * Pow(m - 1)) * Pow(n);
      }
    }
  }

  lemma {:induction false} PowMono(a: nat, b: nat)
    requires a <= b
    ensures Pow(a) <= Pow(b)
  {
    if a < b {
      PowMono(a, b - 1);
    }
  }

  lemma PowUp(n: nat)
    ensures Pow(n + 1) == DV * Pow(n)
  {
  }

  lemma {:induction false} ValConcat(a: seq<int>, b: seq<int>)
    ensures Val(a + b) == Val(a) + Pow(|a|) * Val(b)
  {
    if a == [] {
      assert a + b == b;
    } else {
      assert (a + b)[1..] == a[1..] + b;
      ValConcat(a[1..], b);
      calc {
        Val(a + b);
        a[0] + DV * (Val(a[1..]) + Pow(|a| - 1) * Val(b));
        { MulAssoc(DV, Pow(|a| - 1), Val(b)); }
        a[0] + DV * Val(a[1..]) + Pow(|a|) * Val(b);
      }
    }
  }

  lemma ValSplit(d: seq<int>, n: nat)
    requires n <= |d|
    ensures Val(d) == Val(d[..n]) + Pow(n) * Val(d[n..])
  {
    hide Val, Pow;
    assert d[..n] + d[n..] == d;
    ValConcat(d[..n], d[n..]);
  }

  lemma ValSnoc(d: seq<int>, x: int)
    ensures Val(d + [x]) == Val(d) + Pow(|d|) * x
  {
    hide Val, Pow;
    ValConcat(d, [x]);
    ValOne(x);
  }

  lemma NoDigits()
    ensures Val([]) == 0 && Pow(0) == 1
  {
  }

  lemma ValOne(x: int)
    ensures Val([x]) == x
  {
    assert Val([x]) == x + DV * Val([]);
  }

  lemma {:induction false} ValBound(d: seq<int>)
    requires AllDigits(d)
    ensures 0 <= Val(d) < Pow(|d|)
  {
    if d != [] {
      ValBound(d[1..]);
    }
  }

  lemma {:induction false} ValZeros(d: seq<int>)
    requires forall i :: 0 <= i < |d| ==> d[i] == 0
    ensures Val(d) == 0
  {
    if d != [] {
      ValZeros(d[1..]);
    }
  }

  lemma ValUpdate(d: seq<int>, i: nat, x: int)
    requires i < |d|
    ensures Val(d[i := x]) == Val(d) + Pow(i) * (x - d[i])
  {
    var d' := d[i := x];
    ValSplit(d, i);
    ValSplit(d', i);
    assert d'[..i] == d[..i] && d'[i..][1..] == d[i..][1..];
    calc {
      Val(d') - Val(d);
      Pow(i) * Val(d'[i..]) - Pow(i) * Val(d[i..]);
      { MulSub(Pow(i), Val(d'[i..]), Val(d[i..])); }
      Pow(i) * (Val(d'[i..]) - Val(d[i..]));
      Pow(i) * (x - d[i]);
    }
  }

  // ----- 32-bit operations on non-negative words -----

  /** `v >> k` for `power` == 2^k, defined on words that are their own 32-bit value. */
  function Shr(v: int, power: int): int
    requires 0 <= v < INT32 && power > 0
  {
    v / power
  }

  /** `v & (power - 1)` for a power of two. */
  function Low(v: int, power: int): int
    requires 0 <= v < INT32 && power > 0
  {
    v % power
  }
}
