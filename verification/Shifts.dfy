/**
 Shifting digits by a number of bits.
 */
module Shifts {
  import opened Arithmetic
  import opened Bits
  import opened Digits

  /** The number with digits `d` and sign `s`. */
  ghost function Signed(d: seq<int>, s: int): int {
    Val(d) + s * Pow(|d|)
  }

  // ----- to the right -----

  /** `d` is what remains of the digits `a` when `bs` bits are dropped; the last digit is not yet complete. */
  ghost predicate Dropped(d: seq<int>, a: seq<int>, bs: nat) {
    && bs < 28 && |d| == |a| > 0 && AllDigits(d) && d[|d| - 1] < Two(28 - bs)
    && Val(d) == Val(a) / Two(bs)
  }

  lemma DropFirst(x: int, bs: nat)
    requires IsDigit(x) && bs < 28
    ensures Dropped([x / Two(bs)], [x], bs)
  {
    hide Two;
    TwoAdd(bs, 28 - bs);
    Two28();
    ValOne(x);
    ValOne(x / Two(bs));
    DropLow(x, Two(bs), Two(28 - bs));
    QuotientNat(x, Two(bs));
    DropDigit(x, Two(bs), Two(28 - bs));
  }

  lemma DropLow(x: int, p: nat, c: nat)
    requires p > 0 && 0 <= x < p * c
    ensures 0 <= x / p < c
  {
    if x / p >= c {
      MulLe(c, x / p, p);
    }
  }

  lemma DropDigit(x: int, p: nat, c: nat)
    requires p >= 1 && 0 <= x < DV && p * c == DV && 0 <= x / p < c
    ensures x / p < DV
  {
    MulLe(1, p, c);
  }

  /** The low bits of the next digit complete the last one, and its high bits are the next one. */
  function Joined(d: seq<int>, x: int, bs: nat): (r: seq<int>)
    requires d != []
    ensures |r| == |d| + 1
  {
    d[|d| - 1 := d[|d| - 1] + (x % Two(bs)) * Two(if bs < 28 then 28 - bs else 0)] + [x / Two(bs)]
  }

  lemma DropNext(d: seq<int>, a: seq<int>, x: int, bs: nat)
    requires Dropped(d, a, bs) && IsDigit(x)
    ensures Dropped(Joined(d, x, bs), a + [x], bs)
  {
    hide Two, Val, Pow;
    var p, c, top := Two(bs), Two(28 - bs), |d| - 1;
    TwoAdd(bs, 28 - bs);
    Two28();
    DropLow(x, p, c);
    DropDigit(x, p, c);
    var low := (x % p) * c;
    Completes(d[top], x % p, p, c);
    JoinedValue(d, x, bs);
    ValSnoc(a, x);
    PowUp(top);
    DropInts(Val(a), Pow(top), x, p, c);
  }

  lemma Completes(y: int, l: int, p: nat, c: nat)
    requires 0 <= y < c && 0 <= l < p && p * c == DV
    ensures 0 <= y + l * c < DV
  {
    MulLe(l, p - 1, c);
    assert (p - 1) * c == p * c - c;
    MulNonNeg(l, c);
  }

  lemma JoinedValue(d: seq<int>, x: int, bs: nat)
    requires d != [] && bs < 28
    ensures Val(Joined(d, x, bs)) == Val(d) + Pow(|d| - 1) * ((x % Two(bs)) * Two(28 - bs)) + Pow(|d|) * (x / Two(bs))
  {
    hide Two, Val, Pow;
    var top := |d| - 1;
    var y := d[top] + (x % Two(bs)) * Two(28 - bs);
    ValUpdate(d, top, y);
    ValSnoc(d[top := y], x / Two(bs));
  }

  /** Dropping bits of a number with one more digit `x`, where `q` is the power of the digit before it. */
  lemma DropInts(v: int, q: int, x: int, p: nat, c: nat)
    requires p > 0 && p * c == DV
    ensures (v + (DV * q) * x) / p == v / p + q * ((x % p) * c) + (DV * q) * (x / p)
  {
    var h, l := x / p, x % p;
    var k := q * (l * c) + (DV * q) * h;
    assert (DV * q) * x == p * k by {
      assert x == p * h + l;
      SpreadInts(q, p, c, h, l);
    }
    DivUnique(v + p * k, p, v / p + k, v % p);
  }

  lemma SpreadInts(q: int, p: int, c: int, h: int, l: int)
    requires p * c == DV
    ensures (DV * q) * (p * h + l) == p * (q * (l * c) + (DV * q) * h)
  {
    var z := DV * q;
    assert z * (p * h + l) == z * (p * h) + z * l;
    assert z * (p * h) == p * (z * h) by { MulAssoc(z, p, h); MulAssoc(p, z, h); }
    assert z * l == p * (q * (l * c)) by {
      assert z == p * (q * c) by { MulAssoc(p, c, q); assert q * c == c * q; }
      MulAssoc(p, q * c, l);
      MulAssoc(q, c, l);
      assert c * l == l * c;
    }
    assert p * (q * (l * c) + z * h) == p * (q * (l * c)) + p * (z * h);
  }

  /** At the end the sign completes the last digit. */
  lemma DropWithSign(d: seq<int>, a: seq<int>, s: int, bs: nat)
    requires Dropped(d, a, bs) && (s == 0 || s == -1)
    ensures var top := |d| - 1; var r := d[top := d[top] + (s % Two(bs)) * Two(28 - bs)];
      AllDigits(r) && Signed(r, s) == Signed(a, s) / Two(bs)
  {
    hide Two, Val, Pow;
    var p, c, top := Two(bs), Two(28 - bs), |d| - 1;
    TwoAdd(bs, 28 - bs);
    Two28();
    SignDigit(s, p);
    Completes(d[top], s % p, p, c);
    ValUpdate(d, top, d[top] + (s % p) * c);
    PowUp(top);
    DropInts(Val(a), Pow(top), s, p, c);
    assert (DV * Pow(top)) * s == s * Pow(|a|);
  }

  lemma SignDigit(s: int, p: nat)
    requires (s == 0 || s == -1) && p > 0
    ensures s / p == s && 0 <= s % p < p
  {
    if s == -1 {
      DivUnique(-1, p, -1, p - 1);
    }
  }

  // ----- to the left -----

  /** `d` and the digit `c` below it are `a` shifted by `bs` bits; both numbers have the sign `s`. */
  ghost predicate Raised(d: seq<int>, c: int, a: seq<int>, s: int, bs: nat) {
    && bs < 28 && |d| == |a| && AllDigits(d) && (s == 0 || s == -1)
    && 0 <= c <= DV - Two(bs) && c % Two(bs) == 0
    && c + DV * Signed(d, s) == Two(bs) * Signed(a, s)
  }

  /** The bits that the sign shifts in. */
  function SignBits(s: int, bs: nat): int {
    if s == 0 then 0 else DV - Two(bs)
  }

  lemma RaiseFirst(s: int, bs: nat)
    requires (s == 0 || s == -1) && bs < 28
    ensures Raised([], SignBits(s, bs), [], s, bs)
  {
    hide Two;
    TwoAdd(bs, 28 - bs);
    Two28();
    TwoMono(bs, 28);
    NoDigits();
    MultipleMod(Two(28 - bs) - 1, Two(bs));
    assert Two(bs) * (Two(28 - bs) - 1) == DV - Two(bs);
    MultipleMod(0, Two(bs));
  }

  /** The high bits of the next digit complete the digit below, and its low bits are carried. */
  lemma RaiseNext(d: seq<int>, c: int, a: seq<int>, s: int, bs: nat, x: int)
    requires Raised(d, c, a, s, bs) && IsDigit(x)
    ensures Raised([x / Two(28 - bs) + c] + d, (x % Two(28 - bs)) * Two(bs), [x] + a, s, bs)
  {
    hide Two, Val, Pow;
    var p, q := Two(bs), Two(28 - bs);
    TwoAdd(bs, 28 - bs);
    Two28();
    var h, l := x / q, x % q;
    assert p * q == q * p;
    DropLow(x, q, p);
    CarriedBits(l, p, q);
    SignedCons(h + c, d, s);
    SignedCons(x, a, s);
    RaiseInts(x, h, l, p, q, c, Signed(d, s), Signed(a, s));
  }

  lemma CarriedBits(l: int, p: nat, q: nat)
    requires 0 <= l < q && p > 0 && p * q == DV
    ensures 0 <= l * p <= DV - p && (l * p) % p == 0
  {
    MulNonNeg(l, p);
    MulLe(l, q - 1, p);
    assert (q - 1) * p == p * q - p;
    MultipleMod(l, p);
  }

  lemma SignedCons(x: int, d: seq<int>, s: int)
    ensures Signed([x] + d, s) == x + DV * Signed(d, s)
  {
    assert ([x] + d)[1..] == d;
    SignedInts(Val(d), Pow(|d|), s);
  }

  lemma SignedInts(v: int, p: int, s: int)
    ensures DV * v + s * (DV * p) == DV * (v + s * p)
  {
    assert s * (DV * p) == DV * (s * p);
  }

  lemma RaiseInts(x: int, h: int, l: int, p: int, q: int, c: int, v: int, w: int)
    requires x == q * h + l && p * q == DV && c + DV * v == p * w
    ensures l * p + DV * ((h + c) + DV * v) == p * (x + DV * w)
  {
    assert DV * ((h + c) + DV * v) == DV * h + DV * (c + DV * v);
    assert DV * (p * w) == p * (DV * w);
    assert p * (q * h) == DV * h by { MulAssoc(p, q, h); }
    assert p * (q * h + l + DV * w) == p * (q * h) + p * l + p * (DV * w);
  }

  /** Zeros below multiply by powers of the base. */
  lemma ZerosBelow(z: seq<int>, d: seq<int>, s: int)
    requires forall i :: 0 <= i < |z| ==> z[i] == 0
    ensures Signed(z + d, s) == Pow(|z|) * Signed(d, s)
  {
    hide Val, Pow;
    ValConcat(z, d);
    ValZeros(z);
    PowAdd(|z|, |d|);
    ZerosInts(Pow(|z|), Pow(|d|), Val(d), s);
  }

  lemma ZerosInts(p: int, q: int, v: int, s: int)
    ensures p * v + s * (p * q) == p * (v + s * q)
  {
    assert s * (p * q) == p * (s * q);
  }

  /** Shifting by digits and then by bits is shifting by all bits. */
  lemma WholeShift(n: nat, v: int)
    ensures Two(n) == Pow(n / 28) * Two(n % 28)
    ensures Pow(n / 28) * (Two(n % 28) * v) == v * Two(n) && (v / Pow(n / 28)) / Two(n % 28) == v / Two(n)
  {
    hide Two, Pow;
    TwoPow(n / 28);
    TwoAdd(28 * (n / 28), n % 28);
    MulAssoc(Pow(n / 28), Two(n % 28), v);
    DivDiv(v, Pow(n / 28), Two(n % 28));
  }

  // ----- the lowest set bit -----

  /** `n` is the number of zeros below the lowest set bit of `v`. */
  ghost predicate IsLowest(v: int, n: nat) {
    v % Two(n) == 0 && (v / Two(n)) % 2 == 1
  }

  /** The number of zeros below the lowest set bit of a digit. */
  method LBit(x0: nat) returns (r: nat)
    requires 0 < x0 < DV
    ensures IsLowest(x0, r) && r < 28
  {
    hide Two, IsLowest;
    SmallTwos();
    LBitStart(x0);
    var x;
    x, r := LBitRound(x0, x0, 0, 16, 0x1_0000);
    x, r := LBitRound(x0, x, r, 8, 0x100);
    x, r := LBitRound(x0, x, r, 4, 16);
    x, r := LBitRound(x0, x, r, 2, 4);
    x, r := LBitRound(x0, x, r, 1, 2);
    LBitEnd(x0, x, r);
  }

  lemma LBitStart(x: nat)
    requires 0 < x < DV
    ensures x == x * Two(0) && x % (0x1_0000 * 0x1_0000) != 0
  {
  }

  /** Where the `k` low bits are zero they are dropped; then the low bits are not all zero. */
  method LBitRound(ghost x0: nat, x: nat, r: nat, k: nat, power: nat) returns (x': nat, r': nat)
    requires x0 == x * Two(r) && power == Two(k) && power * power > 0 && x % (power * power) != 0
    ensures x0 == x' * Two(r') && x' % power != 0
  {
    hide Two;
    x', r' := x, r;
    if x % power == 0 {
      x', r' := x / power, r + k;
      TwoAdd(k, r);
      MulAssoc(x', power, Two(r));
      LBitInts(x, power);
    }
  }

  lemma LBitInts(x: nat, p: nat)
    requires p > 0 && x % p == 0 && p * p > 0 && x % (p * p) != 0
    ensures x == (x / p) * p && (x / p) % p != 0
  {
    var y := x / p;
    assert x == p * y;
    if y % p == 0 {
      SquareMultiple(x, p, y, y / p);
    }
  }

  lemma SquareMultiple(x: int, p: nat, y: int, z: int)
    requires x == p * y && y == p * z && p * p > 0
    ensures x % (p * p) == 0
  {
    MulAssoc(p, p, z);
    MultipleMod(z, p * p);
  }

  lemma LBitEnd(x0: nat, x: nat, r: nat)
    requires 0 < x0 < DV && x0 == x * Two(r) && x % 2 == 1
    ensures IsLowest(x0, r) && r < 28
  {
    hide Two;
    DivUnique(x0, Two(r), x, 0);
    if r >= 28 {
      TwoMono(28, r);
      Two28();
      MulLe(1, x, Two(r));
    }
  }

  /** The lowest set bit of a number whose `i` lowest digits are zero. */
  lemma LowestInDigit(d: seq<int>, s: int, i: nat, n: nat)
    requires i < |d| && (forall k :: 0 <= k < i ==> d[k] == 0) && IsLowest(d[i], n) && n < 28
    ensures IsLowest(Signed(d, s), 28 * i + n)
  {
    hide Two, Pow;
    assert d == d[..i] + d[i..];
    ZerosBelow(d[..i], d[i..], s);
    assert d[i..] == [d[i]] + d[i + 1..];
    SignedCons(d[i], d[i + 1..], s);
    var w := Signed(d[i + 1..], s);
    hide Val;
    TwoAdd(n + 1, 27 - n);
    TwoDoubles(n);
    Two28();
    MulAssoc(Two(n + 1), Two(27 - n), w);
    LowestInts(d[i], Two(n), Two(27 - n) * w);
    TwoPow(i);
    TwoAdd(28 * i, n);
    LowestShifted(d[i] + DV * w, Two(n), Pow(i));
  }

  lemma LowestInts(x: int, p: nat, w: int)
    requires p > 0 && x % p == 0 && (x / p) % 2 == 1
    ensures (x + (2 * p) * w) % p == 0 && ((x + (2 * p) * w) / p) % 2 == 1
  {
    var q := x / p;
    assert (2 * p) * w == p * (2 * w);
    DivUnique(x + p * (2 * w), p, q + 2 * w, 0);
  }

  lemma LowestShifted(v: int, p: nat, q: nat)
    requires p > 0 && q > 0 && v % p == 0 && (v / p) % 2 == 1
    ensures q * p > 0 && (q * v) % (q * p) == 0 && ((q * v) / (q * p)) % 2 == 1
  {
    var k := v / p;
    MulAssoc(q, p, k);
    MulLe(1, q, p);
    DivUnique(q * v, q * p, k, 0);
  }

  /** Where all digits are zero and the sign is set, the lowest set bit is the first of the sign. */
  lemma LowestInSign(d: seq<int>)
    requires forall k :: 0 <= k < |d| ==> d[k] == 0
    ensures IsLowest(Signed(d, -1), 28 * |d|) && Signed(d, 0) == 0
  {
    hide Two, Pow;
    ValZeros(d);
    TwoPow(|d|);
    DivUnique(-1 * Pow(|d|), Pow(|d|), -1, 0);
  }
}
