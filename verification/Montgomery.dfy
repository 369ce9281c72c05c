/**
 Montgomery reduction: the inverse of a digit, the digit that clears a digit, and the reduction loop.
 */
module Montgomery {
  import opened Arithmetic
  import opened Digits
  import opened Multiply

  /** `v & (power - 1)` on a 32-bit word of either sign. */
  function And(v: int, power: int): int
    requires -INT32 <= v < INT32 && power > 0
  {
    v % power
  }

  /** `v >> k` for `power` == 2^k, on a 32-bit word of either sign. */
  function Sar(v: int, power: int): int
    requires -INT32 <= v < INT32 && power > 0
  {
    v / power
  }

  /** Numbers below this are exact. */
  const EXACT := 0x20_0000_0000_0000

  /** The remainder of the source language takes the sign of the dividend. */
  function Rem(v: int, m: int): int
    requires -EXACT <= v <= EXACT && m > 0
  {
    if v >= 0 then v % m else -((-v) % m)
  }

  /** One Newton step: from an inverse modulo `k` to one modulo any divisor `n` of k^2. */
  lemma Newton(x: int, y: int, k: int, q: int, n: int, g: int, s: int, e: int, y': int, f: int) returns (q': int)
    requires x * y == 1 + q * k && k * k == g * n
    requires x * y == s + e * n && y * (2 - s) == y' + f * n
    ensures x * y' == 1 + q' * n
  {
    var p := x * y;
    q' := p * e - x * f - q * q * g;
    NewtonLeft(x, y, 2 - s, y', f, n);
    NewtonMiddle(p, s, e, n);
    NewtonSquare(p, q, k, g, n);
    NewtonFactor(p * e, x * f, q * q * g, n);
  }

  lemma NewtonLeft(x: int, y: int, d: int, y': int, f: int, n: int)
    requires y * d == y' + f * n
    ensures x * y' == (x * y) * d - (x * f) * n
  {
    MulAssoc(x, y, d);
    MulAssoc(x, f, n);
    MulSub(x, y * d, f * n);
  }

  lemma NewtonMiddle(p: int, s: int, e: int, n: int)
    requires p == s + e * n
    ensures p * (2 - s) == p * (2 - p) + (p * e) * n
  {
    MulAssoc(p, e, n);
    assert p * (2 - p + e * n) == p * (2 - p) + p * (e * n);
  }

  lemma NewtonSquare(p: int, q: int, k: int, g: int, n: int)
    requires p == 1 + q * k && k * k == g * n
    ensures p * (2 - p) == 1 - (q * q * g) * n
  {
    var z := q * k;
    assert (1 + z) * (1 - z) == 1 - z * z;
    SquareOfProduct(q, k, g, n);
  }

  lemma NewtonFactor(a: int, b: int, c: int, n: int)
    ensures (a - b - c) * n == a * n - b * n - c * n
  {
  }

  lemma SquareOfProduct(q: int, k: int, g: int, n: int)
    requires k * k == g * n
    ensures (q * k) * (q * k) == (q * q * g) * n
  {
    calc {
      (q * k) * (q * k);
      (q * q) * (k * k);
      (q * q) * (g * n);
      { MulAssoc(q * q, g, n); }
      (q * q * g) * n;
    }
  }

  /** x * y == 1 modulo n. */
  ghost predicate Inverse(x: int, y: int, n: int) {
    exists q :: x * y == 1 + q * n
  }

  /** A step of the form y = (y * (2 - s)) mod n, where s is x * y modulo n. */
  lemma NewtonStep(x: int, y: int, k: int, n: int, g: int, s: int, y': int)
    requires Inverse(x, y, k) && k * k == g * n && n > 0
    requires (x * y - s) % n == 0 && (y * (2 - s) - y') % n == 0
    ensures Inverse(x, y', n)
  {
    var q :| x * y == 1 + q * k;
    var e, f := (x * y - s) / n, (y * (2 - s) - y') / n;
    var q' := Newton(x, y, k, q, n, g, s, e, y', f);
  }

  lemma RemDiff(v: int, n: int)
    requires -EXACT <= v <= EXACT && n > 0
    ensures (v - Rem(v, n)) % n == 0 && -n < Rem(v, n) < n
  {
    if v >= 0 {
      ModDiff(v, n);
    } else {
      ModDiff(-v, n);
      NegatedMultiple(-v - (-v) % n, n);
    }
  }

  lemma NegatedMultiple(w: int, n: int)
    requires n > 0 && w % n == 0
    ensures (-w) % n == 0
  {
    ProductMultiple(w, -1, n);
  }

  /** Replacing `x` by its low bits changes `x * y` by a multiple of `n`. */
  lemma LowBits(x: int, y: int, n: int)
    requires n > 0
    ensures (x * y - (x % n) * y) % n == 0
  {
    ModDiff(x, n);
    ProductMultiple(x - x % n, y, n);
    LowBitsInts(x, x % n, y);
  }

  lemma LowBitsInts(x: int, r: int, y: int)
    ensures (x - r) * y == x * y - r * y
  {
  }

  lemma OddInverse(x: int)
    requires 0 <= x && x % 2 == 1
    ensures Inverse(x, x % 4, 4)
  {
    var a, r := x / 4, x % 4;
    assert r == 1 || r == 3;
    assert x * r == 1 + (a * r + (r * r - 1) / 4) * 4;
  }

  /** `-1/m mod DV` for the lowest digit of an odd number, 0 for an even number or for no digits at all. */
  method InvDigit(m: seq<int>) returns (r: int)
    requires AllDigits(m)
    ensures m == [] || m[0] % 2 == 0 ==> r == 0
    ensures m != [] && m[0] % 2 == 1 ==> 0 < r < DV && (m[0] * r + 1) % DV == 0
  {
    hide Inverse;
    if |m| < 1 {
      return 0;
    }
    var x := m[0];
    if And(x, 2) == 0 {
      return 0;
    }
    var y := And(x, 4);
    OddInverse(x);

    var s := And(x, 16) * y;
    HalfProduct(And(x, 16), y, 16, 4);
    y := NewtonMask(x, y, 4, 16, s);

    s := And(x, 0x100) * y;
    HalfProduct(And(x, 0x100), y, 0x100, 16);
    y := NewtonMask(x, y, 16, 0x100, s);

    HalfProduct(And(x, 0x1_0000), y, 0x1_0000, 0x100);
    var xy := And(x, 0x1_0000) * y;
    s := And(xy, 0x1_0000);
    LowBits(x, y, 0x1_0000);
    ModDiff(xy, 0x1_0000);
    SumMultiple(x * y - xy, xy - s, 0x1_0000);
    y := NewtonLast(x, y, 0x100, s);

    HalfProduct(x, y, DV, 0x1_0000);
    s := Rem(x * y, DV);
    RemDiff(x * y, DV);
    StepExact(y, s);
    var z := Rem(y * (2 - s), DV);
    RemDiff(y * (2 - s), DV);
    NewtonStep(x, y, 0x1_0000, DV, 16, s, z);
    r := if z > 0 then DV - z else -z;
    NegativeInverse(x, z, r);
  }

  lemma StepExact(y: int, s: int)
    requires 0 <= y < 0x1_0000 && -DV < s < DV
    ensures -EXACT <= y * (2 - s) <= EXACT
  {
    MulLe(2 - s, DV + 2, y);
    MulLe(-DV - 2, 2 - s, y);
    MulLe(y, 0x1_0000, DV + 2);
  }

  /** A step whose low bits are taken with a mask; the product of the low bits with `y` is not reduced. */
  method NewtonMask(x: int, y: int, k: int, n: int, s: int) returns (y': int)
    requires 0 <= x && 0 <= y < k && 1 < k <= 16 && n == k * k && s == (x % n) * y && 0 <= s < 0x1000
    requires Inverse(x, y, k)
    ensures 0 <= y' < n && Inverse(x, y', n)
  {
    hide Inverse;
    HalfProduct(y, s, k, 0x1000);
    assert y * (2 - s) == 2 * y - y * s;
    y' := And(y * (2 - s), n);
    LowBits(x, y, n);
    ModDiff(y * (2 - s), n);
    NewtonStep(x, y, k, n, 1, s, y');
  }

  method NewtonLast(x: int, y: int, k: int, s: int) returns (y': int)
    requires 0 <= x && 0 <= y < k == 0x100 && 0 <= s < 0x1_0000 && (x * y - s) % 0x1_0000 == 0 && Inverse(x, y, k)
    ensures 0 <= y' < 0x1_0000 && Inverse(x, y', 0x1_0000)
  {
    hide Inverse;
    HalfProduct(y, s, k, 0x1_0000);
    assert y * (2 - s) == 2 * y - y * s;
    y' := And(y * (2 - s), 0x1_0000);
    ModDiff(y * (2 - s), 0x1_0000);
    NewtonStep(x, y, k, 0x1_0000, 1, s, y');
  }

  lemma NegativeInverse(x: int, z: int, r: int)
    requires Inverse(x, z, DV) && -DV < z < DV && r == if z > 0 then DV - z else -z
    ensures 0 < r < DV && (x * r + 1) % DV == 0
  {
    var q :| x * z == 1 + q * DV;
    if z > 0 {
      assert x * r + 1 == DV * (x - q);
      MultipleMod(x - q, DV);
    } else {
      assert x * r + 1 == DV * (-q);
      MultipleMod(-q, DV);
      assert z == 0 ==> x * z == 0;
    }
  }

  // ----- the reduction -----

  const Q := 0x8000
  const UM := 0x2000

  /** `digit * mp mod DV` from the 15-bit halves of `mp`. */
  method ClearingDigit(digit: int, mpl: int, mph: int) returns (u: int)
    requires IsDigit(digit) && 0 <= mpl < Q && 0 <= mph < UM
    ensures IsDigit(u) && u == (digit * (mpl + Q * mph)) % DV
  {
    var j, h := Low(digit, Q), Shr(digit, Q);
    HalfProduct(j, mpl, Q, Q);
    HalfProduct(j, mph, Q, UM);
    HalfProduct(h, mpl, UM, Q);
    var t := j * mph + h * mpl;
    var v := j * mpl + Low(t, UM) * Q;
    u := Low(v, DV);
    SplitDigit(digit, j, h, mpl, mph);
    assert digit * (mpl + Q * mph) == v + DV * (t / UM + 4 * (h * mph));
    AddMultiple(v, t / UM + 4 * (h * mph), DV);
  }

  lemma SplitDigit(x: int, j: int, h: int, mpl: int, mph: int)
    requires x == j + Q * h
    ensures x * (mpl + Q * mph) == j * mpl + Q * (j * mph + h * mpl) + Q * Q * (h * mph)
  {
  }

  /** Adding `u` times the modulus clears the digit. */
  lemma Clears(x: int, m0: int, mp: int, u: int)
    requires (m0 * mp + 1) % DV == 0 && u == (x * mp) % DV
    ensures (x + u * m0) % DV == 0
  {
    ModDiff(x * mp, DV);
    ProductMultiple(m0 * mp + 1, x, DV);
    ProductMultiple(x * mp - u, -m0, DV);
    calc {
      (m0 * mp + 1) * x + (x * mp - u) * (-m0);
      { assert (m0 * mp + 1) * x == m0 * (mp * x) + x; assert (x * mp - u) * (-m0) == u * m0 - (x * mp) * m0; }
      x + u * m0;
    }
    SumMultiple((m0 * mp + 1) * x, (x * mp - u) * (-m0), DV);
  }

  /** The lowest digit of a sum of digit sequences, modulo DV. */
  lemma LowestDigit(w': seq<int>, c: int, w: seq<int>, u: int, m: seq<int>)
    requires |w'| == |w| == |m| > 0 && AllDigits(w')
    requires Val(w') + Pow(|m|) * c == Val(w) + u * Val(m)
    requires (w[0] + u * m[0]) % DV == 0
    ensures w'[0] == 0
  {
    LowestDigitOf(w'[0], w[0], m[0], u, Val(w'[1..]), Val(w[1..]), Val(m[1..]), Pow(|m| - 1), c);
  }

  lemma LowestDigitOf(x': int, x: int, m0: int, u: int, a: int, b: int, d: int, p: int, c: int)
    requires x' + DV * a + (DV * p) * c == x + DV * b + u * (m0 + DV * d)
    requires IsDigit(x') && (x + u * m0) % DV == 0
    ensures x' == 0
  {
    var k := b + u * d - a - p * c;
    assert u * (m0 + DV * d) == u * m0 + DV * (u * d);
    MulAssoc(DV, p, c);
    assert x' == x + u * m0 + DV * k;
    MultipleMod(k, DV);
    SumMultiple(x + u * m0, DV * k, DV);
  }

  /** Adds a carry below DV to digit `j` and propagates it upwards. */
  method AddCarry(x: seq<int>, j: nat, c: int) returns (y: seq<int>)
    requires AllDigits(x) && j < |x| && IsDigit(c) && Val(x) + Pow(j) * c < Pow(|x|)
    ensures |y| == |x| && AllDigits(y) && y[..j] == x[..j] && Val(y) == Val(x) + Pow(j) * c
  {
    hide Val;
    ValUpdate(x, j, x[j] + c);
    y := x[j := x[j] + c];
    var p := j;
    while y[p] >= DV
      invariant j <= p < |x| == |y| && 0 <= y[p] < 2 * DV && y[..j] == x[..j]
      invariant forall k :: 0 <= k < |y| && k != p ==> 0 <= y[k] < DV
      invariant Val(y) == Val(x) + Pow(j) * c
      decreases |x| - p
    {
      TopRoom(y, p);
      ghost var y0 := y;
      ValUpdate(y, p, y[p] - DV);
      ValUpdate(y[p := y[p] - DV], p + 1, y[p + 1] + 1);
      y := y[p := y[p] - DV][p + 1 := y[p + 1] + 1];
      CarryMoved(p);
      assert y[..j] == y0[..j];
      p := p + 1;
    }
  }

  lemma CarryMoved(p: nat)
    ensures Pow(p) * -DV + Pow(p + 1) * 1 == 0
  {
  }

  /** A digit that overflows is not the last one. */
  lemma TopRoom(y: seq<int>, p: nat)
    requires p < |y| && y[p] >= DV && (forall k :: 0 <= k < |y| && k != p ==> 0 <= y[k] < DV) && Val(y) < Pow(|y|)
    ensures p + 1 < |y|
  {
    if p + 1 == |y| {
      TopDigit(y, p);
      MulLe(DV, y[p], Pow(p));
    }
  }

  ghost predicate ZeroBelow(x: seq<int>, n: nat) {
    n <= |x| && forall i :: 0 <= i < n ==> x[i] == 0
  }

  /** Adds `v` times the modulus at digit `i`; when that digit is cleared, so is the result's. */
  method AddModulus(x: seq<int>, m: seq<int>, v: int, i: nat) returns (y: seq<int>, c: int)
    requires AllDigits(x) && AllDigits(m) && m != [] && IsDigit(v) && i + |m| <= |x| && (x[i] + v * m[0]) % DV == 0
    ensures |y| == |x| && AllDigits(y) && IsDigit(c) && y[i] == 0 && (forall k :: 0 <= k < i ==> y[k] == x[k])
    ensures Val(y) + Pow(i + |m|) * c == Val(x) + Pow(i) * (v * Val(m))
  {
    hide Val, Pow;
    var n := |m|;
    y, c := Am3(m, 0, v, x, i, 0, n);
    ghost var w, w' := x[i..i + n], y[i..i + n];
    assert m[0..n] == m && w[0] == x[i] && w'[0] == y[i];
    ValBound(w);
    ValBound(w');
    ValBound(m);
    CarryIsDigit(Pow(n), Val(w'), c, Val(w), v, Val(m));
    LowestDigit(w', c, w, v, m);
    SegmentReplaced(x, y, i, n);
    PowAdd(i, n);
    AccumulateValue(Val(x), Val(y), Pow(i), Pow(n), Val(w), Val(w'), c, v * Val(m));
    SegmentDigits(x, y, i, n);
  }

  lemma SegmentDigits(x: seq<int>, y: seq<int>, i: nat, n: nat)
    requires i + n <= |x| == |y| && y[..i] == x[..i] && y[i + n..] == x[i + n..] && AllDigits(x)
    requires AllDigits(y[i..i + n])
    ensures AllDigits(y) && (forall k :: 0 <= k < i ==> y[k] == x[k])
  {
    forall k | 0 <= k < |x|
      ensures 0 <= y[k] < DV && (k < i ==> y[k] == x[k])
    {
      if k < i {
        assert y[k] == y[..i][k] == x[..i][k];
      } else if k < i + n {
        assert y[k] == y[i..i + n][k - i];
      } else {
        assert y[k] == y[i + n..][k - i - n] == x[i + n..][k - i - n];
      }
    }
  }

  /** One turn of the loop: a multiple of the modulus is added that clears digit `i`. */
  method ReduceDigit(x: seq<int>, m: seq<int>, mp: int, i: nat) returns (y: seq<int>, ghost u: int)
    requires AllDigits(x) && AllDigits(m) && m != [] && IsDigit(mp) && (m[0] * mp + 1) % DV == 0
    requires ZeroBelow(x, i) && i + |m| < |x| && Val(x) + Pow(i) * (DV * Val(m)) <= Pow(|x|)
    ensures |y| == |x| && AllDigits(y) && ZeroBelow(y, i + 1) && IsDigit(u) && Val(y) == Val(x) + Pow(i) * (u * Val(m))
  {
    hide Val, Pow;
    var v := ClearingDigit(x[i], Low(mp, Q), Shr(mp, Q));
    u := v;
    Clears(x[i], m[0], mp, u);
    var x1, c := AddModulus(x, m, v, i);
    ValBound(x);
    ValBound(m);
    RoomForRow(Pow(i), u, Val(m));
    y := AddCarry(x1, i + |m|, c);
    forall k | 0 <= k < i + 1
      ensures y[k] == 0
    {
      assert y[k] == y[..i + |m|][k] == x1[..i + |m|][k];
    }
  }

  lemma RoomForRow(p: int, u: int, m: int)
    requires p >= 1 && IsDigit(u) && m >= 0
    ensures m > 0 ==> p * (u * m) < p * (DV * m)
    ensures m == 0 ==> p * (u * m) == 0
  {
    if m > 0 {
      assert u * m <= (DV - 1) * m by { MulLe(u, DV - 1, m); }
      assert u * m < DV * m;
      assert p * (u * m) < p * (DV * m) by { MulLess(u * m, DV * m, p); }
    }
  }

  lemma ReduceRoom(x: int, k: int, m: int, n: nat, i: nat, len: nat)
    requires 0 <= x < m * Pow(n) && 0 <= k < Pow(i) && 0 <= m < Pow(n) && i < n && len >= 2 * n + 1
    ensures (x + k * m) + Pow(i) * (DV * m) <= Pow(len)
  {
    hide Pow;
    PowMono(i + 1, n);
    PowMono(i, i + 1);
    PowMono(2 * n + 1, len);
    TwicePlusOne(n);
    RowTop(i, m);
    RoomInts(x, k, m, Pow(n), Pow(i + 1));
  }

  lemma TwicePlusOne(n: nat)
    ensures Pow(2 * n + 1) == DV * (Pow(n) * Pow(n))
  {
    PowAdd(n, n);
  }

  lemma RowTop(i: nat, m: int)
    ensures Pow(i) * (DV * m) == Pow(i + 1) * m
  {
    MulAssoc(Pow(i), DV, m);
  }

  lemma RoomInts(x: int, k: int, m: int, r: int, a: int)
    requires 0 <= x < m * r && 0 <= k <= a && 0 <= m < r && a <= r
    ensures x + k * m + a * m <= DV * (r * r)
  {
    MulLe(k, a, m);
    MulLe(a, r, m);
    MulLe(m, r, r);
  }

  /** The loop of `montReduce`: a multiple of the modulus is added that clears as many digits as the modulus
      has.  The number stays within `2 * |m| + 1` digits, so the carries never leave the array. */
  method ReduceDigits(x: seq<int>, m: seq<int>, mp: int) returns (r: seq<int>, ghost k: int)
    requires AllDigits(x) && AllDigits(m) && m != [] && IsDigit(mp) && (m[0] * mp + 1) % DV == 0
    requires Val(x) < Val(m) * Pow(|m|)
    ensures |r| == (if |x| <= 2 * |m| then 2 * |m| + 1 else |x|) && AllDigits(r) && ZeroBelow(r, |m|)
    ensures 0 <= k < Pow(|m|) && Val(r) == Val(x) + k * Val(m)
  {
    hide Val, Pow;
    r, k := x, 0;
    while |r| <= 2 * |m|
      invariant |x| <= |r| && (|r| > |x| ==> |r| <= 2 * |m| + 1) && AllDigits(r) && Val(r) == Val(x)
    {
      ValSnoc(r, 0);
      r := r + [0];
    }
    NoDigits();
    ValBound(x);
    ValBound(m);
    for i := 0 to |m|
      invariant |r| == (if |x| <= 2 * |m| then 2 * |m| + 1 else |x|) && AllDigits(r) && ZeroBelow(r, i)
      invariant 0 <= k < Pow(i) && Val(r) == Val(x) + k * Val(m)
    {
      ReduceRoom(Val(x), k, Val(m), |m|, i, |r|);
      ghost var u;
      r, u := ReduceDigit(r, m, mp, i);
      NextMultiple(k, i, u, Val(m));
      k := k + Pow(i) * u;
    }
  }

  lemma NextMultiple(k: int, i: nat, u: int, m: int)
    requires 0 <= k < Pow(i) && IsDigit(u)
    ensures 0 <= k + Pow(i) * u < Pow(i + 1)
    ensures k * m + Pow(i) * (u * m) == (k + Pow(i) * u) * m
  {
    MulLe(u, DV - 1, Pow(i));
    MulAssoc(Pow(i), u, m);
    assert (k + Pow(i) * u) * m == k * m + (Pow(i) * u) * m;
  }

  /** Dropping the cleared digits divides by R; what is left is below twice the modulus. */
  lemma Reduced(x: seq<int>, m: seq<int>, r: seq<int>, k: int)
    requires AllDigits(r) && ZeroBelow(r, |m|) && 0 <= k < Pow(|m|) && Val(r) == Val(x) + k * Val(m)
    requires AllDigits(m) && Val(x) < Val(m) * Pow(|m|)
    ensures Val(r[|m|..]) * Pow(|m|) == Val(x) + k * Val(m) && 0 <= Val(r[|m|..]) < 2 * Val(m)
  {
    hide Val, Pow;
    ValSplit(r, |m|);
    ValZeros(r[..|m|]);
    ValBound(r[|m|..]);
    ValBound(m);
    ReducedInts(Val(r[|m|..]), Pow(|m|), Val(x), k, Val(m));
  }

  lemma ReducedInts(y: int, p: int, x: int, k: int, m: int)
    requires 0 < p && y * p == x + k * m && x < m * p && 0 <= k < p && 0 <= m
    ensures y < 2 * m
  {
    MulLe(k, p, m);
    if y >= 2 * m {
      MulLe(2 * m, y, p);
    }
  }

  /** `y` is x / r modulo m. */
  ghost predicate Reduces(y: int, x: int, m: int, r: int) {
    m > 0 && 0 <= y < m && (y * r) % m == x % m
  }

  lemma ReducesBy(y: int, x: int, m: int, r: int, k: int)
    requires 0 <= y < m && y * r == x + k * m
    ensures Reduces(y, x, m, r)
  {
    AddMultiple(x, k, m);
  }
}
