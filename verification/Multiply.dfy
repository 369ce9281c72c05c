/**
 The inner loop `am3` of the multi-precision arithmetic, and multiplication and squaring built on it.
 */
module Multiply {
  import opened Arithmetic
  import opened Digits

  const H := 0x4000

  /** One turn of `am3`: a digit of the product and the carry, in 14-bit halves. */
  method AmStep(x: int, digit: int, w: int, c: int) returns (d: int, c': int)
    requires 0 <= x < 2 * DV && IsDigit(digit) && IsDigit(w) && 0 <= c < 3 * DV
    ensures IsDigit(d) && 0 <= c' < 3 * DV
    ensures d + DV * c' == x * digit + w + c
  {
    var xl, xh := Low(x, H), Shr(x, H);
    var l, h := Low(digit, H), Shr(digit, H);
    HalfProduct(xh, l, 0x8000, H);
    HalfProduct(h, xl, H, H);
    HalfProduct(xl, l, H, H);
    HalfProduct(xh, h, 0x8000, H);
    var m := xh * l + h * xl;
    var s := xl * l + Low(m, H) * H + w + c;
    c' := Shr(s, DV) + Shr(m, H) + xh * h;
    d := Low(s, DV);
    SplitProduct(x, xl, xh, digit, l, h);
    CarryBound(x, digit, w, c, d, c');
  }

  lemma SplitProduct(x: int, xl: int, xh: int, a: int, l: int, h: int)
    requires x == xl + H * xh && a == l + H * h
    ensures x * a == xl * l + H * (xh * l + h * xl) + H * H * (xh * h)
  {
  }

  lemma CarryBound(x: int, a: int, w: int, c: int, d: int, c': int)
    requires 0 <= x < 2 * DV && IsDigit(a) && IsDigit(w) && 0 <= c < 3 * DV && IsDigit(d)
    requires d + DV * c' == x * a + w + c
    ensures 0 <= c' < 3 * DV
  {
    HalfProduct(x, a, 2 * DV, DV);
  }

  /** After `k` turns the digits `u` and the carry `ck` hold the first `k` digits of the result. */
  ghost predicate AmDone(u: seq<int>, w: seq<int>, a: seq<int>, i: nat, j: nat, k: nat, x: int, c: int, ck: int) {
    i + k <= |a| && j + k <= |w| == |u| && Val(u[j..j + k]) + Pow(k) * ck == Val(w[j..j + k]) + x * Val(a[i..i + k]) + c
  }

  /** `w[j..j+n] += x * a[i..i+n] + c`; the digits stay digits and the carry out is returned. */
  method Am3(a: seq<int>, i: nat, x: int, w: seq<int>, j: nat, c: int, n: nat) returns (w': seq<int>, c': int)
    requires i + n <= |a| && j + n <= |w|
    requires AllDigits(a[i..i + n]) && AllDigits(w[j..j + n]) && 0 <= x < 2 * DV && 0 <= c < 3 * DV
    ensures |w'| == |w| && w'[..j] == w[..j] && w'[j + n..] == w[j + n..]
    ensures AllDigits(w'[j..j + n]) && 0 <= c' < 3 * DV
    ensures Val(w'[j..j + n]) + Pow(n) * c' == Val(w[j..j + n]) + x * Val(a[i..i + n]) + c
  {
    hide AmDone;
    w', c' := w, c;
    AmStart(w, a, i, j, x, c);
    for k := 0 to n
      invariant |w'| == |w| && 0 <= c' < 3 * DV
      invariant forall p :: 0 <= p < |w| && !(j <= p < j + k) ==> w'[p] == w[p]
      invariant forall p :: j <= p < j + k ==> 0 <= w'[p] < DV
      invariant AmDone(w', w, a, i, j, k, x, c, c')
    {
      assert a[i + k] == a[i..i + n][k] && w[j + k] == w[j..j + n][k];
      var d, c'' := AmStep(x, a[i + k], w'[j + k], c');
      AmAdvance(w', w'[j + k := d], w, a, i, j, k, x, c, c', d, c'');
      w', c' := w'[j + k := d], c'';
    }
    AmEnd(w', w, a, i, j, n, x, c, c');
  }

  lemma AmStart(w: seq<int>, a: seq<int>, i: nat, j: nat, x: int, c: int)
    requires i <= |a| && j <= |w|
    ensures AmDone(w, w, a, i, j, 0, x, c, c)
  {
    NoDigits();
    assert w[j..j] == [] && a[i..i] == [];
  }

  lemma AmEnd(u: seq<int>, w: seq<int>, a: seq<int>, i: nat, j: nat, n: nat, x: int, c: int, c': int)
    requires AmDone(u, w, a, i, j, n, x, c, c')
    ensures Val(u[j..j + n]) + Pow(n) * c' == Val(w[j..j + n]) + x * Val(a[i..i + n]) + c
  {
  }

  lemma AmAdvance(u: seq<int>, u': seq<int>, w: seq<int>, a: seq<int>, i: nat, j: nat, k: nat,
                  x: int, c: int, ck: int, d: int, c': int)
    requires i + k < |a| && j + k < |w| == |u| && u' == u[j + k := d]
    requires d + DV * c' == x * a[i + k] + w[j + k] + ck
    requires AmDone(u, w, a, i, j, k, x, c, ck)
    ensures AmDone(u', w, a, i, j, k + 1, x, c, c')
  {
    hide Val;
    assert u'[j..j + k + 1] == u[j..j + k] + [d];
    assert w[j..j + k + 1] == w[j..j + k] + [w[j + k]];
    assert a[i..i + k + 1] == a[i..i + k] + [a[i + k]];
    ValSnoc(u[j..j + k], d);
    ValSnoc(w[j..j + k], w[j + k]);
    ValSnoc(a[i..i + k], a[i + k]);
    AmCombine(Pow(k), x, a[i + k], w[j + k], ck, d, c', Val(u[j..j + k]), Val(w[j..j + k]), Val(a[i..i + k]), c);
  }

  lemma AmCombine(p: int, x: int, ak: int, wk: int, ck: int, d: int, c': int, v': int, v: int, va: int, c: int)
    requires d + DV * c' == x * ak + wk + ck
    requires v' + p * ck == v + x * va + c
    ensures (v' + p * d) + (DV * p) * c' == (v + p * wk) + x * (va + p * ak) + c
  {
    calc {
      (v' + p * d) + (DV * p) * c';
      v' + p * (d + DV * c');
      v' + p * (x * ak + wk + ck);
      v' + p * ck + p * wk + p * (x * ak);
      (v + x * va + c) + p * wk + p * (x * ak);
      { assert p * (x * ak) == x * (p * ak); }
      (v + p * wk) + x * (va + p * ak) + c;
    }
  }

  /** The carry of a row of a product is a digit. */
  lemma CarryIsDigit(p: int, v: int, c: int, w: int, x: int, va: int)
    requires p >= 1 && 0 <= v && 0 <= w < p && 0 <= va < p && IsDigit(x)
    requires v + p * c == w + x * va
    ensures c < DV
  {
    HalfProduct(x, va, DV, p);
    assert v + p * c <= (p - 1) + (DV - 1) * (p - 1);
    if c >= DV {
      MulLe(DV, c, p);
    }
  }

  lemma RowAdded(lo: int, pi: int, w: int, w': int, c: int, pn: int, y: int, x: int, vy: int)
    requires w' + pn * c == w + y * x
    requires lo + pi * w == x * vy
    ensures lo + pi * (w' + pn * c) == x * (vy + pi * y)
  {
    calc {
      lo + pi * (w' + pn * c);
      lo + pi * w + pi * (y * x);
      { assert pi * (y * x) == x * (pi * y); }
      x * vy + x * (pi * y);
      x * (vy + pi * y);
    }
  }

  /** The digits of the product of two non-negative numbers. */
  method MultiplyDigits(x: seq<int>, y: seq<int>) returns (r: seq<int>)
    requires AllDigits(x) && AllDigits(y)
    ensures |r| == |x| + |y| && AllDigits(r) && Val(r) == Val(x) * Val(y)
  {
    hide Val;
    r := seq(|x|, _ => 0);
    ValZeros(r);
    NoDigits();
    assert x[0..|x|] == x && y[..0] == [];
    for i := 0 to |y|
      invariant |r| == |x| + i && AllDigits(r) && Val(r) == Val(x) * Val(y[..i])
    {
      var r', c := Am3(x, 0, y[i], r, i, 0, |x|);
      ghost var w, w' := r[i..i + |x|], r'[i..i + |x|];
      ValBound(w);
      ValBound(w');
      ValBound(x);
      CarryIsDigit(Pow(|x|), Val(w'), c, Val(w), y[i], Val(x));
      assert r == r[..i] + w && r' + [c] == r[..i] + (w' + [c]);
      ValConcat(r[..i], w);
      ValConcat(r[..i], w' + [c]);
      ValSnoc(w', c);
      assert y[..i + 1] == y[..i] + [y[i]];
      ValSnoc(y[..i], y[i]);
      RowAdded(Val(r[..i]), Pow(i), Val(w), Val(w'), c, Pow(|x|), y[i], Val(x), Val(y[..i]));
      assert AllDigits(r' + [c]) by {
        forall k | 0 <= k < |r'|
          ensures 0 <= r'[k] < DV
        {
          assert k < i ==> r'[k] == r'[..i][k] && r[..i][k] == r[k];
          assert k >= i ==> r'[k] == w'[k - i];
        }
      }
      r := r' + [c];
    }
    assert y[..|y|] == y;
  }

  // ----- squaring -----

  /** Everything but the segment is the same. */
  lemma SegmentReplaced(w: seq<int>, w': seq<int>, j: nat, n: nat)
    requires j + n <= |w| == |w'| && w'[..j] == w[..j] && w'[j + n..] == w[j + n..]
    ensures Val(w') == Val(w) + Pow(j) * (Val(w'[j..j + n]) - Val(w[j..j + n]))
  {
    hide Val, Pow;
    ValSplit(w, j);
    ValSplit(w', j);
    var rest := Above(w, j, n);
    var rest' := Above(w', j, n);
    ReplacedInts(Val(w[..j]), Pow(j), Val(w[j..]), Val(w'[j..]), Val(w[j..j + n]), Val(w'[j..j + n]), rest);
  }

  /** The part above a segment. */
  lemma Above(w: seq<int>, j: nat, n: nat) returns (rest: int)
    requires j + n <= |w|
    ensures rest == Pow(n) * Val(w[j + n..]) && Val(w[j..]) == Val(w[j..j + n]) + rest
  {
    hide Val, Pow;
    ValSplit(w[j..], n);
    assert w[j..][..n] == w[j..j + n] && w[j..][n..] == w[j + n..];
    rest := Pow(n) * Val(w[j + n..]);
  }

  lemma ReplacedInts(low: int, p: int, t: int, t': int, v: int, v': int, rest: int)
    requires t == v + rest && t' == v' + rest
    ensures low + p * t' == low + p * t + p * (v' - v)
  {
    MulSub(p, t', t);
  }

  /** What a call of `am3` adds to the whole number, its carry set aside. */
  method Accumulate(a: seq<int>, i: nat, x: int, w: seq<int>, j: nat, c: int, n: nat) returns (w': seq<int>, c': int)
    requires i + n <= |a| && j + n <= |w| && AllDigits(a) && AllDigits(w) && 0 <= x < 2 * DV && 0 <= c < 3 * DV
    ensures |w'| == |w| && AllDigits(w') && 0 <= c' < 3 * DV
    ensures forall k :: 0 <= k < |w| && !(j <= k < j + n) ==> w'[k] == w[k]
    ensures Val(w') + Pow(j + n) * c' == Val(w) + Pow(j) * (x * Val(a[i..i + n]) + c)
  {
    hide Val, Pow;
    w', c' := Am3(a, i, x, w, j, c, n);
    SegmentReplaced(w, w', j, n);
    PowAdd(j, n);
    AccumulateValue(Val(w), Val(w'), Pow(j), Pow(n), Val(w[j..j + n]), Val(w'[j..j + n]), c', x * Val(a[i..i + n]) + c);
    forall k | 0 <= k < |w|
      ensures !(j <= k < j + n) ==> w'[k] == w[k]
      ensures 0 <= w'[k] < DV
    {
      if k < j {
        assert w'[k] == w'[..j][k] == w[..j][k] == w[k];
      } else if k < j + n {
        assert w'[k] == w'[j..j + n][k - j];
      } else {
        assert w'[k] == w'[j + n..][k - j - n] == w[j + n..][k - j - n] == w[k];
      }
    }
  }

  lemma AccumulateValue(v: int, v': int, pj: int, pn: int, s: int, s': int, c': int, added: int)
    requires v' == v + pj * (s' - s) && s' + pn * c' == s + added
    ensures v' + (pj * pn) * c' == v + pj * added
  {
    calc {
      v' + (pj * pn) * c';
      { MulAssoc(pj, pn, c'); }
      v + pj * (s' - s) + pj * (pn * c');
      v + pj * (s' - s + pn * c');
      v + pj * added;
    }
  }

  /** Storing a digit that may be too big by one unit: it is reduced and the next digit, so far 0, becomes 1. */
  lemma Overflow(r: seq<int>, k: nat, t: int)
    requires k + 1 < |r| && r[k + 1] == 0
    ensures Val(r[k := t - DV][k + 1 := 1]) == Val(r[k := t])
  {
    hide Val;
    var r1 := r[k := t - DV];
    ValUpdate(r, k, t - DV);
    ValUpdate(r, k, t);
    ValUpdate(r1, k + 1, 1);
    assert Pow(k + 1) == DV * Pow(k);
    assert Pow(k) * (t - DV - r[k]) == Pow(k) * (t - r[k]) - DV * Pow(k) by { MulSub(Pow(k), t - r[k], DV); }
  }

  /** The top digit written so far is bounded by the value. */
  lemma TopDigit(r: seq<int>, k: nat)
    requires k < |r| && (forall i :: 0 <= i < k ==> 0 <= r[i] < DV) && (forall i :: k < i < |r| ==> r[i] == 0)
    ensures Pow(k) * r[k] <= Val(r)
  {
    hide Val;
    ValSplit(r, k);
    ValBound(r[..k]);
    ValSplit(r[k..], 1);
    ValZeros(r[k..][1..]);
    ValSnoc([], r[k]);
    NoDigits();
    assert r[k..][..1] == [] + [r[k]];
  }

  /** The part of the square that involves one of the first `i` digits. */
  ghost function Squared(x: seq<int>, i: nat): int
    requires i <= |x|
  {
    Val(x) * Val(x) - Pow(2 * i) * (Val(x[i..]) * Val(x[i..]))
  }

  /** A turn of the loop adds the square of digit `i` and its products with all later digits, twice. */
  lemma SquaredNext(x: seq<int>, i: nat)
    requires i < |x|
    ensures Squared(x, i + 1) ==
      Squared(x, i) + Pow(2 * i) * (x[i] * x[i]) + Pow(2 * i + 1) * ((2 * x[i]) * Val(x[i + 1..]))
  {
    var v := Val(x[i + 1..]);
    assert x[i..][1..] == x[i + 1..];
    assert Val(x[i..]) == x[i] + DV * v;
    var p := Pow(2 * i);
    assert Pow(2 * i + 1) == DV * p;
    assert Pow(2 * (i + 1)) == DV * (DV * p);
    hide Val, Pow;
    SquareOfSum(p, x[i], v);
  }

  lemma SquareOfSum(p: int, d: int, v: int)
    ensures p * ((d + DV * v) * (d + DV * v)) == p * (d * d) + (DV * p) * ((2 * d) * v) + (DV * (DV * p)) * (v * v)
  {
    calc {
      (d + DV * v) * (d + DV * v);
      d * (d + DV * v) + (DV * v) * (d + DV * v);
      d * d + DV * (2 * d * v) + DV * DV * (v * v);
    }
    calc {
      p * ((d + DV * v) * (d + DV * v));
      p * (d * d + DV * (2 * d * v) + DV * DV * (v * v));
      p * (d * d) + p * (DV * (2 * d * v)) + p * (DV * DV * (v * v));
      { MulAssoc(p, DV, 2 * d * v); MulAssoc(p, DV * DV, v * v); }
      p * (d * d) + (DV * p) * ((2 * d) * v) + (DV * (DV * p)) * (v * v);
    }
  }

  /** The partial square stays below twice the power of its highest digit, so one overflow unit suffices. */
  lemma SquaredBound(x: seq<int>, i: nat)
    requires i <= |x| && AllDigits(x)
    ensures 0 <= Squared(x, i) < 2 * Pow(i + |x|) || (i == 0 && Squared(x, i) == 0)
  {
    hide Val, Pow;
    var low, high := Val(x[..i]), Val(x[i..]);
    var p := Pow(i);
    ValSplit(x, i);
    ValBound(x[..i]);
    ValBound(x[i..]);
    ValBound(x);
    PowAdd(i, i);
    PowAdd(i, |x|);
    calc {
      Squared(x, i);
      (low + p * high) * (low + p * high) - (p * p) * (high * high);
      { DifferenceOfSquares(low, p, high); }
      low * (low + 2 * (p * high));
    }
    SquaredBoundInts(low, high, p, Pow(|x|));
  }

  lemma SquaredBoundInts(low: int, high: int, p: int, r: int)
    requires 0 <= low < p && 0 <= high && low + p * high < r
    ensures 0 <= low * (low + 2 * (p * high)) < 2 * (p * r)
  {
    MulNonNeg(p, high);
    var y := low + 2 * (p * high);
    HalfProduct(low, y, p, 2 * r);
    assert (p - 1) * (2 * r - 1) == p * (2 * r) - p - 2 * r + 1;
    MulAssoc(p, 2, r);
    MulAssoc(2, p, r);
  }

  lemma DifferenceOfSquares(l: int, p: int, h: int)
    ensures (l + p * h) * (l + p * h) - (p * p) * (h * h) == l * (l + 2 * (p * h))
  {
    var q := p * h;
    assert (p * p) * (h * h) == q * q by {
      assert (p * p) * (h * h) == p * (p * (h * h));
      assert p * (h * h) == q * h;
    }
    assert (l + q) * (l + q) == l * (l + q) + q * (l + q);
  }

  /** One turn of the loop of `squareTo`. */
  method SquareRow(x: seq<int>, r: seq<int>, i: nat) returns (r': seq<int>)
    requires AllDigits(x) && AllDigits(r) && i + 1 < |x| && |r| == 2 * |x|
    requires Val(r) == Squared(x, i) && forall k :: i + |x| < k < |r| ==> r[k] == 0
    ensures |r'| == |r| && AllDigits(r') && Val(r') == Squared(x, i + 1)
    ensures forall k :: i + 1 + |x| < k < |r| ==> r'[k] == 0
  {
    hide Val, Pow, Squared;
    var n := |x|;
    var r1, c := Accumulate(x, i, x[i], r, 2 * i, 0, 1);
    assert x[i..i + 1] == [x[i]];
    ValOne(x[i]);
    var r2, c2 := Accumulate(x, i + 1, 2 * x[i], r1, 2 * i + 1, c, n - i - 1);
    assert x[i + 1..n] == x[i + 1..];
    var t := r2[i + n] + c2;
    SquareRowValue(x, r, r1, r2, i, c, c2);
    ValUpdate(r2, i + n, t);
    TopDigit(r2[i + n := t], i + n);
    SquaredBound(x, i + 1);
    SmallTop(i + n, t, Squared(x, i + 1));
    if t >= DV {
      Overflow(r2, i + n, t);
      r' := r2[i + n := t - DV][i + n + 1 := 1];
    } else {
      r' := r2[i + n := t];
    }
  }

  lemma SmallTop(k: nat, t: int, v: int)
    requires Pow(k) * t <= v < 2 * Pow(k + 1)
    ensures t < 2 * DV
  {
    if t >= 2 * DV {
      MulLe(2 * DV, t, Pow(k));
    }
  }

  lemma SquaredEnds(x: seq<int>)
    ensures Squared(x, 0) == 0 && (x == [] ==> Val(x) * Val(x) == 0)
  {
    assert x[0..] == x;
  }

  lemma LastRow(x: seq<int>, i: nat, v: int, v1: int, c: int)
    requires i + 1 == |x| && v == Squared(x, i) && v1 + Pow(2 * i + 1) * c == v + Pow(2 * i) * (x[i] * x[i])
    ensures v1 + Pow(2 * i + 1) * c == Val(x) * Val(x)
  {
    hide Val, Pow;
    assert x[i..] == [x[i]];
    ValOne(x[i]);
  }

  lemma SquareBelow(n: nat, v: int, t: int)
    requires n > 0 && 0 <= v < Pow(n) && Pow(2 * n - 1) * t <= v * v
    ensures t < DV
  {
    PowAdd(n, n);
    HalfProduct(v, v, Pow(n), Pow(n));
    assert (Pow(n) - 1) * (Pow(n) - 1) == Pow(n) * Pow(n) - 2 * Pow(n) + 1;
    assert v * v < Pow(2 * n) == DV * Pow(2 * n - 1);
    hide Pow;
    if t >= DV {
      MulLe(DV, t, Pow(2 * n - 1));
    }
  }

  lemma SquareRowValue(x: seq<int>, r: seq<int>, r1: seq<int>, r2: seq<int>, i: nat, c: int, c2: int)
    requires i + 1 < |x| && Val(r) == Squared(x, i)
    requires Val(r1) + Pow(2 * i + 1) * c == Val(r) + Pow(2 * i) * (x[i] * x[i])
    requires Val(r2) + Pow(i + |x|) * c2 == Val(r1) + Pow(2 * i + 1) * ((2 * x[i]) * Val(x[i + 1..]) + c)
    ensures Val(r2) + Pow(i + |x|) * c2 == Squared(x, i + 1)
  {
    hide Val, Pow, Squared;
    SquaredNext(x, i);
    var p, v := Pow(2 * i + 1), (2 * x[i]) * Val(x[i + 1..]);
    assert p * (v + c) == p * v + p * c;
  }

  /** The digits of the square of a non-negative number. */
  method SquareDigits(x: seq<int>) returns (r: seq<int>)
    requires AllDigits(x)
    ensures |r| == 2 * |x| && AllDigits(r) && Val(r) == Val(x) * Val(x)
  {
    hide Val, Pow, Squared;
    var n := |x|;
    r := seq(2 * n, _ => 0);
    ValZeros(r);
    SquaredEnds(x);
    var i := 0;
    while i < n - 1
      invariant 0 <= i && (i < n || i == n == 0)
      invariant |r| == 2 * n && AllDigits(r) && Val(r) == Squared(x, i)
      invariant forall k :: i + n < k < |r| ==> r[k] == 0
    {
      r := SquareRow(x, r, i);
      i := i + 1;
    }
    if |r| > 0 {
      var r1, c := Accumulate(x, i, x[i], r, 2 * i, 0, 1);
      assert x[i..i + 1] == [x[i]] && x[i..] == [x[i]];
      ValOne(x[i]);
      var k := |r| - 1;
      var t := r1[k] + c;
      ValUpdate(r1, k, t);
      LastRow(x, i, Val(r), Val(r1), c);
      TopDigit(r1[k := t], k);
      ValBound(x);
      SquareBelow(n, Val(x), t);
      r := r1[k := t];
    }
  }
}
