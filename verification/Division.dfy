/**
 Division of multi-precision integers: schoolbook division of normalised numbers, where each digit of the quotient is
 estimated in double precision and then corrected.  The quotient grows in the digits that the remainder gives up.
 */
module Division {
  import opened Arithmetic
  import opened Bits
  import opened Digits
  import opened Multiply
  import opened Shifts
  import opened BigIntegers
  import opened Doubles
  import opened Estimates

  // ----- the estimate of a digit -----

  /** What is kept of a normalised divisor `y` of `n` digits: its highest digit and its 52 highest bits. */
  ghost predicate Leading(y: int, n: nat, y0: int, yt: int) {
    && n > 0 && 0 < y < Pow(n) && y0 >= E27
    && y0 * Pow(n - 1) <= y < (y0 + 1) * Pow(n - 1)
    && y0 * E24 <= yt < DV * E24 && yt * Pow(n - 1) <= E24 * y
  }

  lemma CancelLess(a: int, b: int, c: int)
    requires c > 0 && a * c < b * c
    ensures a < b
  {
  }

  lemma Regroup(e: int, y: int, q: int, p: int)
    ensures e * (q * (y * p)) == (e * y) * (q * p)
  {
    assert q * (y * p) == y * (q * p);
    MulAssoc(e, y, q * p);
  }

  lemma Regroup2(a: int, b: int, c: int, d: int)
    ensures (a * b) * (c * d) == (c * a) * (b * d)
  {
    assert (a * b) * (c * d) == a * (b * (c * d));
    assert b * (c * d) == c * (b * d);
    assert a * (c * (b * d)) == (a * c) * (b * d);
  }

  /** The digit is not above what the highest digits suggest. */
  lemma DigitBelow(q: int, k: int, yt: int, r: int, y: int, p: int, pj: int)
    requires p >= 1 && pj >= 1 && q >= 0 && yt * p <= E24 * y && q * (y * pj) <= r < (p * pj) * k
    ensures q * yt < k * E24
  {
    MulNonNeg(q, pj);
    MulLe(yt * p, E24 * y, q * pj);
    Regroup(E24, y, q, pj);
    Regroup2(yt, p, q, pj);
    assert (q * yt) * (p * pj) <= E24 * (q * (y * pj)) <= E24 * r;
    assert E24 * ((p * pj) * k) == (k * E24) * (p * pj);
    MulLe(1, p, pj);
    CancelLess(q * yt, k * E24, p * pj);
  }

  /** An estimate is not below the digit. */
  lemma NotBelow(q: int, qd: int, k: int, yt: int)
    requires yt > 0 && q * yt < k * E24 < (qd + 1) * yt
    ensures q <= qd
  {
    CancelLess(q, qd + 1, yt);
  }

  lemma NotAbove(qd: int, a: int, b: int, y0: int, yt: int)
    requires a < y0 && y0 >= E27 && IsDigit(b) && y0 * E24 <= yt && qd * yt <= (a * DV + b + 37) * E24
    ensures qd <= DV
  {
    assert (a * DV + b + 37) * E24 < (DV + 1) * (y0 * E24);
    MulLe(y0 * E24, yt, DV + 1);
    CancelLess(qd, DV + 1, yt);
  }

  lemma LeadingDigit(r: int, a: int, b: int, y: int, y0: int, p: int, pj: int)
    requires p >= 1 && pj >= 1 && b >= 0 && (p * pj) * (b + DV * a) <= r < y * (DV * pj) && y < (y0 + 1) * p
    ensures a <= y0
  {
    var pp := p * pj;
    MulLe(1, p, pj);
    MulLe(y, (y0 + 1) * p, DV * pj);
    Regroup2(y0 + 1, p, DV, pj);
    MulLe(DV * a, b + DV * a, pp);
    CancelLess(DV * a, DV * (y0 + 1), pp);
  }

  lemma DigitBound(r: int, y: int, pj: int, q: int)
    requires y * pj > 0 && 0 <= r < y * (DV * pj) && q == r / (y * pj)
    ensures 0 <= q < DV && q * (y * pj) <= r
  {
    var z := y * pj;
    assert y * (DV * pj) == DV * z;
    Shifts.DropLow(r, z, DV);
    assert r == z * q + r % z;
  }

  /** Below one times the divisor, the highest digit is zero. */
  lemma SmallQuotient(r: int, a: int, b: int, y: int, p: int, pj: int)
    requires p >= 1 && pj >= 1 && b >= 0 && a >= 0 && y < DV * p && (p * pj) * (b + DV * a) <= r < y * pj
    ensures a == 0
  {
    var pp := p * pj;
    MulLe(1, p, pj);
    MulLe(y, DV * p, pj);
    MulAssoc(DV, p, pj);
    MulLe(DV * a, b + DV * a, pp);
    CancelLess(DV * a, DV, pp);
  }

  /** Where the estimate is not zero although the digit is, the next digit of the remainder is not zero. */
  lemma NextNotZero(r: int, b: int, y0: int, yt: int, pp: int, qd: int)
    requires qd >= 1 && qd * yt <= (b + 37) * E24 && y0 * E24 <= yt && y0 >= E27 && pp * b <= r && pp >= 1
    ensures pp <= r
  {
    MulLe(1, qd, yt);
    MulLe(1, b, pp);
  }

  /** What an estimate is made from. */
  ghost predicate Estimated(qd: int, a: int, b: int, y0: int, yt: int) {
    if a == y0 then qd == DM else (a * DV + b + 1) * E24 < (qd + 1) * yt && qd * yt <= (a * DV + b + 37) * E24
  }

  lemma FitsInts(r: int, a: int, b: int, y: int, y0: int, yt: int, p: int, pj: int, q: int, qd: int)
    requires p >= 1 && pj >= 1 && IsDigit(a) && IsDigit(b) && y * pj > 0 && q == r / (y * pj)
    requires y < DV * p && y < (y0 + 1) * p && y0 >= E27 && y0 * E24 <= yt && yt * p <= E24 * y
    requires (p * pj) * (b + DV * a) <= r < (p * pj) * (b + DV * a + 1) && r < y * (DV * pj)
    requires Estimated(qd, a, b, y0, yt)
    ensures 0 <= q <= qd <= DV
    ensures qd >= 1 && q == 0 ==> p * pj <= r
  {
    MulLe(1, p, pj);
    MulNonNeg(p * pj, b + DV * a);
    LeadingDigit(r, a, b, y, y0, p, pj);
    DigitBound(r, y, pj, q);
    if a != y0 {
      DigitBelow(q, b + DV * a + 1, yt, r, y, p, pj);
      NotBelow(q, qd, b + DV * a + 1, yt);
      NotAbove(qd, a, b, y0, yt);
    }
    if q == 0 {
      SmallQuotient(r, a, b, y, p, pj);
      if qd >= 1 {
        NextNotZero(r, b, y0, yt, p * pj, qd);
      }
    }
  }

  /** The highest digit of the remainder is at most that of the divisor. */
  lemma TopAtMost(r: int, a: int, b: int, y: int, n: nat, y0: int, yt: int, j: nat)
    requires Leading(y, n, y0, yt) && IsDigit(b)
    requires Pow(j + n - 1) * (b + DV * a) <= r < y * Pow(j + 1)
    ensures a <= y0 && y0 * E24 <= yt
  {
    hide Pow;
    PowAdd(n - 1, j);
    PowUp(j);
    LeadingDigit(r, a, b, y, y0, Pow(n - 1), Pow(j));
  }

  /** The estimate fits: it is not below the digit and at most the base. */
  lemma Fits(r: int, a: int, b: int, y: int, n: nat, y0: int, yt: int, j: nat, q: int, qd: int)
    requires Leading(y, n, y0, yt) && IsDigit(a) && IsDigit(b) && y * Pow(j) > 0 && q == r / (y * Pow(j))
    requires Pow(j + n - 1) * (b + DV * a) <= r < Pow(j + n - 1) * (b + DV * a + 1) && r < y * Pow(j + 1)
    requires Estimated(qd, a, b, y0, yt)
    ensures 0 <= q <= qd <= DV
    ensures qd >= 1 && q == 0 ==> Pow(j + n - 1) <= r
  {
    hide Pow, Estimated;
    PowAdd(n - 1, j);
    PowUp(j);
    PowUp(n - 1);
    FitsInts(r, a, b, y, y0, yt, Pow(n - 1), Pow(j), q, qd);
  }

  // ----- one digit -----

  /** The number `v` holds the digits of the quotient found so far from position j + n on, and the remainder below. */
  ghost predicate Divided(v: int, x: int, y: int, j: nat, n: nat) {
    v >= 0 && x == (v / Pow(j + n)) * (y * Pow(j)) + v % Pow(j + n) && v % Pow(j + n) < y * Pow(j)
  }

  /** Adding `k` times the complement of the divisor puts `k` on top of the remainder; it stays there iff it is not
      too big. */
  lemma DigitAdded(v: int, h: int, r: int, p: int, pj: int, pn: int, y: int, k: int, q: int)
    requires v == h * (DV * p) + r && p == pn * pj && pj >= 1 && 0 < y < pn && y * pj > 0
    requires 0 <= r < y * (DV * pj) && q == r / (y * pj) && q <= k <= DV && k >= 0
    ensures var low := p * k + r - k * (y * pj);
      && v + k * (pj * (pn - y)) == h * (DV * p) + low && 0 <= low < DV * p
      && (low >= k * p <==> k == q)
  {
    var z := y * pj;
    DigitBound(r, y, pj, q);
    MulLess(y, pn, pj);
    assert pj * (pn - y) == p - z;
    assert y * (DV * pj) == DV * z;
    ComplementInts(r, p, z, k, q);
  }

  lemma ComplementInts(r: int, p: int, z: int, k: int, q: int)
    requires 0 < z < p && 0 <= r < DV * z && q == r / z && 0 <= q <= k <= DV
    ensures k * (p - z) == p * k - k * z
    ensures 0 <= p * k + r - k * z < DV * p && (p * k + r - k * z >= k * p <==> k == q)
  {
    assert k * (p - z) == p * k - k * z;
    MulNonNeg(k, p - z);
    RemainderOf(r, z, k, q);
    if k < DV {
      MulLe(k + 1, DV, p);
      assert (k + 1) * p == p * k + p;
    }
  }

  lemma RemainderOf(r: int, z: int, k: int, q: int)
    requires z > 0 && q == r / z && q <= k
    ensures r - k * z < z && (r >= k * z <==> k == q)
  {
    assert r == q * z + r % z;
    MulLe(q, k, z);
    if k > q {
      MulLe(q + 1, k, z);
    }
  }

  lemma DigitOfSum(v: int, h: int, low: int, p: int)
    requires p > 0 && v == h * (DV * p) + low && 0 <= low < DV * p
    ensures v / p == h * DV + low / p && v % p == low % p && (v / p) % DV == low / p && 0 <= low / p < DV
    ensures v / (DV * p) == h && v % (DV * p) == low
  {
    var q, l := low / p, low % p;
    assert low == p * q + l;
    Shifts.DropLow(low, p, DV);
    assert h * (DV * p) == p * (h * DV);
    DivUnique(v, p, h * DV + q, l);
    DivUnique(h * DV + q, DV, h, q);
    DivUnique(v, DV * p, h, low);
  }

  /** When the digit is right, the quotient has one digit more. */
  lemma RightInts(v': int, x: int, h: int, r: int, p: int, pj: int, y: int, q: int, low: int)
    requires p > 0 && 0 < y * pj < p && q == r / (y * pj) && low == p * q + r - q * (y * pj) && 0 <= low < DV * p
    requires v' == h * (DV * p) + low && x == h * (y * (DV * pj)) + r
    ensures v' / p == h * DV + q && v' % p == r % (y * pj) && x == (v' / p) * (y * pj) + v' % p
  {
    var z := y * pj;
    assert r == z * q + r % z;
    DivUnique(low, p, q, r % z);
    DigitOfSum(v', h, low, p);
    assert h * (y * (DV * pj)) == (h * DV) * z by { assert y * (DV * pj) == DV * z; MulAssoc(h, DV, z); }
    assert (h * DV + q) * z == (h * DV) * z + q * z;
  }

  lemma DigitRight(v: int, v': int, x: int, y: int, j: nat, n: nat, q: int)
    requires Divided(v, x, y, j + 1, n) && 0 < y < Pow(n) && y * Pow(j) > 0
    requires q == (v % Pow(j + 1 + n)) / (y * Pow(j)) && v' == v + q * (Pow(j) * (Pow(n) - y))
    ensures Divided(v', x, y, j, n) && v' / Pow(j + n) == (v / Pow(j + 1 + n)) * DV + q
    ensures v' % Pow(j + n) == (v % Pow(j + 1 + n)) % (y * Pow(j))
  {
    hide Pow;
    var p, pj, pn := Pow(j + n), Pow(j), Pow(n);
    PowAdd(n, j);
    PowUp(j + n);
    PowUp(j);
    var h, r := v / (DV * p), v % (DV * p);
    Recompose(v, DV * p);
    DigitBound(r, y, pj, q);
    DigitAdded(v, h, r, p, pj, pn, y, q, q);
    MulLess(y, pn, pj);
    RightInts(v', x, h, r, p, pj, y, q, p * q + r - q * (y * pj));
  }

  lemma Recompose(v: int, n: int)
    requires n > 0 && v >= 0
    ensures v == (v / n) * n + v % n && 0 <= v % n < n && 0 <= v / n
  {
  }

  // ----- digits of a number -----

  /** The two digits that an estimate is made from. */
  lemma TopDigits(d: seq<int>, i: nat)
    requires AllDigits(d) && 1 <= i < |d|
    ensures Val(d) >= 0
    ensures Pow(i - 1) * (d[i - 1] + DV * d[i]) <= Val(d) % Pow(i + 1) < Pow(i - 1) * (d[i - 1] + DV * d[i] + 1)
  {
    hide Val, Pow;
    LowDigits(d, i + 1);
    var c := d[..i + 1];
    ValSplit(c, i - 1);
    ValBound(c[..i - 1]);
    assert c[i - 1..] == [d[i - 1]] + [d[i]];
    ValSnoc([d[i - 1]], d[i]);
    ValOne(d[i - 1]);
    assert Pow(1) == DV by { PowUp(0); NoDigits(); }
    var k := d[i - 1] + DV * d[i];
    assert Pow(i - 1) * (k + 1) == Pow(i - 1) * k + Pow(i - 1);
  }

  lemma LowDigits(d: seq<int>, n: nat)
    requires AllDigits(d) && n <= |d|
    ensures Val(d) >= 0 && Val(d) % Pow(n) == Val(d[..n]) && Val(d) / Pow(n) == Val(d[n..])
  {
    hide Val, Pow;
    ValBound(d);
    ValSplit(d, n);
    ValBound(d[..n]);
    DivUnique(Val(d), Pow(n), Val(d[n..]), Val(d[..n]));
  }

  lemma DigitOfValue(d: seq<int>, i: nat)
    requires AllDigits(d) && i < |d|
    ensures (Val(d) / Pow(i)) % DV == d[i]
  {
    hide Pow;
    LowDigits(d, i);
    assert d[i..][1..] == d[i + 1..];
    assert Val(d[i..]) == d[i] + DV * Val(d[i + 1..]);
    hide Val;
    DivUnique(Val(d[i..]), DV, Val(d[i + 1..]), d[i]);
  }

  /** A cell that is filled holds the digit of the value. */
  lemma DigitFilled(r: BigInteger, i: nat)
    requires r.Valid() && r.s == 0 && r.Filled(i + 1)
    ensures r.Value() >= 0 && (r.Value() / Pow(i)) % DV == r.digits[i]
  {
    hide Val, Pow;
    var d := r.digits[..r.t];
    ValBound(d);
    if i < r.t {
      DigitOfValue(d, i);
    } else {
      PowMono(r.t, i);
      DivUnique(r.Value(), Pow(i), 0, r.Value());
    }
  }

  /** r_i += am(...): `k` times the complement of the divisor is added in place, and there is no carry beyond digit
      i. */
  method AddRow(r: BigInteger, y: BigInteger, k: int, j: nat)
    requires r != y && r.Valid() && r.s == 0 && y.Valid() && y.s == 0 && r.t > j + y.t && 0 <= k <= DV
    requires r.Value() % Pow(j + y.t + 1) + k * (Pow(j) * y.Value()) < Pow(j + y.t + 1)
    modifies r`digits
    ensures r.Valid() && r.Value() == old(r.Value()) + k * (Pow(j) * y.Value())
  {
    hide Val, Pow;
    var i := j + y.t;
    ghost var d, a := r.digits[..r.t], y.digits[..y.t];
    var w, c := Accumulate(y.digits[..y.t], 0, k, r.digits[..r.t], j, 0, y.t);
    assert a[0..y.t] == a;
    ghost var f := w[i := w[i] + c];
    ValUpdate(w, i, w[i] + c);
    assert Pow(j) * (k * Val(a) + 0) == k * (Pow(j) * Val(a));
    RowFits(d, f, i, k * (Pow(j) * Val(a)));
    r.digits := w[i := w[i] + c] + r.digits[r.t..];
    assert r.digits[..r.t] == f;
  }

  lemma RowFits(d: seq<int>, f: seq<int>, i: nat, added: int)
    requires AllDigits(d) && |f| == |d| > i && Val(f) == Val(d) + added && Val(d) % Pow(i + 1) + added < Pow(i + 1)
    requires (forall k :: 0 <= k < |f| && k != i ==> IsDigit(f[k])) && f[i] >= 0 && f[i + 1..] == d[i + 1..]
    ensures AllDigits(f)
  {
    hide Val, Pow;
    LowDigits(d, i + 1);
    ValSplit(d, i + 1);
    ValSplit(f, i + 1);
    TopDigit(f[..i + 1], i);
    PowUp(i);
    assert Pow(i) * f[i] < Pow(i) * DV;
    CancelLess(f[i], DV, Pow(i));
  }

  // ----- the loop -----

  /** `y` is the complement of the divisor `yv`, with `n` digits. */
  ghost predicate Complement(y: BigInteger, yv: int, n: nat)
    reads y
  {
    y.Valid() && y.s == 0 && y.t == n && y.Value() == Pow(n) - yv && 0 < yv < Pow(n)
  }

  ghost predicate Partial(r: BigInteger, xv: int, yv: int, j: nat, n: nat)
    reads r
  {
    r.Valid() && r.s == 0 && r.t >= j + n && Divided(r.Value(), xv, yv, j, n)
  }

  /** `q` is the next digit of the quotient that `v` holds so far. */
  ghost predicate NextDigit(v: int, xv: int, yv: int, j: nat, n: nat, q: int) {
    && 0 < yv < Pow(n) && Divided(v, xv, yv, j + 1, n)
    && yv * Pow(j) > 0 && 0 <= q == (v % Pow(j + 1 + n)) / (yv * Pow(j))
  }

  /** What `v` becomes when `k` is put on top of the remainder. */
  ghost function Tried(v: int, k: int, yv: int, j: nat, n: nat): int {
    v + k * (Pow(j) * (Pow(n) - yv))
  }

  /** The digit that is then read decides whether `k` is right. */
  lemma DigitTest(v: int, xv: int, yv: int, j: nat, n: nat, q: int, k: int)
    requires NextDigit(v, xv, yv, j, n, q) && q <= k <= DV
    ensures Tried(v, k, yv, j, n) >= 0 && v % Pow(j + n + 1) + k * (Pow(j) * (Pow(n) - yv)) < Pow(j + n + 1)
    ensures (Tried(v, k, yv, j, n) / Pow(j + n)) % DV >= k <==> k == q
  {
    hide Pow;
    var p, pj, pn := Pow(j + n), Pow(j), Pow(n);
    PowAdd(n, j);
    PowUp(j + n);
    PowUp(j);
    var h, r := v / (DV * p), v % (DV * p);
    Recompose(v, DV * p);
    DigitAdded(v, h, r, p, pj, pn, yv, k, q);
    var low := p * k + r - k * (yv * pj);
    MulNonNeg(h, DV * p);
    DigitOfSum(Tried(v, k, yv, j, n), h, low, p);
    AtLeastTimes(low, p, k);
  }

  lemma AtLeastTimes(low: int, p: int, k: int)
    requires p > 0
    ensures low / p >= k <==> low >= k * p
  {
    var q := low / p;
    assert low == q * p + low % p;
    if q >= k {
      MulLe(k, q, p);
    } else {
      MulLe(q + 1, k, p);
    }
  }

  /** After a correction there is still a digit for the next estimate. */
  lemma NotTooSmall(v: int, v': int, xv: int, yv: int, j: nat, n: nat, q: int)
    requires NextDigit(v, xv, yv, j, n, q) && n > 0
    requires v' == Tried(v, q, yv, j, n) && (q == 0 ==> Pow(j + n - 1) <= v % Pow(j + n + 1))
    ensures Divided(v', xv, yv, j, n) && Pow(j + n - 1) <= v'
  {
    hide Pow;
    DigitRight(v, v', xv, yv, j, n, q);
    PowMono(j + n - 1, j + n);
    Recompose(v, Pow(j + n + 1));
    Recompose(v', Pow(j + n));
    AtLeastPower(v' / Pow(j + n), v' % Pow(j + n), Pow(j + n), v / Pow(j + n + 1), v % Pow(j + n + 1), q, yv * Pow(j));
  }

  lemma AtLeastPower(h': int, l': int, p: int, h: int, r: int, q: int, z: int)
    requires h' == h * DV + q && z > 0 && l' == r % z && q == r / z && q >= 0 && h >= 0 && p > 0
    ensures h' * p + l' >= p || (q == 0 && l' == r && h' * p + l' >= l')
  {
    if h' >= 1 {
      MulLe(1, h', p);
    } else {
      assert q == 0 && h' == 0;
      assert r == z * q + r % z;
    }
  }

  lemma LongerThan(v: int, t: nat, k: nat)
    requires Pow(k) <= v < Pow(t)
    ensures t > k
  {
    if t <= k {
      PowMono(t, k);
    }
  }

  lemma LongEnough(r: BigInteger, v: int, xv: int, yv: int, j: nat, n: nat, q: int)
    requires NextDigit(v, xv, yv, j, n, q) && r.Valid() && r.Clamped() && r.s == 0 && n > 0
    requires r.Value() == Tried(v, q, yv, j, n) && (q == 0 ==> Pow(j + n - 1) <= v % Pow(j + n + 1))
    ensures Partial(r, xv, yv, j, n)
  {
    hide Pow, Val, Tried, Divided;
    NotTooSmall(v, r.Value(), xv, yv, j, n, q);
    r.Magnitude();
    LongerThan(r.Value(), r.t, j + n - 1);
  }

  /** Takes back one after the other what an estimate was too big. */
  method Correct(r: BigInteger, y: BigInteger, t: BigInteger, j: nat, n: nat, k0: int,
                 ghost v: int, ghost xv: int, ghost yv: int, ghost q: int)
    requires r != t && r != y && y != t && Complement(y, yv, n) && n > 0
    requires NextDigit(v, xv, yv, j, n, q) && q < k0 <= DV && (q == 0 ==> Pow(j + n - 1) <= v % Pow(j + n + 1))
    requires r.Valid() && r.s == 0 && r.t > j + n && r.Value() == Tried(v, k0, yv, j, n)
    modifies r, t
    ensures Partial(r, xv, yv, j, n)
  {
    hide Pow, Val, NextDigit, Partial, Signed;
    var k, i := k0 - 1, j + n;
    DigitTest(v, xv, yv, j, n, q, k);
    TriedLess(v, k, yv, j, n);
    y.DlShiftTo(j, t);
    r.SubTo(t, r);
    SignValue(r.digits[..r.t], r.s);
    DigitFilled(r, i);
    while r.digits[i] < k
      invariant q <= k < k0 && r.Valid() && r.Clamped() && r.s == 0 && r.Value() == Tried(v, k, yv, j, n)
      invariant t.Valid() && t.t == i && t.Value() == Pow(j) * (Pow(n) - yv)
      invariant r.Filled(i + 1) && (r.Value() / Pow(i)) % DV == r.digits[i]
      decreases k
    {
      DigitTest(v, xv, yv, j, n, q, k);
      k := k - 1;
      DigitTest(v, xv, yv, j, n, q, k);
      TriedLess(v, k, yv, j, n);
      r.SubTo(t, r);
      SignValue(r.digits[..r.t], r.s);
      DigitFilled(r, i);
    }
    DigitTest(v, xv, yv, j, n, q, k);
    LongEnough(r, v, xv, yv, j, n, q);
  }

  lemma TriedLess(v: int, k: int, yv: int, j: nat, n: nat)
    ensures Tried(v, k + 1, yv, j, n) - Pow(j) * (Pow(n) - yv) == Tried(v, k, yv, j, n)
  {
    hide Pow;
    var c := Pow(j) * (Pow(n) - yv);
    assert (k + 1) * c == k * c + c;
  }

  /** Estimates the next digit from the two highest digits of the remainder. */
  method PickDigit(r: BigInteger, j: nat, n: nat, y0: int, d1: real, d2: real, ghost xv: int, ghost yv: int,
                   ghost yt: int)
    returns (k: int, ghost q: int)
    requires Leading(yv, n, y0, yt) && Ratios(d1, d2, yt) && Partial(r, xv, yv, j + 1, n)
    ensures NextDigit(r.Value(), xv, yv, j, n, q) && 0 <= q <= k <= DV
    ensures k >= 1 && q == 0 ==> Pow(j + n - 1) <= r.Value() % Pow(j + n + 1)
  {
    hide Pow, Val, Signed, Estimated, NextDigit, Leading, Divided, Ratios, Tried;
    LeadingPositive(yv, n, y0, yt);
    DividedBound(r.Value(), xv, yv, j + 1, n);
    q := TheDigit(r.Value(), xv, yv, j, n);
    ghost var d := r.digits[..r.t];
    assert r.Value() == Val(d) by { Unsigned(d); }
    TopDigits(d, j + n);
    var a, b := r.digits[j + n], r.digits[j + n - 1];
    TopAtMost(r.Value() % Pow(j + n + 1), a, b, yv, n, y0, yt, j);
    k := TryDigit(a, b, y0, d1, d2, yt);
    Fits(r.Value() % Pow(j + n + 1), a, b, yv, n, y0, yt, j, q, k);
  }

  lemma Unsigned(d: seq<int>)
    ensures Signed(d, 0) == Val(d)
  {
  }

  /** One turn of the loop. */
  method Step(r: BigInteger, y: BigInteger, t: BigInteger, j: nat, n: nat, y0: int, d1: real, d2: real,
              ghost xv: int, ghost yv: int, ghost yt: int)
    requires r != t && r != y && y != t && Complement(y, yv, n) && Leading(yv, n, y0, yt)
    requires Ratios(d1, d2, yt) && Partial(r, xv, yv, j + 1, n)
    modifies r, t
    ensures Partial(r, xv, yv, j, n)
  {
    hide Pow, Val, Signed, NextDigit, Leading, Divided, Ratios, Tried;
    ghost var v := r.Value();
    LeadingPositive(yv, n, y0, yt);
    var k;
    ghost var q;
    k, q := PickDigit(r, j, n, y0, d1, d2, xv, yv, yt);
    DigitTest(v, xv, yv, j, n, q, k);
    AddRow(r, y, k, j);
    TriedIs(v, k, yv, j, n);
    DigitFilled(r, j + n);
    if r.digits[j + n] < k {
      Correct(r, y, t, j, n, k, v, xv, yv, q);
    } else {
      KeptDigit(v, r.Value(), xv, yv, j, n, q);
    }
  }

  lemma KeptDigit(v: int, v': int, xv: int, yv: int, j: nat, n: nat, q: int)
    requires NextDigit(v, xv, yv, j, n, q) && v' == Tried(v, q, yv, j, n)
    ensures Divided(v', xv, yv, j, n)
  {
    hide Pow;
    DigitRight(v, v', xv, yv, j, n, q);
  }

  lemma LeadingPositive(yv: int, n: nat, y0: int, yt: int)
    requires Leading(yv, n, y0, yt)
    ensures n > 0 && 0 < yv < Pow(n)
  {
  }

  lemma DividedBound(v: int, xv: int, yv: int, j: nat, n: nat)
    requires Divided(v, xv, yv, j, n)
    ensures v % Pow(j + n) < yv * Pow(j)
  {
  }

  lemma TriedIs(v: int, k: int, yv: int, j: nat, n: nat)
    ensures Tried(v, k, yv, j, n) == v + k * (Pow(j) * (Pow(n) - yv))
  {
  }

  method TryDigit(a: int, b: int, y0: int, d1: real, d2: real, ghost yt: int) returns (k: int)
    requires Ratios(d1, d2, yt) && IsDigit(a) && IsDigit(b) && a <= y0 && y0 * E24 <= yt
    ensures Estimated(k, a, b, y0, yt)
  {
    if a == y0 {
      k := DM;
    } else {
      k := Estimate(a, b, d1, d2, yt);
    }
  }

  lemma TheDigit(v: int, xv: int, yv: int, j: nat, n: nat) returns (q: int)
    requires 0 < yv < Pow(n) && Divided(v, xv, yv, j + 1, n)
    ensures yv * Pow(j) > 0 && q == (v % Pow(j + 1 + n)) / (yv * Pow(j)) && NextDigit(v, xv, yv, j, n, q)
  {
    hide Pow;
    MulLe(1, yv, Pow(j));
    PowUp(j);
    Recompose(v, Pow(j + 1 + n));
    q := (v % Pow(j + 1 + n)) / (yv * Pow(j));
    DigitBound(v % Pow(j + 1 + n), yv, Pow(j), q);
  }

  // ----- normalising -----

  /** The divisor has its highest bit set. */
  ghost predicate Normal(y: BigInteger)
    reads y
  {
    y.Valid() && y.s == 0 && y.t > 0 && y.digits[y.t - 1] >= E27
  }

  lemma NormalValue(y: BigInteger)
    requires Normal(y)
    ensures E27 * Pow(y.t - 1) <= y.Value() < Pow(y.t) <= 2 * y.Value() && y.Clamped()
  {
    hide Val, Pow;
    TopOf(y.digits[..y.t]);
    PowUp(y.t - 1);
    MulLe(E27, y.digits[y.t - 1], Pow(y.t - 1));
    ValBound(y.digits[..y.t]);
  }

  lemma TopOf(d: seq<int>)
    requires AllDigits(d) && d != []
    ensures d[|d| - 1] * Pow(|d| - 1) <= Val(d) < (d[|d| - 1] + 1) * Pow(|d| - 1)
  {
    hide Val, Pow;
    var n := |d| - 1;
    assert d == d[..n] + [d[n]];
    ValSnoc(d[..n], d[n]);
    ValBound(d[..n]);
  }

  /** A number of the size of a normalised one is normalised. */
  lemma NormalFrom(y: BigInteger, n: nat)
    requires y.Valid() && y.Clamped() && n > 0 && E27 * Pow(n - 1) <= y.Value() < Pow(n)
    ensures Normal(y) && y.t == n
  {
    hide Val, Pow;
    MulNonNeg(E27, Pow(n - 1));
    SignValue(y.digits[..y.t], y.s);
    y.Magnitude();
    MulLe(1, E27, Pow(n - 1));
    LongerThan(y.Value(), y.t, n - 1);
    LongerThan(y.Value(), n, y.t - 1);
    TopOf(y.digits[..y.t]);
    CancelLess(E27, y.digits[n - 1] + 1, Pow(n - 1));
  }

  /** The shift that makes the highest bit of the divisor the highest bit of its digit. */
  lemma ShiftNormalises(v: int, top: int, bits: nat, n: nat)
    requires 1 <= bits <= 28 && n > 0 && Two(bits - 1) <= top < Two(bits)
    requires top * Pow(n - 1) <= v < (top + 1) * Pow(n - 1)
    ensures E27 * Pow(n - 1) <= v * Two(28 - bits) < Pow(n)
  {
    hide Pow, Two;
    TwoAdd(bits - 1, 28 - bits);
    TwoAdd(bits, 28 - bits);
    TwoDoubles(27);
    Two28();
    PowUp(n - 1);
    var c, p := Two(28 - bits), Pow(n - 1);
    MulLe(Two(bits - 1), top, p);
    MulLe(Two(bits - 1) * p, v, c);
    assert (Two(bits - 1) * p) * c == E27 * p;
    MulLe(top + 1, Two(bits), p);
    MulLess(v, Two(bits) * p, c);
    assert c * (Two(bits) * p) == DV * p;
  }

  /** y = pm * 2^nsh with its highest bit set, and r = pt * 2^nsh. */
  method Normalise(pm: BigInteger, pt: BigInteger, y: BigInteger, r: BigInteger) returns (nsh: nat)
    requires pm.Valid() && pm.Clamped() && pm.s == 0 && pm.t > 0 && pt.Valid() && pt.s == 0 && pt.t >= pm.t
    requires pt.Clamped() || pt.Value() == 0
    requires y != pm && y != pt && y != r
    modifies y, r
    ensures Normal(y) && y.t == old(pm.t) && y.Value() == old(pm.Value()) * Two(nsh)
    ensures r.Valid() && r.s == 0 && r.Value() == old(pt.Value()) * Two(nsh)
    ensures r.t >= y.t || (r.t == 0 && r.Filled(y.t) && nsh > 0)
  {
    hide Val, Pow, Two;
    ghost var v, w := pm.Value(), pt.Value();
    ghost var long := pt.t;
    var bits := NBits(pm.digits[pm.t - 1]);
    TopDigitBits(pm.digits[pm.t - 1], bits);
    TopOf(pm.digits[..pm.t]);
    ShiftNormalises(v, pm.digits[pm.t - 1], bits, pm.t);
    nsh := 28 - bits;
    StaysLong(pt, nsh);
    SignValue(pt.digits[..pt.t], pt.s);
    MulNonNeg(w, Two(nsh));
    ghost var n := pm.t;
    if nsh > 0 {
      pm.LShiftTo(nsh, y);
      pt.LShiftTo(nsh, r);
      SignValue(r.digits[..r.t], r.s);
      r.Magnitude();
      if w > 0 {
        LongerThan(r.Value(), r.t, long - 1);
      } else {
        NoLength(r);
      }
    } else {
      TimesOne(v);
      TimesOne(w);
      pm.CopyTo(y);
      pt.CopyTo(r);
    }
    NormalFrom(y, n);
  }

  lemma StaysLong(x: BigInteger, nsh: nat)
    requires x.Valid() && x.s == 0 && (x.Clamped() || x.Value() == 0) && x.t > 0
    ensures x.Value() > 0 ==> Pow(x.t - 1) <= x.Value() * Two(nsh)
  {
    hide Val, Pow, Two;
    if x.Value() > 0 {
      x.Magnitude();
      MulLe(1, Two(nsh), x.Value());
    }
  }

  lemma NoLength(r: BigInteger)
    requires r.Valid() && r.Clamped() && r.s == 0 && r.Value() <= 0
    ensures r.t == 0
  {
    hide Val, Pow;
    r.Magnitude();
  }

  // ----- division -----

  /** The state in which the loop is entered; with j < 0 the dividend is zero and a one is left in its place. */
  ghost predicate Started(r: BigInteger, xv: int, yv: int, j: int, n: nat)
    reads r
  {
    if j >= 0 then Partial(r, xv, yv, j, n) else r.Valid() && r.s == 0 && r.Value() == 1 && r.Filled(n) && r.t <= n
  }

  /** The digit above all others is one or zero. */
  method FirstDigit(r: BigInteger, y: BigInteger, t: BigInteger) returns (j: int)
    requires r != y && y != t && r != t && Normal(y) && r.Valid() && r.s == 0
    requires r.t >= y.t || (r.t == 0 && r.Filled(y.t))
    modifies r, t
    ensures j == old(r.t) - y.t && Started(r, old(r.Value()), y.Value(), j, y.t)
  {
    hide Val, Pow, Signed, Divided;
    j := r.t - y.t;
    ghost var x, yv, i := r.Value(), y.Value(), r.t;
    NormalValue(y);
    Unsigned(r.digits[..r.t]);
    ValBound(r.digits[..r.t]);
    y.DlShiftTo(j, t);
    var c := r.CompareTo(t);
    if j >= 0 {
      FirstBound(x, yv, j, y.t);
    } else {
      EmptyValues(r, t);
    }
    if c >= 0 {
      PutOne(r);
      r.SubTo(t, r);
      SignValue(r.digits[..r.t], r.s);
      if j >= 0 {
        r.Magnitude();
        LongerThan(r.Value(), r.t, i);
      } else {
        r.Magnitude();
        OneDigitLong(r);
      }
    }
  }

  lemma EmptyValues(r: BigInteger, t: BigInteger)
    requires r.Valid() && t.Valid() && r.t == t.t == 0 && r.s == t.s == 0
    ensures r.Value() == 0 && t.Value() == 0 && Pow(0) == 1
  {
    NoDigits();
  }

  lemma OneDigitLong(r: BigInteger)
    requires r.Valid() && r.Clamped() && r.s == 0 && r.Value() == 1
    ensures r.t == 1
  {
    hide Val, Pow;
    r.Magnitude();
    NoDigits();
    PowUp(0);
    if r.t > 1 {
      PowMono(1, r.t - 1);
    }
  }

  /** The cell above the digits becomes one. */
  method PutOne(r: BigInteger)
    requires r.Valid() && r.s == 0
    modifies r
    ensures r.Valid() && r.s == 0 && r.t == old(r.t) + 1 && r.Value() == old(r.Value()) + Pow(old(r.t))
    ensures |old(r.digits)| <= |r.digits| && forall k :: r.t <= k < |old(r.digits)| ==> r.digits[k] == old(r.digits)[k]
  {
    hide Val, Pow;
    ghost var d := r.digits[..r.t];
    r.digits := Put(r.digits, r.t, 1);
    r.t := r.t + 1;
    assert r.digits[..r.t] == d + [1];
    ValSnoc(d, 1);
  }

  lemma FirstBound(x: int, y: int, j: nat, n: nat)
    requires 0 <= x < Pow(j + n) && 0 < y < Pow(n) <= 2 * y
    ensures x < Pow(j) * y ==> Divided(x, x, y, j, n)
    ensures x >= Pow(j) * y ==>
      Divided(x + Pow(j + n) - Pow(j) * y, x, y, j, n) && x + Pow(j + n) - Pow(j) * y >= Pow(j + n)
  {
    hide Pow;
    PowAdd(j, n);
    MulLess(y, Pow(n), Pow(j));
    MulLe(Pow(n), 2 * y, Pow(j));
    FirstInts(x, Pow(j) * y, Pow(j + n), y * Pow(j));
  }

  lemma FirstInts(x: int, z: int, p: int, z': int)
    requires 0 <= x < p && 0 < z < p <= 2 * z && z' == z
    ensures x < z ==> x == (x / p) * z' + x % p && x % p < z'
    ensures x >= z ==> x == ((x + p - z) / p) * z' + (x + p - z) % p && (x + p - z) % p < z' && x + p - z >= p
  {
    if x < z {
      DivUnique(x, p, 0, x);
    } else {
      DivUnique(x + p - z, p, 1, x - z);
    }
  }

  /** Zeros up to length n. */
  method Pad(x: BigInteger, n: nat)
    requires x.Valid() && x.s == 0
    modifies x
    ensures x.Valid() && x.s == 0 && x.t == Longer(old(x.t), n) && x.Value() == old(x.Value())
    ensures forall k :: old(x.t) <= k < x.t ==> x.digits[k] == 0
  {
    hide Val, Pow;
    while x.t < n
      invariant x.Valid() && x.s == 0 && old(x.t) <= x.t <= Longer(old(x.t), n) && x.Value() == old(x.Value())
      invariant forall k :: old(x.t) <= k < x.t ==> x.digits[k] == 0
      decreases n - x.t
    {
      ghost var d := x.digits[..x.t];
      x.digits := Put(x.digits, x.t, 0);
      x.t := x.t + 1;
      assert x.digits[..x.t] == d + [0];
      ValSnoc(d, 0);
      Unsigned(d);
      Unsigned(d + [0]);
    }
  }

  /** y = DV^n - y, on as many digits. */
  method Negate(y: BigInteger, t: BigInteger)
    requires Normal(y) && y != t
    modifies y, t
    ensures Complement(y, old(y.Value()), old(y.t))
  {
    hide Val, Pow;
    NormalValue(y);
    var n := y.t;
    var one := NewValue(1);
    one.DlShiftTo(n, t);
    t.SubTo(y, y);
    SignValue(y.digits[..y.t], y.s);
    y.Magnitude();
    NotLonger(y, n);
    Pad(y, n);
  }

  lemma NotLonger(y: BigInteger, n: nat)
    requires y.Valid() && y.Clamped() && y.s == 0 && y.Value() < Pow(n)
    ensures y.t <= n
  {
    hide Val, Pow;
    y.Magnitude();
    if y.t > 0 {
      LongerThan(y.Value(), n, y.t - 1);
    }
  }

  /** The highest digit of the divisor, its 52 highest bits as a number, and the two ratios. */
  method Lead(y: BigInteger) returns (y0: int, d1: real, d2: real, ghost yt: int)
    requires Normal(y)
    ensures Leading(y.Value(), y.t, y0, yt) && Ratios(d1, d2, yt)
  {
    hide Val, Pow;
    var n := y.t;
    y0 := y.digits[n - 1];
    var w := y0 * E24 + if n > 1 then Shr(y.digits[n - 2], 16) else 0;
    UnitRange(w);
    d1, d2 := Double(E52 / w as real), Double(D24 / w as real);
    yt := w;
    NormalValue(y);
    TopOf(y.digits[..n]);
    LeadInts(y.digits[..n]);
  }

  lemma LeadInts(d: seq<int>)
    requires AllDigits(d) && d != []
    ensures var n := |d|; var yt := d[n - 1] * E24 + (if n > 1 then d[n - 2] / 16 else 0);
      yt * Pow(n - 1) <= E24 * Val(d)
  {
    hide Val, Pow;
    var n := |d|;
    if n == 1 {
      assert d == [d[0]];
      ValOne(d[0]);
      NoDigits();
    } else {
      TopTwo(d);
      PowUp(n - 2);
      LeadProducts(d[n - 1], d[n - 2], Pow(n - 2), Pow(n - 1), Val(d));
    }
  }

  lemma TopTwo(d: seq<int>)
    requires AllDigits(d) && |d| >= 2
    ensures Pow(|d| - 2) * (d[|d| - 2] + DV * d[|d| - 1]) <= Val(d)
  {
    hide Val, Pow;
    var n := |d|;
    ValSplit(d, n - 2);
    ValBound(d[..n - 2]);
    assert d[n - 2..] == [d[n - 2]] + [d[n - 1]];
    ValSnoc([d[n - 2]], d[n - 1]);
    ValOne(d[n - 2]);
    PowUp(0);
    NoDigits();
  }

  lemma LeadProducts(a: int, b: int, p: int, q: int, w: int)
    requires p >= 1 && q == DV * p && p * (b + DV * a) <= w
    ensures (a * E24 + b / 16) * q <= E24 * w
  {
    var yt, v := a * E24 + b / 16, b + DV * a;
    MulLe(DV * yt, E24 * v, p);
    assert yt * (DV * p) == (DV * yt) * p;
    assert E24 * (p * v) == (E24 * v) * p;
  }

  ghost function Abs(x: int): int {
    if x < 0 then -x else x
  }

  /** The quotient rounded towards zero. */
  ghost function Quotient(x: int, m: int): int
    requires m != 0
  {
    var q := Abs(x) / Abs(m);
    if (x < 0) == (m < 0) then q else -q
  }

  /** The remainder with the sign of the dividend. */
  ghost function Remainder(x: int, m: int): int
    requires m != 0
  {
    var r := Abs(x) % Abs(m);
    if x < 0 then -r else r
  }

  /** They are what division means. */
  lemma QuotientAndRemainder(x: int, m: int)
    requires m != 0
    ensures x == Quotient(x, m) * m + Remainder(x, m) && Abs(Remainder(x, m)) < Abs(m)
    ensures if x >= 0 then Remainder(x, m) >= 0 else Remainder(x, m) <= 0
  {
    var q, r := Abs(x) / Abs(m), Abs(x) % Abs(m);
    assert Abs(x) == Abs(m) * q + r;
    assert (-q) * m == -(q * m) && q * -m == -(q * m);
  }

  /** The remainder and the quotient, from the end of the loop. */
  lemma Denormalise(v: int, x: int, y: int, c: int, n: nat)
    requires x >= 0 && y > 0 && c > 0 && Divided(v, x * c, y * c, 0, n)
    ensures v / Pow(n) == x / y && v % Pow(n) == (x % y) * c
  {
    hide Pow;
    NoDigits();
    var q, r := x / y, x % y;
    assert x == y * q + r;
    assert x * c == (y * c) * q + r * c by { assert (y * q) * c == (y * c) * q; }
    MulLess(r, y, c);
    MulNonNeg(r, c);
    MulLess(0, y, c);
    DivUnique(x * c, y * c, q, r * c);
    var h, l := v / Pow(n), v % Pow(n);
    assert (y * c) * 1 == y * c;
    assert h * (y * c) == (y * c) * h;
    Recompose(v, Pow(n));
    DivUnique(x * c, y * c, h, l);
  }

  /** From the normalised numbers to the quotient, in the digits of `r` from the length of the divisor on, and the
      remainder below them. */
  method Divide(r: BigInteger, y: BigInteger, t: BigInteger)
    requires r != y && y != t && r != t && Normal(y) && r.Valid() && r.s == 0
    requires r.t >= y.t || (r.t == 0 && r.Filled(y.t))
    modifies r, y, t
    ensures r.Valid() && r.s == 0 && r.Filled(old(y.t))
    ensures if old(r.t) >= old(y.t) then Partial(r, old(r.Value()), old(y.Value()), 0, old(y.t)) else r.Value() == 1
  {
    hide Val, Pow, Partial, Leading, Ratios;
    var n := y.t;
    var y0, d1, d2;
    ghost var yt;
    y0, d1, d2, yt := Lead(y);
    ghost var xv, yv := r.Value(), y.Value();
    var j := FirstDigit(r, y, t);
    Negate(y, t);
    while j > 0
      invariant Started(r, xv, yv, j, n) && Complement(y, yv, n) && (j >= 0 <==> old(r.t) >= n)
      decreases j
    {
      j := j - 1;
      Step(r, y, t, j, n, y0, d1, d2, xv, yv, yt);
    }
    StartedFilled(r, xv, yv, j, n);
  }

  lemma StartedFilled(r: BigInteger, xv: int, yv: int, j: int, n: nat)
    requires Started(r, xv, yv, j, n)
    ensures r.Valid() && r.s == 0 && r.Filled(n)
  {
  }

  /** Keeps the `n` lowest digits. */
  method Truncate(r: BigInteger, n: nat)
    requires r.Valid() && r.s == 0 && r.Filled(n)
    modifies r`t
    ensures r.Valid() && r.s == 0 && r.Clamped() && r.Value() == old(r.Value()) % Pow(n)
  {
    hide Val, Pow;
    ghost var d, t := r.digits[..r.t], r.t;
    Unsigned(d);
    if t < n {
      ValBound(d);
      PowMono(t, n);
      DivUnique(Val(d), Pow(n), 0, Val(d));
      ghost var z := r.digits[t..n];
      assert r.digits[..n] == d + z;
      ValConcat(d, z);
      ValZeros(z);
    } else {
      LowDigits(d, n);
      assert d[..n] == r.digits[..n];
    }
    r.t := n;
    Unsigned(r.digits[..n]);
    r.Clamp();
  }

  /** What the end of the loop leaves in `r`. */
  ghost predicate Found(v: int, x: int, m: int, c: int, n: nat) {
    c > 0 && m > 0 && v / Pow(n) == x / m && (v % Pow(n)) / c == x % m
  }

  lemma IsFound(r: BigInteger, x: int, m: int, nsh: nat, n: nat)
    requires x >= 0 && m > 0 && n > 0
    requires || Partial(r, x * Two(nsh), m * Two(nsh), 0, n)
             || (r.Valid() && r.Value() == 1 && x == 0 && nsh > 0)
    ensures Found(r.Value(), x, m, Two(nsh), n)
  {
    hide Val, Pow, Two;
    var c := Two(nsh);
    if Partial(r, x * c, m * c, 0, n) {
      Denormalise(r.Value(), x, m, c, n);
      DivUnique((x % m) * c, c, x % m, 0);
    } else {
      PowUp(n - 1);
      TwoEven(nsh);
      DivUnique(1, Pow(n), 0, 1);
      DivUnique(1, c, 0, 1);
      DivUnique(0, m, 0, 0);
    }
  }

  /** The digits from `n` on become the quotient; the `n` lowest digits, shifted back, become the remainder. */
  method Deliver(r: BigInteger, q: BigInteger?, n: nat, nsh: nat, ts: int, ms: int, ghost x: int, ghost m: int)
    requires r.Valid() && r.s == 0 && r.Filled(n) && q != r && m != 0
    requires (ts < 0 <==> x < 0) && (ts == ms <==> ((x < 0) == (m < 0)))
    requires Found(r.Value(), Abs(x), Abs(m), Two(nsh), n)
    modifies r, q
    ensures r.Valid() && r.Clamped() && r.Value() == Remainder(x, m)
    ensures q != null ==> q.Valid() && q.Value() == Quotient(x, m)
  {
    hide Val, Pow, Two, Signed;
    var zero := new BigInteger();
    if q != null {
      r.DrShiftTo(n, q);
      if ts != ms {
        zero.SubTo(q, q);
      }
    }
    Truncate(r, n);
    if nsh > 0 {
      r.RShiftTo(nsh, r);
    } else {
      OverOne(r.Value());
    }
    if ts < 0 {
      zero.SubTo(r, r);
    }
  }

  lemma NoDivisor(m: BigInteger)
    requires m.Valid() && m.Clamped() && m.s == 0
    ensures m.t == 0 <==> m.Value() == 0
  {
    hide Val, Pow;
    m.Magnitude();
    NoDigits();
  }

  lemma ShortDividend(x: BigInteger, m: BigInteger)
    requires x.Valid() && m.Valid() && x.s == m.s == 0 && m.Clamped() && x.t < m.t
    ensures 0 <= x.Value() < m.Value() && x.Value() / m.Value() == 0 && x.Value() % m.Value() == x.Value()
  {
    hide Val, Pow;
    m.Magnitude();
    Unsigned(x.digits[..x.t]);
    ValBound(x.digits[..x.t]);
    PowMono(x.t, m.t - 1);
    DivUnique(x.Value(), m.Value(), 0, x.Value());
  }

  /** The first number has fewer digits than the second one. */
  ghost predicate FewerDigits(x: int, m: int) {
    exists k: nat :: Abs(x) < Pow(k) <= Abs(m)
  }

  lemma FewerDigitsIff(x: BigInteger, m: BigInteger, xv: int, mv: int)
    requires x.Valid() && x.s == 0 && (x.Clamped() || x.Value() == 0) && m.Valid() && m.Clamped() && m.s == 0 && m.t > 0
    requires x.Value() == Abs(xv) && m.Value() == Abs(mv)
    ensures x.t < m.t ==> FewerDigits(xv, mv)
    ensures x.t >= m.t && x.Value() > 0 ==> !FewerDigits(xv, mv)
  {
    hide Val, Pow, Signed;
    m.Magnitude();
    if x.t < m.t {
      ShortDividend(x, m);
      ShortBelow(x, m.t - 1);
    } else if x.Value() > 0 {
      x.Magnitude();
      PowMono(m.t, x.t);
      forall k: nat
        ensures !(Abs(xv) < Pow(k) <= Abs(mv))
      {
        if k < x.t {
          PowMono(k, x.t - 1);
        } else {
          PowMono(x.t, k);
        }
      }
    }
  }

  lemma ShortBelow(x: BigInteger, k: nat)
    requires x.Valid() && x.s == 0 && x.t <= k
    ensures x.Value() < Pow(k)
  {
    hide Val, Pow;
    Unsigned(x.digits[..x.t]);
    ValBound(x.digits[..x.t]);
    PowMono(x.t, k);
  }

  /** q = x / m and r = x % m, rounded towards zero; either may be missing, and r may be x or m, and so may q.  Nothing
      happens if m is zero.  The dividend has no superfluous digits or is zero.  If it has fewer digits than the divisor
      and the quotient is written to it, the remainder is taken from the quotient and so is zero. */
  method DivRemTo(x: BigInteger, m: BigInteger, q: BigInteger?, r0: BigInteger?)
    requires x.Valid() && m.Valid() && m.Clamped() && (x.Clamped() || x.Value() == 0) && (q == null || q != r0)
    modifies q, r0
    ensures old(m.Value()) == 0 ==> (q != null ==> unchanged(q)) && (r0 != null ==> unchanged(r0))
    ensures old(m.Value()) != 0 && q != null ==> q.Valid() && q.Value() == Quotient(old(x.Value()), old(m.Value()))
    ensures old(m.Value()) != 0 && r0 != null ==>
      && r0.Valid()
      && r0.Value() == if q == x && FewerDigits(old(x.Value()), old(m.Value())) then 0
                       else Remainder(old(x.Value()), old(m.Value()))
    ensures old(m.Value()) != 0 && r0 != null && (old(x.Clamped()) || old(m.s == 0 && m.t <= x.t)) ==> r0.Clamped()
  {
    hide Val, Pow, Two, Signed, FewerDigits, Quotient, Remainder;
    var pm := m.Abs();
    NoDivisor(pm);
    if pm.t <= 0 {
      return;
    }
    var pt := x.Abs();
    FewerDigitsIff(pt, pm, x.Value(), m.Value());
    if pt.t < pm.t {
      ShortDividend(pt, pm);
      ShortValues(x.Value(), m.Value());
      ShortDivision(x, q, r0);
    } else {
      NothingRemains(m.Value());
      LongDivision(x, m, pt, pm, q, r0);
    }
  }

  lemma ShortValues(x: int, m: int)
    requires Abs(x) < Abs(m)
    ensures Quotient(x, m) == 0 && Remainder(x, m) == x
  {
    DivUnique(Abs(x), Abs(m), 0, Abs(x));
  }

  /** With the quotient written to the dividend, the remainder is right unless the dividend has fewer digits than the
      divisor and is not zero. */
  lemma RemainderLost(x: int, m: int)
    requires m != 0
    ensures (if FewerDigits(x, m) then 0 else Remainder(x, m)) == Remainder(x, m) <==> !FewerDigits(x, m) || x == 0
  {
    hide Pow;
    if FewerDigits(x, m) {
      ShortValues(x, m);
    }
  }

  lemma NothingRemains(m: int)
    requires m != 0
    ensures Remainder(0, m) == 0
  {
    DivUnique(0, Abs(m), 0, 0);
  }

  /** A dividend with fewer digits than the divisor: the quotient is zero, and the remainder is copied after that. */
  method ShortDivision(x: BigInteger, q: BigInteger?, r0: BigInteger?)
    requires x.Valid() && (q == null || q != r0)
    modifies q, r0
    ensures q != null ==> q.Valid() && q.Value() == 0
    ensures r0 != null ==> r0.Valid() && r0.Value() == if q == x then 0 else old(x.Value())
    ensures r0 != null && old(x.Clamped()) ==> r0.Clamped()
  {
    hide Val, Pow;
    if q != null {
      var raised := q.FromInt(0);
    }
    if r0 != null {
      x.CopyTo(r0);
    }
  }

  method LongDivision(x: BigInteger, m: BigInteger, pt: BigInteger, pm: BigInteger, q: BigInteger?, r0: BigInteger?)
    requires x.Valid() && m.Valid() && pm.Valid() && pm.Clamped() && pm.s == 0 && pt.Valid() && pt.s == 0
    requires pt.t >= pm.t > 0
    requires (x.s == 0 <==> x.Value() >= 0) && (m.s == 0 <==> m.Value() >= 0)
    requires (pt.Clamped() || pt.Value() == 0) && m.Value() != 0 && pt.Value() == Abs(x.Value())
    requires pm.Value() == Abs(m.Value())
    requires q == null || q != r0
    modifies q, r0
    ensures q != null ==> q.Valid() && q.Value() == Quotient(old(x.Value()), old(m.Value()))
    ensures r0 != null ==> r0.Valid() && r0.Clamped() && r0.Value() == Remainder(old(x.Value()), old(m.Value()))
  {
    hide Val, Pow, Two, Partial, Signed, Normal, Found;
    var r: BigInteger;
    if r0 == null {
      r := new BigInteger();
    } else {
      r := r0;
    }
    var t: BigInteger;
    if q == null {
      t := new BigInteger();
    } else {
      t := q;
    }
    var y := new BigInteger();
    var ts, ms, n := x.s, m.s, pm.t;
    ghost var xv, mv := x.Value(), m.Value();
    var nsh := Normalise(pm, pt, y, r);
    Divide(r, y, t);
    IsFound(r, Abs(xv), Abs(mv), nsh, n);
    Deliver(r, q, n, nsh, ts, ms, xv, mv);
  }

  // ----- remainders -----

  /** What `mod` gives: the remainder of the absolute value, taken from the modulus where the number is negative. */
  ghost function Residue(x: int, a: int): int {
    var v := if a == 0 then 0 else Abs(x) % Abs(a);
    if x < 0 && v > 0 then a - v else v
  }

  /** It is the remainder of x for a positive modulus; for a negative one too, unless x is negative and not a
      multiple. */
  lemma ResidueIff(x: int, a: int)
    requires a != 0
    ensures Residue(x, a) == x % a <==> a > 0 || x >= 0 || Abs(x) % Abs(a) == 0
  {
    NegateMod(x, Abs(a));
    SignOfModulus(x, a);
  }

  /** The sign of the modulus does not matter to the remainder that is not negative. */
  lemma SignOfModulus(x: int, a: int)
    requires a != 0
    ensures x % a == x % Abs(a)
  {
    if a < 0 {
      var q, r := x / a, x % a;
      assert x == a * q + r;
      assert a * q == -a * -q;
      DivUnique(x, -a, -q, r);
    }
  }

  /** x modulo a, as a new number. */
  method Mod(x: BigInteger, a: BigInteger) returns (r: BigInteger)
    requires x.Valid() && x.Clamped() && a.Valid() && a.Clamped()
    ensures fresh(r) && r.Valid() && r.Clamped() && r.Value() == Residue(x.Value(), a.Value())
    ensures a.Value() > 0 ==> r.Value() == x.Value() % a.Value()
  {
    hide Val, Pow;
    r := new BigInteger();
    var abs := x.Abs();
    DivRemTo(abs, a, null, r);
    if x.s < 0 {
      var zero := new BigInteger();
      var c := r.CompareTo(zero);
      if c > 0 {
        a.SubTo(r, r);
      }
    }
    if a.Value() > 0 {
      ResidueIff(x.Value(), a.Value());
    }
  }
}
