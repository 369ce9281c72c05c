/**
 Barrett reduction: the quotient is estimated by a product of which only the upper digits are computed, and the
 remainder is taken from products of which only the lower digits are computed.
 */
module Barrett {
  import opened Arithmetic
  import opened Digits
  import opened Multiply
  import opened BigIntegers
  import opened Division

  // ----- the lower digits of a product -----

  lemma CarryFits(r: seq<int>, k: nat)
    requires k < |r| && (forall i :: 0 <= i < k ==> 0 <= r[i] < DV) && (forall i :: k < i < |r| ==> r[i] == 0)
    requires Val(r) < Pow(k + 1)
    ensures r[k] < DV
  {
    hide Val, Pow;
    TopDigit(r, k);
    PowUp(k);
    TopInts(Pow(k), r[k]);
  }

  lemma TopInts(p: int, d: int)
    requires p >= 1 && p * d < DV * p
    ensures d < DV
  {
  }

  /** One row whose carry is stored. */
  method FullRow(x: seq<int>, p: nat, d: int, r: seq<int>, j: nat, n: nat) returns (r': seq<int>)
    requires AllDigits(x) && AllDigits(r) && IsDigit(d) && p + n <= |x| && j + n < |r|
    requires (forall k :: j + n <= k < |r| ==> r[k] == 0) && Val(r) + Pow(j) * (d * Val(x[p..p + n])) < Pow(j + n + 1)
    ensures |r'| == |r| && AllDigits(r') && Val(r') == Val(r) + Pow(j) * (d * Val(x[p..p + n]))
    ensures forall k :: j + n < k < |r| ==> r'[k] == 0
  {
    hide Val, Pow;
    var w, c := Accumulate(x, p, d, r, j, 0, n);
    ValUpdate(w, j + n, c);
    r' := w[j + n := c];
    CarryFits(r', j + n);
  }

  lemma RowValue(x: int, y: int, p: int, d: int)
    ensures x * (y + p * d) == x * y + p * (d * x)
  {
    assert x * (p * d) == p * (d * x);
  }

  lemma RowsBelow(x: seq<int>, y: seq<int>, i: nat)
    requires AllDigits(x) && AllDigits(y) && i <= |y|
    ensures 0 <= Val(x) * Val(y[..i]) < Pow(|x| + i)
  {
    hide Val, Pow;
    ValBound(x);
    ValBound(y[..i]);
    PowAdd(|x|, i);
    ProductRange(Val(x), Val(y[..i]), Pow(|x|), Pow(i));
  }

  lemma ProductRange(x: int, y: int, p: int, q: int)
    requires 0 <= x < p && 0 <= y < q
    ensures 0 <= x * y < p * q
  {
    HalfProduct(x, y, p, q);
    assert (p - 1) * (q - 1) == p * q - p - q + 1;
  }

  lemma NextRow(x: seq<int>, y: seq<int>, i: nat)
    requires i < |y|
    ensures Val(x) * Val(y[..i + 1]) == Val(x) * Val(y[..i]) + Pow(i) * (y[i] * Val(x))
  {
    hide Val, Pow;
    assert y[..i + 1] == y[..i] + [y[i]];
    ValSnoc(y[..i], y[i]);
    RowValue(Val(x), Val(y[..i]), Pow(i), y[i]);
  }

  /** The product modulo DV^n. */
  method MultiplyLower(x: seq<int>, y: seq<int>, n: nat) returns (r: seq<int>)
    requires AllDigits(x) && AllDigits(y)
    ensures |r| == (if |x| + |y| < n then |x| + |y| else n) && AllDigits(r) && Val(r) == (Val(x) * Val(y)) % Pow(n)
  {
    hide Val, Pow;
    var len := if |x| + |y| < n then |x| + |y| else n;
    r := seq(len, _ => 0);
    ValZeros(r);
    NoDigits();
    var i := 0;
    assert y[..0] == [] && x[0..|x|] == x;
    while i < len - |x|
      invariant 0 <= i <= |y| && (i > 0 ==> i <= len - |x|) && |r| == len && AllDigits(r)
      invariant Val(r) == Val(x) * Val(y[..i]) && forall k :: i + |x| <= k < len ==> r[k] == 0
    {
      NextRow(x, y, i);
      RowsBelow(x, y, i + 1);
      r := FullRow(x, 0, y[i], r, i, |x|);
      i := i + 1;
    }
    ghost var lost := 0;
    var end := if |y| < n then |y| else n;
    while i < end
      invariant 0 <= i <= |y| && |r| == len && AllDigits(r) && (i < end ==> len == n && n - i <= |x|)
      invariant Val(r) + Pow(n) * lost == Val(x) * Val(y[..i])
      decreases end - i
    {
      NextRow(x, y, i);
      CutRow(x, i, y[i], n);
      var w, c := Accumulate(x, 0, y[i], r, i, 0, n - i);
      LostInts(Pow(n), lost, c, y[i] * Val(x[n - i..]));
      lost := lost + c + y[i] * Val(x[n - i..]);
      r := w;
      i := i + 1;
    }
    LowerEnd(x, y, r, n, i, lost);
  }

  lemma LostInts(p: int, a: int, b: int, c: int)
    ensures p * (a + b + c) == p * a + p * b + p * c
  {
  }

  /** What the digits beyond position n contribute. */
  lemma CutRow(x: seq<int>, i: nat, d: int, n: nat)
    requires i <= n && n - i <= |x|
    ensures Pow(i) * (d * Val(x)) == Pow(i) * (d * Val(x[0..n - i])) + Pow(n) * (d * Val(x[n - i..]))
  {
    hide Val, Pow;
    ValSplit(x, n - i);
    PowAdd(i, n - i);
    assert x[0..n - i] == x[..n - i];
    CutInts(Pow(i), Pow(n - i), d, Val(x[..n - i]), Val(x[n - i..]), Val(x), Pow(n));
  }

  lemma CutInts(p: int, q: int, d: int, low: int, high: int, v: int, pq: int)
    requires v == low + q * high && pq == p * q
    ensures p * (d * v) == p * (d * low) + pq * (d * high)
  {
    assert d * (q * high) == q * (d * high);
    MulAssoc(p, q, d * high);
    assert d * (low + q * high) == d * low + d * (q * high);
  }

  lemma LowerEnd(x: seq<int>, y: seq<int>, r: seq<int>, n: nat, i: nat, lost: int)
    requires AllDigits(x) && AllDigits(y) && AllDigits(r) && |r| <= n && i <= |y| && (i < |y| ==> i >= n)
    requires Val(r) + Pow(n) * lost == Val(x) * Val(y[..i])
    ensures Val(r) == (Val(x) * Val(y)) % Pow(n)
  {
    hide Val, Pow;
    ValBound(r);
    PowMono(|r|, n);
    var k := RestLost(y, n, i);
    RestInts(Val(x), Val(y[..i]), Val(y), Pow(n), k, Val(r), lost);
  }

  lemma RestLost(y: seq<int>, n: nat, i: nat) returns (k: int)
    requires i <= |y| && (i < |y| ==> i >= n)
    ensures Val(y) == Val(y[..i]) + Pow(n) * k
  {
    hide Val, Pow;
    if i == |y| {
      assert y[..i] == y;
      k := 0;
    } else {
      ValSplit(y, i);
      PowAdd(n, i - n);
      MulAssoc(Pow(n), Pow(i - n), Val(y[i..]));
      k := Pow(i - n) * Val(y[i..]);
    }
  }

  lemma RestInts(x: int, low: int, y: int, p: int, k: int, r: int, lost: int)
    requires r + p * lost == x * low && 0 <= r < p && y == low + p * k
    ensures r == (x * y) % p
  {
    assert x * y == x * low + p * (x * k);
    DivUnique(x * y, p, lost + x * k, r);
  }

  // ----- the upper digits of a product -----

  /** The rows up to `i` are in `r`, except for what they contribute below position n. */
  ghost predicate Upper(r: int, x: seq<int>, y: seq<int>, n: nat, i: nat) {
    i <= |y| && Pow(n) * r <= Val(x) * Val(y[..i]) <= Pow(n) * r + i * (DV * Pow(n))
  }

  lemma UpperStart(x: seq<int>, y: seq<int>, n: nat, i: nat)
    requires AllDigits(x) && AllDigits(y) && i <= |y| && (i == 0 || |x| + i <= n)
    ensures Upper(0, x, y, n, i)
  {
    hide Val, Pow;
    NoDigits();
    assert y[..0] == [];
    if i > 0 {
      RowsBelow(x, y, i);
      PowMono(|x| + i, n);
      MulLe(1, i, DV * Pow(n));
    }
  }

  lemma UpperNext(r: int, x: seq<int>, y: seq<int>, n: nat, i: nat)
    requires Upper(r, x, y, n, i) && i < |y| && AllDigits(x) && AllDigits(y) && i <= n <= |x| + i
    ensures Upper(r + y[i] * Val(x[n - i..]), x, y, n, i + 1)
    ensures r + y[i] * Val(x[n - i..]) < Pow(|x| + i + 1 - n)
  {
    hide Val, Pow;
    NextRow(x, y, i);
    CutRow(x, i, y[i], n);
    ValBound(x[0..n - i]);
    PowAdd(i, n - i);
    CutBound(Pow(i), Pow(n - i), y[i], Val(x[0..n - i]));
    UpperInts(Pow(n), r, y[i] * Val(x[n - i..]), i);
    RowsBelow(x, y, i + 1);
    PowAdd(n, |x| + i + 1 - n);
    UpperRange(Pow(n), r + y[i] * Val(x[n - i..]), Pow(|x| + i + 1 - n));
  }

  lemma CutBound(p: int, q: int, d: int, low: int)
    requires p >= 1 && 0 <= low < q && IsDigit(d)
    ensures 0 <= p * (d * low) <= DV * (p * q)
  {
    MulNonNeg(d, low);
    MulNonNeg(p, d * low);
    MulLe(d, DV, low);
    MulLe(low, q, DV);
    MulLe(d * low, DV * q, p);
    assert (DV * q) * p == DV * (p * q);
  }

  lemma UpperInts(p: int, r: int, d: int, i: int)
    ensures p * (r + d) == p * r + p * d && (i + 1) * (DV * p) == i * (DV * p) + DV * p
  {
  }

  lemma UpperRange(p: int, r: int, q: int)
    requires p >= 1 && p * r < p * q
    ensures r < q
  {
  }

  /** The product without its `n` lowest digits, except for what carries from below are missing: less than one unit of
      the next digit for each digit of y. */
  method MultiplyUpper(x: seq<int>, y: seq<int>, n: nat) returns (r: seq<int>)
    requires AllDigits(x) && AllDigits(y) && |y| <= n + 1
    ensures AllDigits(r) && Upper(Val(r), x, y, n, |y|)
  {
    hide Val, Pow, Upper;
    var len := if |x| + |y| < n then 0 else |x| + |y| - n;
    r := seq(len, _ => 0);
    ValZeros(r);
    var i := if n < |x| then 0 else n - |x|;
    if i > |y| {
      UpperStart(x, y, n, |y|);
      return;
    }
    UpperStart(x, y, n, i);
    while i < |y|
      invariant 0 <= i <= |y| && n <= |x| + i && |r| == len && AllDigits(r) && Upper(Val(r), x, y, n, i)
      invariant forall k :: |x| + i - n <= k < len ==> r[k] == 0
    {
      UpperNext(Val(r), x, y, n, i);
      assert x[n - i..|x|] == x[n - i..];
      FromZero(y[i] * Val(x[n - i..]));
      r := FullRow(x, n - i, y[i], r, 0, |x| + i - n);
      i := i + 1;
    }
  }

  lemma FromZero(v: int)
    ensures Pow(0) * v == v
  {
  }

  // ----- on the numbers -----

  /** r = the `n` lowest digits of x * a. */
  method MultiplyLowerTo(x: BigInteger, a: BigInteger, n: nat, r: BigInteger)
    requires x.Valid() && a.Valid() && x.s == a.s == 0 && r != x && r != a
    modifies r
    ensures r.Valid() && r.Clamped() && r.s == 0 && r.Value() == (x.Value() * a.Value()) % Pow(n)
  {
    hide Val, Pow;
    var d := MultiplyLower(x.digits[..x.t], a.digits[..a.t], n);
    SetDigits(r, d);
  }

  method SetDigits(r: BigInteger, d: seq<int>)
    requires AllDigits(d)
    modifies r
    ensures r.Valid() && r.Clamped() && r.s == 0 && r.Value() == Val(d)
  {
    hide Val, Pow;
    r.digits, r.t, r.s := d, |d|, 0;
    assert d[..|d|] == d;
    Unsigned(d);
    r.Clamp();
  }

  /** r = x * a without its `n` lowest digits, or less by no more than the number of digits of a. */
  method MultiplyUpperTo(x: BigInteger, a: BigInteger, n: nat, r: BigInteger)
    requires x.Valid() && a.Valid() && x.s == a.s == 0 && r != x && r != a && n > 0 && a.t <= n
    modifies r
    ensures r.Valid() && r.Clamped() && r.s == 0
    ensures r.Value() * Pow(n) <= x.Value() * a.Value() < (r.Value() + 1 + a.t) * Pow(n)
  {
    hide Val, Pow, Upper;
    var d := MultiplyUpper(x.digits[..x.t], a.digits[..a.t], n - 1);
    SetDigits(r, d);
    r.DrShiftTo(1, r);
    UpperDropped(d, x.digits[..x.t], a.digits[..a.t], n);
  }

  lemma UpperDropped(d: seq<int>, x: seq<int>, a: seq<int>, n: nat)
    requires n > 0 && Upper(Val(d), x, a, n - 1, |a|)
    ensures var r := Val(d) / Pow(1); r * Pow(n) <= Val(x) * Val(a) < (r + 1 + |a|) * Pow(n)
  {
    hide Val, Pow, Upper;
    UpperAll(Val(d), x, a, n - 1);
    PowUp(n - 1);
    OneWord();
    DroppedInts(Val(d), Val(x) * Val(a), Pow(n - 1), Pow(n), Pow(1), |a|);
  }

  lemma UpperAll(r: int, x: seq<int>, y: seq<int>, n: nat)
    requires Upper(r, x, y, n, |y|)
    ensures Pow(n) * r <= Val(x) * Val(y) <= Pow(n) * r + |y| * (DV * Pow(n))
  {
    hide Val, Pow;
    assert y[..|y|] == y;
  }

  lemma OneWord()
    ensures Pow(1) == DV
  {
    assert Pow(1) == DV * Pow(0);
  }

  lemma DroppedInts(v: int, xy: int, p: int, z: int, one: int, k: nat)
    requires p >= 1 && p * v <= xy <= p * v + k * (DV * p) && z == DV * p && one == DV
    ensures (v / one) * z <= xy < (v / one + 1 + k) * z
  {
    var q, r := v / DV, v % DV;
    assert p * v == q * z + p * r by { assert v == DV * q + r; assert p * (DV * q) == q * z; }
    MulNonNeg(p, r);
    MulLess(r, DV, p);
    assert (q + 1 + k) * z == q * z + z + k * z;
  }

  /** x += n * DV^w. */
  method DAddOffset(x: BigInteger, n: int, w0: nat)
    requires x.Valid() && x.s == 0 && IsDigit(n)
    modifies x
    ensures x.Valid() && x.s == 0 && x.Value() == old(x.Value()) + Pow(w0) * n
    ensures old(x.t) <= w0 && n > 0 ==> x.Clamped()
  {
    hide Val, Pow;
    var w := w0;
    Pad(x, w + 1);
    ghost var d := x.digits[..x.t];
    Unsigned(d);
    x.digits := x.digits[w := x.digits[w] + n];
    assert x.digits[..x.t] == d[w := d[w] + n];
    ValUpdate(d, w, d[w] + n);
    ghost var v := Val(d) + Pow(w) * n;
    while x.digits[w] >= DV
      invariant x.s == 0 && w < x.t <= |x.digits| && Val(x.digits[..x.t]) == v && 0 <= x.digits[w] < 2 * DV
      invariant forall k :: 0 <= k < x.t && k != w ==> 0 <= x.digits[k] < DV
      invariant old(x.t) <= w0 && n > 0 ==> w == w0 && x.t == w + 1 && 0 < x.digits[w] < DV
      decreases if x.digits[w] < DV then 0 else x.t - w + 1
    {
      w := CarryOne(x, w);
    }
    Unsigned(x.digits[..x.t]);
  }

  /** One unit of a digit that is too big goes to the next digit. */
  method CarryOne(x: BigInteger, w: nat) returns (w': nat)
    requires w < x.t <= |x.digits| && DV <= x.digits[w] < 2 * DV && x.s == 0
    requires forall k :: 0 <= k < x.t && k != w ==> 0 <= x.digits[k] < DV
    modifies x
    ensures w' == w + 1 && w' < x.t <= |x.digits| && x.s == 0 && 0 <= x.digits[w'] < 2 * DV
    ensures Val(x.digits[..x.t]) == old(Val(x.digits[..x.t]))
    ensures forall k :: 0 <= k < x.t && k != w' ==> 0 <= x.digits[k] < DV
    ensures if w' < old(x.t) then x.t == old(x.t) else x.digits[w'] == 1
  {
    hide Val, Pow;
    ghost var d := x.digits[..x.t];
    ValUpdate(d, w, d[w] - DV);
    x.digits := x.digits[w := x.digits[w] - DV];
    w' := w + 1;
    ghost var e := d[w := d[w] - DV];
    assert x.digits[..x.t] == e;
    if w' >= x.t {
      x.digits := Put(x.digits, x.t, 0);
      x.t := x.t + 1;
      ValSnoc(e, 0);
      e := e + [0];
      assert x.digits[..x.t] == e;
    }
    ValUpdate(e, w', e[w'] + 1);
    x.digits := x.digits[w' := x.digits[w'] + 1];
    assert x.digits[..x.t] == e[w' := e[w'] + 1];
    PowUp(w);
    UnitMoved(Pow(w));
  }

  lemma UnitMoved(p: int)
    ensures p * -DV + (DV * p) * 1 == 0
  {
  }

  // ----- the reduction -----

  /** The estimated quotient is not too big, and too small by no more than `a + 2`. */
  lemma QuotientBounds(x: int, m: int, mu: int, q1: int, q3: int, a: nat, p: int, r: int)
    requires p >= 1 && r >= 1 && p <= m && x >= 0 && mu == (p * r) / m && q1 == x / p && 0 <= q1 < r
    requires q3 * r <= mu * q1 < (q3 + 1 + a) * r
    ensures 0 <= x - q3 * m < (a + 3) * m
  {
    var w := p * r;
    assert w == m * mu + w % m;
    assert x == p * q1 + x % p;
    NotTooBig(m, mu, q1, q3, p, r, w);
    TooSmallBy(m, mu, q1, q3 + 1 + a, p, r, w);
    assert (q3 + 1 + a + 1) * m + m == q3 * m + (a + 3) * m;
  }

  lemma NotTooBig(m: int, mu: int, q1: int, q3: int, p: int, r: int, w: int)
    requires m > 0 && r >= 1 && w == p * r && m * mu <= w && q1 >= 0 && q3 * r <= mu * q1
    ensures q3 * m <= p * q1
  {
    MulLe(q3 * r, mu * q1, m);
    MulLe(m * mu, w, q1);
    assert (mu * q1) * m == (m * mu) * q1;
    assert (q3 * r) * m == (q3 * m) * r;
    assert w * q1 == (p * q1) * r;
    CancelLe(q3 * m, p * q1, r);
  }

  lemma TooSmallBy(m: int, mu: int, q1: int, k: int, p: int, r: int, w: int)
    requires m > 0 && r >= 1 && w == p * r && w < m * mu + m && 0 <= q1 < r && mu * q1 < k * r
    ensures p * q1 < (k + 1) * m
  {
    MulLe(w, m * mu + m, q1);
    assert (m * mu + m) * q1 == m * (mu * q1) + m * q1;
    MulLess(mu * q1, k * r, m);
    MulLess(q1, r, m);
    assert m * (k * r) + m * r == ((k + 1) * m) * r;
    assert w * q1 == (p * q1) * r;
    CancelLess(p * q1, (k + 1) * m, r);
  }

  lemma CancelLe(a: int, b: int, c: int)
    requires c > 0 && a * c <= b * c
    ensures a <= b
  {
  }

  /** A small difference is found from the remainders. */
  lemma FromRemainders(x: int, y: int, p: int)
    requires p > 0 && 0 <= x - y < p
    ensures x - y == if x % p < y % p then x % p + p - y % p else x % p - y % p
  {
    var a, b := x % p, y % p;
    var k := x / p - y / p;
    assert x - y == p * k + (a - b);
    if k >= 2 {
      MulLe(2, k, p);
    } else if k <= -1 {
      MulLe(k, -1, p);
    }
  }

  class BarrettReducer {
    const m: BigInteger
    const mu: BigInteger
    const r2: BigInteger
    const q3: BigInteger

    constructor (m: BigInteger)
      requires m.Valid() && m.Clamped() && m.Value() > 0 && m.t + 4 <= DV
      ensures this.m == m && fresh(r2) && fresh(q3) && fresh(mu) && Valid()
    {
      hide Val, Pow;
      SignValue(m.digits[..m.t], m.s);
      NoDivisor(m);
      var one := NewValue(1);
      SignValue(one.digits[..one.t], one.s);
      OneDigitLong(one);
      var scratch := new BigInteger();
      one.DlShiftTo(2 * m.t, scratch);
      var quotient := new BigInteger();
      DivRemTo(scratch, m, quotient, null);
      BarrettFactor(Pow(2 * m.t), m.Value());
      SignValue(quotient.digits[..quotient.t], quotient.s);
      this.m, mu, r2 := m, quotient, scratch;
      q3 := new BigInteger();
    }

    ghost predicate Valid()
      reads m, mu
    {
      && m.Valid() && m.Clamped() && m.s == 0 && 0 < m.t <= DV - 4 && m.Value() > 0
      && mu.Valid() && mu.s == 0 && mu.Value() == Pow(2 * m.t) / m.Value()
      && m != r2 && m != q3 && mu != r2 && mu != q3 && r2 != q3
    }

    /** x = x modulo m, for x below DV^(2 t) where t is the length of m. */
    method Reduce(x: BigInteger)
      requires Valid() && x.Valid() && x.Clamped() && x.s == 0 && x.Value() < Pow(2 * m.t)
      requires x != m && x != mu && x != r2 && x != q3
      modifies x, r2, q3
      ensures Valid() && x.Valid() && x.Clamped() && x.s == 0 && x.Value() == old(x.Value()) % m.Value()
    {
      hide Val, Pow;
      var k := m.t;
      ghost var v := x.Value();
      SignValue(x.digits[..x.t], x.s);
      x.DrShiftTo(k - 1, r2);
      Cut(x, k + 1);
      EstimateQuotient(v);
      ghost var y := m.Value() * q3.Value();
      MultiplyLowerTo(m, q3, k + 1, r2);
      Difference(x, k + 1, v, y);
      Final(x, v, q3.Value());
    }

    /** r = x * y modulo m. */
    method MulTo(x: BigInteger, y: BigInteger, r: BigInteger)
      requires Valid() && x.Valid() && y.Valid() && 0 <= x.Value() < m.Value() && 0 <= y.Value() < m.Value()
      requires r != x && r != y && r != m && r != mu && r != r2 && r != q3
      modifies r, r2, q3
      ensures Valid() && r.Valid() && r.Clamped() && r.Value() == (old(x.Value()) * old(y.Value())) % m.Value()
    {
      hide Val, Pow;
      x.MultiplyTo(y, r);
      ProductFits(r, x.Value(), y.Value());
      Reduce(r);
    }

    /** r = x * x modulo m. */
    method SqrTo(x: BigInteger, r: BigInteger)
      requires Valid() && x.Valid() && 0 <= x.Value() < m.Value()
      requires r != x && r != m && r != mu && r != r2 && r != q3
      modifies r, r2, q3
      ensures Valid() && r.Valid() && r.Clamped() && r.Value() == (old(x.Value()) * old(x.Value())) % m.Value()
    {
      hide Val, Pow;
      x.SquareTo(r);
      ProductFits(r, x.Value(), x.Value());
      Reduce(r);
    }

    lemma ProductFits(r: BigInteger, x: int, y: int)
      requires Valid() && r.Valid() && r.Value() == x * y && 0 <= x < m.Value() && 0 <= y < m.Value()
      ensures r.s == 0 && r.Value() < Pow(2 * m.t)
    {
      hide Val, Pow;
      m.Magnitude();
      PowAdd(m.t, m.t);
      ProductRange(x, y, Pow(m.t), Pow(m.t));
      SignValue(r.digits[..r.t], r.s);
    }

    /** x modulo m: x itself where it is below m. */
    method Convert(x: BigInteger) returns (r: BigInteger)
      requires Valid() && x.Valid() && x.Clamped() && x != r2 && x != q3
      modifies r2, q3
      ensures Valid() && (r == x || fresh(r)) && r != m && r.Valid() && r.Clamped()
      ensures r.Value() == old(x.Value()) % m.Value()
    {
      hide Val, Pow;
      SignValue(x.digits[..x.t], x.s);
      if x.s < 0 || x.t > 2 * m.t {
        r := Mod(x, m);
        return;
      }
      var c := x.CompareTo(m);
      if c < 0 {
        DivUnique(x.Value(), m.Value(), 0, x.Value());
        return x;
      }
      r := new BigInteger();
      x.CopyTo(r);
      r.Magnitude();
      PowMono(r.t, 2 * m.t);
      Reduce(r);
    }

    /** q3 = an estimate of v / m, from the upper digits of v in r2. */
    method EstimateQuotient(ghost v: int)
      requires Valid() && 0 <= v < Pow(2 * m.t) && r2.Valid() && r2.Clamped() && r2.s == 0
      requires r2.Value() == v / Pow(m.t - 1)
      modifies q3
      ensures q3.Valid() && q3.Clamped() && q3.s == 0 && 0 <= v - m.Value() * q3.Value() < Pow(m.t + 1)
    {
      hide Val, Pow;
      var k := m.t;
      UpperPart(v, k);
      NotLonger(r2, k + 1);
      MultiplyUpperTo(mu, r2, k + 1, q3);
      m.Magnitude();
      QuotientBounds(v, m.Value(), mu.Value(), r2.Value(), q3.Value(), r2.t, Pow(k - 1), Pow(k + 1));
      Below(m.Value(), k, r2.t, v - q3.Value() * m.Value());
    }

    /** x = v - y, from the remainders of both. */
    method Difference(x: BigInteger, n: nat, ghost v: int, ghost y: int)
      requires x.Valid() && x.Clamped() && x.s == 0 && r2.Valid() && r2.Clamped() && r2.s == 0 && x != r2
      requires 0 <= v - y < Pow(n) && x.Value() == v % Pow(n) && r2.Value() == y % Pow(n)
      modifies x
      ensures x.Valid() && x.Clamped() && x.s == 0 && x.Value() == v - y
    {
      hide Val, Pow;
      FromRemainders(v, y, Pow(n));
      ghost var p := Pow(n);
      var c := x.CompareTo(r2);
      while c < 0
        invariant x.Valid() && x.Clamped() && x.s == 0 && (c < 0 <==> x.Value() < r2.Value())
        invariant x.Value() == v % p || (v % p < r2.Value() && x.Value() == v % p + p)
        decreases r2.Value() - x.Value()
      {
        NotLonger(x, n);
        DAddOffset(x, 1, n);
        assert Pow(n) * 1 == Pow(n);
        c := x.CompareTo(r2);
      }
      x.SubTo(r2, x);
      SignValue(x.digits[..x.t], x.s);
    }

    /** Subtracts the modulus as often as it fits. */
    method Final(x: BigInteger, ghost v: int, ghost q: int)
      requires Valid() && x.Valid() && x.Clamped() && x.s == 0 && x != m && x != mu && x.Value() == v - m.Value() * q
      modifies x
      ensures Valid() && x.Valid() && x.Clamped() && x.s == 0 && x.Value() == v % m.Value()
    {
      hide Val, Pow;
      ghost var k := q;
      SignValue(x.digits[..x.t], x.s);
      var c := x.CompareTo(m);
      while c >= 0
        invariant Valid() && x.Valid() && x.Clamped() && x.s == 0 && 0 <= x.Value() == v - m.Value() * k
        invariant c >= 0 <==> x.Value() >= m.Value()
        decreases x.Value()
      {
        x.SubTo(m, x);
        SignValue(x.digits[..x.t], x.s);
        k := k + 1;
        c := x.CompareTo(m);
      }
      DivUnique(v, m.Value(), k, x.Value());
    }
  }

  lemma BarrettFactor(p: int, m: int)
    requires p > 0 && m > 0
    ensures Quotient(p, m) == p / m >= 0
  {
    QuotientNat(p, m);
  }

  lemma UpperPart(x: int, k: nat)
    requires 0 <= x < Pow(2 * k) && k > 0
    ensures 0 <= x / Pow(k - 1) < Pow(k + 1) && Pow(2 * k) == Pow(k - 1) * Pow(k + 1)
  {
    hide Pow;
    PowAdd(k - 1, k + 1);
    Shifts.DropLow(x, Pow(k - 1), Pow(k + 1));
  }

  lemma Below(m: int, k: nat, a: nat, d: int)
    requires 0 < m < Pow(k) && a <= k + 1 && k + 4 <= DV && d < (a + 3) * m
    ensures d < Pow(k + 1)
  {
    hide Pow;
    PowUp(k);
    MulLe(a + 3, DV, m);
    MulLe(m, Pow(k), DV);
  }

  /** Keeps the `n` lowest digits. */
  method Cut(x: BigInteger, n: nat)
    requires x.Valid() && x.Clamped() && x.s == 0
    modifies x`t
    ensures x.Valid() && x.Clamped() && x.s == 0 && x.Value() == old(x.Value()) % Pow(n)
  {
    hide Val, Pow;
    if x.t > n {
      Truncate(x, n);
    } else {
      ShortValue(x, n);
    }
  }

  lemma ShortValue(x: BigInteger, n: nat)
    requires x.Valid() && x.s == 0 && x.t <= n
    ensures x.Value() == x.Value() % Pow(n)
  {
    hide Val, Pow;
    Unsigned(x.digits[..x.t]);
    ValBound(x.digits[..x.t]);
    PowMono(x.t, n);
    DivUnique(x.Value(), Pow(n), 0, x.Value());
  }
}
