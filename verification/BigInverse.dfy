/**
 The inverse modulo any number, on the number objects.
 */
module BigInverse {
  import opened Arithmetic
  import opened Bits
  import opened Digits
  import opened Divisors
  import opened Inverse
  import opened InverseRange
  import opened BigIntegers

  // ----- rows of numbers -----

  ghost predicate Proper(x: BigInteger)
    reads x
  {
    x.Valid() && x.Clamped()
  }

  /** Three different numbers that are a remainder and its coefficients. */
  ghost predicate IsRow(u: BigInteger, a: BigInteger, b: BigInteger, r: Row)
    reads u, a, b
  {
    && u != a && u != b && a != b && Proper(u) && Proper(a) && Proper(b)
    && u.Value() == r.u && a.Value() == r.a && b.Value() == r.b
  }

  /** The operands, which are none of the numbers of a row. */
  ghost predicate Operands(x: BigInteger, m: BigInteger, ac: bool)
    reads x, m
  {
    && Proper(x) && Proper(m) && x.Value() > 0 && m.Value() > 0
    && (ac <==> m.Value() % 2 == 0) && (ac ==> x.Value() % 2 == 1)
  }

  /** One turn of a halving loop, in place. */
  method HalveStep(u: BigInteger, a: BigInteger, b: BigInteger, x: BigInteger, m: BigInteger, ac: bool, ghost r: Row)
    requires IsRow(u, a, b, r) && r.u % 2 == 0 && Operands(x, m, ac) && x !in {u, a, b} && m !in {u, a, b}
    modifies u, a, b
    ensures Operands(x, m, ac) && IsRow(u, a, b, HalveRow(r, x.Value(), m.Value()))
  {
    hide Val, Pow, Two;
    HalfIsShift();
    u.RShiftTo(1, u);
    if ac {
      var ae := a.IsEven();
      var be := b.IsEven();
      if !ae || !be {
        a.AddTo(x, a);
        b.SubTo(m, b);
      }
      a.RShiftTo(1, a);
    } else {
      var be := b.IsEven();
      if !be {
        b.SubTo(m, b);
      }
    }
    b.RShiftTo(1, b);
  }

  lemma HalfIsShift()
    ensures Two(1) == 2
  {
  }

  /** Halves until the remainder is odd, in place. */
  method HalveOut(u: BigInteger, a: BigInteger, b: BigInteger, x: BigInteger, m: BigInteger, ac: bool, ghost r0: Row)
    requires IsRow(u, a, b, r0) && r0.u > 0 && Operands(x, m, ac) && x !in {u, a, b} && m !in {u, a, b}
    modifies u, a, b
    ensures Operands(x, m, ac) && IsRow(u, a, b, HalvedOut(r0, x.Value(), m.Value()))
  {
    hide Val, Pow, HalveRow;
    ghost var r := r0;
    var even := u.IsEven();
    while even
      invariant IsRow(u, a, b, r) && r.u > 0 && Operands(x, m, ac) && (even <==> r.u % 2 == 0)
      invariant HalvedOut(r, x.Value(), m.Value()) == HalvedOut(r0, x.Value(), m.Value())
      decreases r.u
    {
      ghost var next := HalveRow(r, x.Value(), m.Value());
      HalveStep(u, a, b, x, m, ac, r);
      r := next;
      even := u.IsEven();
    }
  }

  /** One row is subtracted from another, in place. */
  method Subtract(u: BigInteger, a: BigInteger, b: BigInteger, v: BigInteger, c: BigInteger, d: BigInteger, ac: bool,
                  ghost r: Row, ghost q: Row, ghost m: int)
    requires IsRow(u, a, b, r) && IsRow(v, c, d, q) && {u, a, b} !! {v, c, d} && r.u >= q.u && (ac <==> m % 2 == 0)
    modifies u, a, b
    ensures IsRow(u, a, b, Minus(r, q, m)) && IsRow(v, c, d, q)
  {
    hide Val, Pow;
    u.SubTo(v, u);
    if ac {
      a.SubTo(c, a);
    }
    b.SubTo(d, b);
  }

  /** The main loop, in place: what remains is the row that `Rounds` ends with. */
  method Run(u: BigInteger, a: BigInteger, b: BigInteger, v: BigInteger, c: BigInteger, d: BigInteger,
             x: BigInteger, m: BigInteger, ac: bool, ghost r0: Row, ghost q0: Row)
    requires IsRow(u, a, b, r0) && IsRow(v, c, d, q0) && {u, a, b} !! {v, c, d} && q0.u > 0 && Operands(x, m, ac)
    requires x !in {u, a, b, v, c, d} && m !in {u, a, b, v, c, d}
    modifies u, a, b, v, c, d
    ensures Operands(x, m, ac) && IsRow(v, c, d, Rounds(r0, q0, x.Value(), m.Value()))
  {
    hide Val, Pow, IsRow, Operands, HalvedOut;
    OperandParity(x, m, ac);
    ghost var r, q, xv, mv := r0, q0, x.Value(), m.Value();
    var sign := Sign(u, a, b, r);
    while sign != 0
      invariant IsRow(u, a, b, r) && IsRow(v, c, d, q) && q.u > 0 && Operands(x, m, ac) && (sign == 0 <==> r.u == 0)
      invariant SameValues(x, m, xv, mv) && Rounds(r, q, xv, mv) == Rounds(r0, q0, xv, mv)
      decreases r.u + q.u
    {
      OperandParity(x, m, ac);
      HalveOut(u, a, b, x, m, ac, r);
      HalveOut(v, c, d, x, m, ac, q);
      ghost var r1, q1 := HalvedOut(r, xv, mv), HalvedOut(q, xv, mv);
      var greater := AtLeast(u, a, b, v, c, d, r1, q1);
      if greater {
        Subtract(u, a, b, v, c, d, ac, r1, q1, mv);
        r, q := Minus(r1, q1, mv), q1;
      } else {
        Subtract(v, c, d, u, a, b, ac, q1, r1, mv);
        r, q := r1, Minus(q1, r1, mv);
      }
      sign := Sign(u, a, b, r);
    }
  }

  ghost predicate SameValues(x: BigInteger, m: BigInteger, xv: int, mv: int)
    reads x, m
  {
    x.Valid() && m.Valid() && x.Value() == xv && m.Value() == mv
  }

  lemma OperandParity(x: BigInteger, m: BigInteger, ac: bool)
    requires Operands(x, m, ac)
    ensures x.Valid() && m.Valid() && (ac <==> m.Value() % 2 == 0)
  {
  }

  method Sign(u: BigInteger, a: BigInteger, b: BigInteger, ghost r: Row) returns (sign: int)
    requires IsRow(u, a, b, r)
    ensures sign == 0 <==> r.u == 0
  {
    hide Val, Pow;
    sign := u.Signum();
  }

  method AtLeast(u: BigInteger, a: BigInteger, b: BigInteger, v: BigInteger, c: BigInteger, d: BigInteger,
                 ghost r: Row, ghost q: Row) returns (greater: bool)
    requires IsRow(u, a, b, r) && IsRow(v, c, d, q)
    ensures greater <==> r.u >= q.u
  {
    hide Val, Pow;
    SignValue(u.digits[..u.t], u.s);
    SignValue(v.digits[..v.t], v.s);
    var c := u.CompareTo(v);
    greater := c >= 0;
  }

  // ----- the inverse -----

  /** The last steps bring the coefficient nearer to the range 0..m. */
  function Normalised(d: int, m: int): int {
    if d >= m then d - m else if d >= 0 then d else if d + m >= 0 then d + m else d + m + m
  }

  /** What the source computes, on values. */
  function InverseOf(x: nat, m: nat): int
    requires x > 0 || m % 2 == 0
  {
    if (x % 2 == 0 && m % 2 == 0) || m == 0 then 0
    else
      var q := Rounds(Row(m, 1, 0), Row(x, 0, 1), x, m);
      if q.u != 1 then 0 else Normalised(q.b, m)
  }

  /** It is an inverse where there is one, and zero otherwise. */
  ghost predicate IsInverse(r: int, x: nat, m: nat) {
    && (m == 0 ==> r == 0)
    && (m > 0 ==> if IsGcd(1, m, x) then Divides(m, r * x - 1) else r == 0)
    && (m > 1 ==> (r == 0 <==> !IsGcd(1, m, x)))
  }

  lemma InverseCorrect(x: nat, m: nat)
    requires x > 0 || m % 2 == 0
    ensures IsInverse(InverseOf(x, m), x, m)
  {
    hide IsGcd, Rounds, Divides;
    if (x % 2 == 0 && m % 2 == 0) || m == 0 {
      if m > 0 {
        BothEven(m, x);
      }
    } else {
      var q := Rounds(Row(m, 1, 0), Row(x, 0, 1), x, m);
      Euclid(x, m);
      if q.u != 1 {
        if IsGcd(1, m, x) {
          GcdUnique(1, q.u, m, x);
        }
      } else {
        NormalisedInverse(q.b, x, m);
      }
    }
  }

  lemma NormalisedInverse(d: int, x: nat, m: nat)
    requires m > 0 && Divides(m, 1 - d * x)
    ensures Divides(m, Normalised(d, m) * x - 1) && (m > 1 ==> Normalised(d, m) != 0)
  {
    var r := Normalised(d, m);
    SameInverse(d, r, if d >= m then -1 else if d >= 0 then 0 else if d + m >= 0 then 1 else 2, x, m);
    if r == 0 && m > 1 {
      DivUnique(-1, m, -1, m - 1);
    }
  }

  lemma SameInverse(d: int, r: int, k: int, x: int, m: int)
    requires Divides(m, 1 - d * x) && r == d + k * m
    ensures Divides(m, r * x - 1)
  {
    hide Divides;
    var q := Quotient(m, 1 - d * x);
    assert r * x == d * x + (k * x) * m by { assert (k * m) * x == (k * x) * m; }
    DividesBy(m, r * x - 1, k * x - q);
  }

  /** The result is in 0..m exactly when the last coefficient is in -2m..2m. */
  lemma RangeIff(x: nat, m: nat)
    requires x > 0 && m > 0 && IsGcd(1, m, x)
    ensures 0 <= InverseOf(x, m) < m <==> -2 * m <= Coefficient(x, m) < 2 * m
  {
    hide IsGcd, Rounds;
    if x % 2 == 0 && m % 2 == 0 {
      BothEven(m, x);
    } else {
      Euclid(x, m);
      GcdUnique(1, Rounds(Row(m, 1, 0), Row(x, 0, 1), x, m).u, m, x);
    }
  }

  /** The result is in -(n - 1) m..n m, where the sum of the operands is below 2^(6 n + 2). */
  lemma InverseInRange(x: nat, m: nat, n: nat)
    requires x > 0 && m > 1 && n >= 1 && x + m < 4 * Two(6 * n)
    ensures -((n - 1) * m) <= InverseOf(x, m) < n * m
  {
    hide Rounds, Two;
    MulNonNeg(n - 1, m);
    MulLe(1, n, m);
    assert (n + 1) * m == n * m + m && (n - 1) * m == n * m - m;
    if x % 2 == 1 || m % 2 == 1 {
      CoefficientRange(x, m, n);
    }
  }

  /** For small operands it is the inverse in 0..m. */
  lemma SmallInRange(x: nat, m: nat)
    requires x > 0 && m > 1 && x + m < 256
    ensures 0 <= InverseOf(x, m) < m
  {
    hide InverseOf;
    assert Two(3) == 8 && Two(6) == 8 * Two(3);
    InverseInRange(x, m, 1);
  }

  /** But not for all: 1748 and 3659 are coprime, and the result is negative. */
  lemma NotInRange()
    ensures IsGcd(1, 3659, 1748) && InverseOf(1748, 3659) < 0
  {
    hide IsGcd, Rounds;
    OutOfRange();
    Euclid(1748, 3659);
    GcdUnique(1, Rounds(Row(3659, 1, 0), Row(1748, 0, 1), 1748, 3659).u, 3659, 1748);
  }

  /** 1/this modulo m, as a new number; 0 when there is none.  For 0 and an odd modulus the first loop of the source
      does not end (Inverse.ZeroStaysEven). */
  method ModInverse(x: BigInteger, m: BigInteger) returns (r: BigInteger)
    requires Proper(x) && Proper(m) && x.Value() >= 0 && m.Value() >= 0 && (x.Value() > 0 || m.Value() % 2 == 0)
    ensures fresh(r) && Proper(r) && IsInverse(r.Value(), x.Value(), m.Value())
    ensures r.Value() == InverseOf(x.Value(), m.Value())
  {
    hide Val, Pow, IsInverse, Rounds, Fits, IsRow;
    ghost var xv, mv := x.Value(), m.Value();
    InverseCorrect(xv, mv);
    var ac := m.IsEven();
    var xe := x.IsEven();
    var sign := m.Signum();
    if (xe && ac) || sign == 0 {
      r := NewValue(0);
      return;
    }
    r := Extended(x, m, ac);
  }

  /** The numbers that the loop works on, the loop, and what becomes of its result. */
  method Extended(x: BigInteger, m: BigInteger, ac: bool) returns (r: BigInteger)
    requires Operands(x, m, ac)
    ensures fresh(r) && Proper(r) && x.Valid() && m.Valid() && x.Value() > 0 && m.Value() > 0
    ensures var q := Rounds(Row(m.Value(), 1, 0), Row(x.Value(), 0, 1), x.Value(), m.Value());
      r.Value() == if q.u != 1 then 0 else Normalised(q.b, m.Value())
  {
    hide Val, Pow, Rounds;
    var u, v := Copies(m, x);
    var a, b := Pair(1, 0);
    var c, d := Pair(0, 1);
    ghost var r0, q0 := Row(m.Value(), 1, 0), Row(x.Value(), 0, 1);
    Run(u, a, b, v, c, d, x, m, ac, r0, q0);
    var one := IsOne(v);
    if one {
      r := Normalise(d, m);
    } else {
      r := NewValue(0);
    }
  }

  method Copies(m: BigInteger, x: BigInteger) returns (u: BigInteger, v: BigInteger)
    requires Proper(m) && Proper(x)
    ensures fresh(u) && fresh(v) && u != v && Proper(u) && Proper(v) && u.Value() == m.Value() && v.Value() == x.Value()
  {
    u := m.Clone();
    v := x.Clone();
  }

  method Pair(n: nat, k: nat) returns (a: BigInteger, b: BigInteger)
    requires n <= 1 && k <= 1
    ensures fresh(a) && fresh(b) && a != b && Proper(a) && Proper(b) && a.Value() == n && b.Value() == k
  {
    a := NewValue(n);
    b := NewValue(k);
  }

  method IsOne(v: BigInteger) returns (r: bool)
    requires Proper(v) && v.Value() >= 0
    ensures r <==> v.Value() == 1
  {
    hide Val, Pow;
    var one := NewValue(1);
    SignValue(one.digits[..one.t], one.s);
    SignValue(v.digits[..v.t], v.s);
    var c := v.CompareTo(one);
    r := c == 0;
  }

  method Normalise(d: BigInteger, m: BigInteger) returns (r: BigInteger)
    requires Proper(d) && Proper(m) && m.Value() > 0 && d != m
    modifies d
    ensures (r == d || fresh(r)) && Proper(r) && r.Value() == Normalised(old(d.Value()), m.Value())
  {
    hide Val, Pow;
    SignValue(m.digits[..m.t], m.s);
    var c := d.CompareTo(m);
    if c >= 0 {
      r := new BigInteger();
      d.SubTo(m, r);
      return;
    }
    r := d;
    var sign := d.Signum();
    if sign < 0 {
      d.AddTo(m, d);
      sign := d.Signum();
      if sign < 0 {
        r := new BigInteger();
        d.AddTo(m, r);
      }
    }
  }
}
