/**
 The binary greatest common divisor, on the number objects.
 */
module BigGcd {
  import opened Arithmetic
  import opened Bits
  import opened Divisors
  import opened Shifts
  import opened BigIntegers

  lemma LowestExact(v: int, n: nat)
    requires IsLowest(v, n)
    ensures v == (v / Two(n)) * Two(n) && (v / Two(n)) % 2 == 1
  {
  }

  /** The shifted number has the same greatest common divisors with an odd number. */
  lemma OddPart(v: int, n: nat, y: int)
    requires IsLowest(v, n) && v > 0 && (v % 2 == 1 || y % 2 == 1)
    ensures 0 < v / Two(n) <= v && (v / Two(n)) % 2 == 1 && forall h :: IsGcd(h, v / Two(n), y) ==> IsGcd(h, v, y)
  {
    hide Two, IsGcd;
    LowestExact(v, n);
    var q := v / Two(n);
    PositiveFactor(q, Two(n), v);
    if n > 0 {
      EvenPower(v, q, n);
      forall h | IsGcd(h, q, y)
        ensures IsGcd(h, v, y)
      {
        GcdShift(h, q, y, n);
      }
    } else {
      TimesOne(q);
    }
  }

  lemma PositiveFactor(q: int, p: nat, v: int)
    requires v == q * p && v > 0 && p > 0
    ensures 0 < q <= v
  {
    if q <= 0 {
      MulLe(q, 0, p);
    } else {
      MulLe(1, p, q);
    }
  }

  lemma EvenPower(v: int, q: int, n: nat)
    requires n > 0 && v == q * Two(n)
    ensures v % 2 == 0
  {
    TwoDoubles(n - 1);
    hide Two;
    MulAssoc(q, 2, Two(n - 1));
    AddMultiple(0, q * Two(n - 1), 2);
    assert q * (2 * Two(n - 1)) == 2 * (q * Two(n - 1));
  }

  /** Shifts out all factors of two, in place. */
  method MakeOdd(x: BigInteger, ghost y: int)
    requires x.Valid() && x.Clamped() && x.Value() > 0 && (x.Value() % 2 == 1 || y % 2 == 1)
    modifies x
    ensures x.Valid() && x.Clamped() && 0 < x.Value() <= old(x.Value()) && x.Value() % 2 == 1
    ensures forall h :: IsGcd(h, x.Value(), y) ==> IsGcd(h, old(x.Value()), y)
  {
    hide Two, IsGcd, IsLowest;
    var i := x.GetLowestSetBit();
    OddPart(x.Value(), i, y);
    OverOne(x.Value());
    if i > 0 {
      x.RShiftTo(i, x);
    }
  }

  /** The loop, in place: one of the two numbers is odd. */
  method OddGcd(x: BigInteger, y: BigInteger)
    requires x != y && x.Valid() && x.Clamped() && y.Valid() && y.Clamped()
    requires x.Value() >= 0 && y.Value() > 0 && (x.Value() % 2 == 1 || y.Value() % 2 == 1)
    modifies x, y
    ensures y.Valid() && y.Clamped() && y.Value() > 0 && IsGcd(y.Value(), old(x.Value()), old(y.Value()))
  {
    hide IsGcd, Two;
    OneTwo();
    ghost var v, w := x.Value(), y.Value();
    var sign := x.Signum();
    while sign > 0
      invariant x.Valid() && x.Clamped() && y.Valid() && y.Clamped() && x.Value() >= 0 && y.Value() > 0
      invariant sign > 0 <==> x.Value() > 0
      invariant x.Value() % 2 == 1 || y.Value() % 2 == 1
      invariant forall h :: IsGcd(h, x.Value(), y.Value()) ==> IsGcd(h, v, w)
      decreases x.Value() + y.Value()
    {
      ghost var y0 := y.Value();
      MakeOdd(x, y.Value());
      MakeOdd(y, x.Value());
      Swapped(y.Value(), x.Value(), y0);
      OneStep(x, y);
      sign := x.Signum();
    }
    GcdZero(y.Value());
  }

  lemma OneTwo()
    ensures Two(1) == 2
  {
  }

  /** The smaller odd number is subtracted from the greater one, and the difference is halved. */
  method OneStep(x: BigInteger, y: BigInteger)
    requires x != y && x.Valid() && x.Clamped() && y.Valid() && y.Clamped()
    requires x.Value() > 0 && y.Value() > 0 && x.Value() % 2 == 1 && y.Value() % 2 == 1
    modifies x, y
    ensures x.Valid() && x.Clamped() && y.Valid() && y.Clamped() && x.Value() >= 0 && y.Value() > 0
    ensures x.Value() % 2 == 1 || y.Value() % 2 == 1
    ensures x.Value() + y.Value() < old(x.Value()) + old(y.Value())
    ensures forall h :: IsGcd(h, x.Value(), y.Value()) ==> IsGcd(h, old(x.Value()), old(y.Value()))
  {
    hide IsGcd, Two;
    OneTwo();
    ghost var v, w := x.Value(), y.Value();
    SignValue(x.digits[..x.t], x.s);
    SignValue(y.digits[..y.t], y.s);
    var c := x.CompareTo(y);
    if c >= 0 {
      Halves(v, w);
      x.SubTo(y, x);
      x.RShiftTo(1, x);
    } else {
      Halves(w, v);
      Swapped((w - v) / 2, v, w);
      y.SubTo(x, y);
      y.RShiftTo(1, y);
    }
  }

  /** |this|, as a new number. */
  method Magnitude(p: BigInteger) returns (x: BigInteger)
    requires p.Valid() && p.Clamped()
    ensures fresh(x) && x.Valid() && x.Clamped() && x.Value() == if p.Value() < 0 then -p.Value() else p.Value()
  {
    SignValue(p.digits[..p.t], p.s);
    if p.s < 0 {
      x := p.Negate();
    } else {
      x := p.Clone();
    }
  }

  lemma NotNegative(p: BigInteger)
    requires p.Valid() && p.Value() >= 0
    ensures p.s == 0
  {
    SignValue(p.digits[..p.t], p.s);
  }

  /** The common power of two is taken out first and put back at the end, in place. */
  method ShiftedGcd(x: BigInteger, y: BigInteger, g: nat)
    requires x != y && x.Valid() && x.Clamped() && y.Valid() && y.Clamped()
    requires x.Value() == (x.Value() / Two(g)) * Two(g) && y.Value() == (y.Value() / Two(g)) * Two(g)
    requires x.Value() / Two(g) > 0 && y.Value() / Two(g) > 0
    requires (x.Value() / Two(g)) % 2 == 1 || (y.Value() / Two(g)) % 2 == 1
    modifies x, y
    ensures y.Valid() && y.Clamped() && IsGcd(y.Value(), old(x.Value()), old(y.Value()))
  {
    hide IsGcd, Two;
    ghost var v, w := x.Value(), y.Value();
    OverOne(v);
    OverOne(w);
    if g > 0 {
      x.RShiftTo(g, x);
      y.RShiftTo(g, y);
    }
    OddGcd(x, y);
    GcdScale(y.Value(), v / Two(g), w / Two(g), Two(g));
    TimesOne(y.Value());
    if g > 0 {
      y.LShiftTo(g, y);
    }
  }

  /** The two magnitudes as new numbers, the greater one first. */
  method Ordered(p: BigInteger, a: BigInteger) returns (x: BigInteger, y: BigInteger)
    requires p.Valid() && p.Clamped() && a.Valid() && a.Clamped()
    ensures fresh(x) && fresh(y) && x != y && x.Valid() && x.Clamped() && y.Valid() && y.Clamped()
    ensures x.Value() >= y.Value() >= 0
    ensures var v := if p.Value() < 0 then -p.Value() else p.Value();
      var w := if a.Value() < 0 then -a.Value() else a.Value();
      (x.Value() == v && y.Value() == w) || (x.Value() == w && y.Value() == v)
  {
    x := Magnitude(p);
    y := Magnitude(a);
    NotNegative(x);
    NotNegative(y);
    var c := x.CompareTo(y);
    if c < 0 {
      x, y := y, x;
    }
  }

  /** The greatest common divisor of any two numbers, as a new one. */
  method Gcd(p: BigInteger, a: BigInteger) returns (r: BigInteger)
    requires p.Valid() && p.Clamped() && a.Valid() && a.Clamped()
    ensures fresh(r) && r.Valid() && r.Clamped() && IsGcd(r.Value(), p.Value(), a.Value())
  {
    hide IsGcd, Two, IsLowest;
    var x, y := Ordered(p, a);
    var i := x.GetLowestSetBit();
    var g := y.GetLowestSetBit();
    if g < 0 {
      GcdZero(x.Value());
      r := x;
    } else {
      CommonPower(x.Value(), y.Value(), i, g, if i < g then i else g);
      if i < g {
        g := i;
      }
      ShiftedGcd(x, y, g);
      r := y;
    }
    Signs(r.Value(), p.Value(), a.Value());
  }

  /** The common power of two divides both numbers, and leaves one of them odd. */
  lemma CommonPower(v: int, w: int, i: nat, j: nat, g: nat)
    requires v > 0 && w > 0 && IsLowest(v, i) && IsLowest(w, j) && g == if i < j then i else j
    ensures v == (v / Two(g)) * Two(g) && w == (w / Two(g)) * Two(g) && v / Two(g) > 0 && w / Two(g) > 0
    ensures (v / Two(g)) % 2 == 1 || (w / Two(g)) % 2 == 1
  {
    hide Two;
    SmallerPower(v, i, g);
    SmallerPower(w, j, g);
    PositiveFactor(v / Two(g), Two(g), v);
    PositiveFactor(w / Two(g), Two(g), w);
  }

  lemma SmallerPower(v: int, n: nat, g: nat)
    requires g <= n && IsLowest(v, n)
    ensures v == (v / Two(g)) * Two(g) && (g == n ==> (v / Two(g)) % 2 == 1)
  {
    hide Two;
    LowestExact(v, n);
    TwoAdd(n - g, g);
    var q := v / Two(n);
    MulAssoc(q, Two(n - g), Two(g));
    DivUnique(v, Two(g), q * Two(n - g), 0);
  }
}
