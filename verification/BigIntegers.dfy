/**
 Multi-precision integers: `t` digits and a sign word `s` that is 0 or -1 and stands for all higher digits.
 Destinations may be the same object as an operand.
 */
module BigIntegers {
  import opened Arithmetic
  import opened Bits
  import opened Digits
  import opened Multiply
  import opened Montgomery
  import opened Shifts

  /** Writing beyond the end extends the array; the elements skipped are never read before they are written. */
  function Put(a: seq<int>, i: nat, x: int): (r: seq<int>)
    ensures i < |r| && r[i] == x && |a| <= |r|
    ensures forall k :: 0 <= k < |a| && k != i ==> r[k] == a[k]
  {
    if i < |a| then a[i := x] else a + seq(i - |a|, _ => 0) + [x]
  }

  /** A step of a carrying loop: the low digit of `c` is stored at the end, and the rest is carried. */
  lemma CarryStep(d: seq<int>, c: int)
    ensures Val(d + [c % DV]) + Pow(|d| + 1) * (c / DV) == Val(d) + Pow(|d|) * c
  {
    hide Val;
    ValSnoc(d, c % DV);
    CarryInts(Pow(|d|), c / DV, c % DV);
    PowUp(|d|);
    hide Pow;
    assert c == DV * (c / DV) + c % DV;
  }

  lemma CarryInts(p: int, q: int, r: int)
    ensures p * r + (DV * p) * q == p * (DV * q + r)
  {
    MulAssoc(p, DV, q);
  }

  class BigInteger {
    var digits: seq<int>
    var t: nat
    var s: int

    constructor ()
      ensures digits == [] && t == 0 && s == 0 && Valid() && Value() == 0
    {
      digits, t, s := [], 0, 0;
    }

    ghost predicate Valid()
      reads this
    {
      t <= |digits| && AllDigits(digits[..t]) && (s == 0 || s == -1)
    }

    ghost function Value(): int
      requires Valid()
      reads this
    {
      Signed(digits[..t], s)
    }

    ghost predicate Clamped()
      requires Valid()
      reads this
    {
      t > 0 ==> digits[t - 1] != if s == 0 then 0 else DM
    }

    /** The cells up to `n` that are above the digits repeat the sign. */
    ghost predicate Filled(n: nat)
      reads this
    {
      n <= |digits| && forall k :: t <= k < n ==> digits[k] == if s == 0 then 0 else DM
    }

    /** Takes the value of one digit.  Below -1 the source reads a name that it does not define, which raises
        an error after the length and the sign were set. */
    method FromInt(x: int) returns (raised: bool)
      requires x < DV
      modifies this
      ensures raised <==> x < -1
      ensures !raised ==> Valid() && Clamped() && Value() == x
    {
      t, s := 1, if x < 0 then -1 else 0;
      if x > 0 {
        digits := Put(digits, 0, x);
        assert digits[..1] == [x];
        ValOne(x);
      } else if x < -1 {
        return true;
      } else {
        t := 0;
      }
      raised := false;
    }

    /** Drops high digits that repeat the sign. */
    method Clamp()
      requires Valid()
      modifies `t
      ensures Valid() && Clamped() && t <= old(t) && Value() == old(Value()) && Filled(old(t))
    {
      hide Val;
      var c := if s == 0 then 0 else DM;
      while t > 0 && digits[t - 1] == c
        invariant Valid() && t <= old(t) && Value() == old(Value()) && Filled(old(t))
        decreases t
      {
        LastDigit(digits[..t]);
        assert digits[..t][..t - 1] == digits[..t - 1];
        ValSnoc(digits[..t - 1], c);
        DropSign(t - 1, c, s);
        t := t - 1;
      }
    }

    /** What the end of `subTo` and `addTo` makes of the carry: a sign and possibly one more digit. */
    method Finish(i: nat, c: int)
      requires -2 <= c <= 1 && i <= |digits| && AllDigits(digits[..i])
      modifies this
      ensures Valid() && Clamped() && Value() == Val(old(digits)[..i]) + Pow(i) * c
      ensures Filled(i) && (t <= i ==> digits == old(digits))
    {
      hide Val, Pow;
      ghost var d := digits[..i];
      s := if c < 0 then -1 else 0;
      t := i;
      if c < -1 {
        digits := Put(digits, i, DV + c);
        t := i + 1;
        assert digits[..t] == d + [DV + c];
        ValSnoc(d, DV + c);
      } else if c > 0 {
        digits := Put(digits, i, c);
        t := i + 1;
        assert digits[..t] == d + [c];
        ValSnoc(d, c);
      }
      FinishInts(i, c);
      Clamp();
    }

    /** r = this - a, where r may be this or a. */
    method SubTo(a: BigInteger, r: BigInteger)
      requires Valid() && a.Valid()
      modifies r
      ensures r.Valid() && r.Clamped() && r.Value() == old(Value()) - old(a.Value())
      ensures r.Filled(Longer(old(t), old(a.t)))
      ensures r.t <= Longer(old(t), old(a.t)) ==> |old(r.digits)| <= |r.digits|
      ensures r.t <= Longer(old(t), old(a.t)) ==>
        forall k :: Longer(old(t), old(a.t)) <= k < |old(r.digits)| ==> r.digits[k] == old(r.digits)[k]
    {
      hide Val, Pow, AllDigits;
      ghost var x, y := digits[..t], a.digits[..a.t];
      var m := if a.t < t then a.t else t;
      NoDigits();
      Prefixes(x, m);
      Prefixes(y, m);
      assert r.digits[..0] == [] && x[..m][..0] == [] && y[..m][..0] == [];
      var c := Fold(this, 1, a, -1, 0, m, 0, r, x[..m], y[..m], -1, 0);
      if a.t < t {
        Distribute(Pow(m), c, -a.s);
        c := c - a.s;
        assert y[..m] == y;
        c := Fold(this, 1, this, 0, m, t, c, r, x, x, -1, 1);
        Distribute(Pow(t), c, s);
        r.Finish(t, c + s);
      } else {
        Distribute(Pow(m), c, s);
        c := c + s;
        assert x[..m] == x;
        c := Fold(this, 0, a, -1, m, a.t, c, r, y, y, -2, 0);
        Distribute(Pow(a.t), c, -a.s);
        r.Finish(a.t, c - a.s);
      }
    }

    /** r = this + a, where r may be this or a. */
    method AddTo(a: BigInteger, r: BigInteger)
      requires Valid() && a.Valid()
      modifies r
      ensures r.Valid() && r.Clamped() && r.Value() == old(Value()) + old(a.Value())
    {
      hide Val, Pow, AllDigits;
      ghost var x, y := digits[..t], a.digits[..a.t];
      var m := if a.t < t then a.t else t;
      NoDigits();
      Prefixes(x, m);
      Prefixes(y, m);
      assert r.digits[..0] == [] && x[..m][..0] == [] && y[..m][..0] == [];
      var c := Fold(this, 1, a, 1, 0, m, 0, r, x[..m], y[..m], 0, 1);
      if a.t < t {
        Distribute(Pow(m), c, a.s);
        c := c + a.s;
        assert y[..m] == y;
        c := Fold(this, 1, this, 0, m, t, c, r, x, x, -1, 1);
        Distribute(Pow(t), c, s);
        r.Finish(t, c + s);
      } else {
        Distribute(Pow(m), c, s);
        c := c + s;
        assert x[..m] == x;
        c := Fold(this, 0, a, 1, m, a.t, c, r, y, y, -1, 1);
        Distribute(Pow(a.t), c, a.s);
        r.Finish(a.t, c + a.s);
      }
    }

    /** r = this, digit by digit. */
    method CopyTo(r: BigInteger)
      requires Valid()
      modifies r
      ensures r.Valid() && r.Value() == old(Value()) && r.t == old(t) && r.s == old(s)
      ensures old(Clamped()) ==> r.Clamped()
    {
      ghost var x := digits[..t];
      var i := t;
      while i > 0
        invariant 0 <= i <= t == old(t) && s == old(s) && (i < t ==> t <= |r.digits|) && t <= |digits|
        invariant digits[..t] == x && forall k :: i <= k < t ==> r.digits[k] == x[k]
      {
        i := i - 1;
        assert digits[i] == x[i];
        r.digits := Put(r.digits, i, digits[i]);
        assert digits[..t] == x by {
          assert forall k :: 0 <= k < t ==> digits[k] == x[k];
        }
      }
      r.t, r.s := t, s;
      assert t == 0 ==> r.digits[..0] == x;
      assert r.digits[..r.t] == x;
    }

    /** The sign of `this - a`, except that two negative numbers of different length are compared the wrong
        way round.  Superfluous digits do not matter to numbers of the same length. */
    method CompareTo(a: BigInteger) returns (r: int)
      requires Valid() && a.Valid() && ((Clamped() && a.Clamped()) || (t == a.t && s == a.s))
      ensures if s == a.s == -1 && t != a.t
              then (r > 0 <==> Value() < a.Value()) && (r < 0 <==> Value() > a.Value()) && r != 0
              else (r > 0 <==> Value() > a.Value()) && (r < 0 <==> Value() < a.Value())
    {
      hide Val, Pow;
      r := s - a.s;
      if r != 0 {
        Magnitude();
        a.Magnitude();
        return;
      }
      r := t - a.t;
      if r != 0 {
        Magnitude();
        a.Magnitude();
        PowMono(a.t, if t > a.t then t - 1 else a.t);
        PowMono(t, if a.t > t then a.t - 1 else t);
        return;
      }
      ghost var x, y := digits[..t], a.digits[..t];
      var i := t;
      while i > 0
        invariant 0 <= i <= t && x[i..] == y[i..]
      {
        i := i - 1;
        r := digits[i] - a.digits[i];
        if r != 0 {
          FirstDifference(x, y, i);
          FirstDifference(y, x, i);
          return;
        }
        assert x[i..] == [x[i]] + x[i + 1..] && y[i..] == [y[i]] + y[i + 1..];
      }
      assert x == x[0..] == y[0..] == y;
      r := 0;
    }

    /** A number without superfluous digits lies between the powers its length suggests. */
    lemma Magnitude()
      requires Valid() && Clamped()
      ensures s == 0 ==> 0 <= Value() < Pow(t) && (t > 0 ==> Pow(t - 1) <= Value())
      ensures s == -1 ==> -Pow(t) <= Value() < 0 && (t > 0 ==> Value() < -Pow(t - 1))
    {
      hide Val;
      var d := digits[..t];
      ValBound(d);
      if t > 0 {
        assert d == d[..t - 1] + [d[t - 1]];
        ValSnoc(d[..t - 1], d[t - 1]);
        ValBound(d[..t - 1]);
        TopWeight(t - 1, d[t - 1], Val(d[..t - 1]));
      }
    }

    /** r = this * DV^n, where r may be this.  A negative n that shifts all digits out leaves only the sign. */
    method DlShiftTo(n: int, r: BigInteger)
      requires Valid() && (n >= 0 || t + n == 0)
      modifies r
      ensures r.Valid() && r.t == old(t) + n && r.s == old(s) && (n >= 0 ==> r.Value() == Pow(n) * old(Value()))
      ensures old(Clamped()) && old(t) > 0 ==> r.Clamped()
    {
      hide Val, Pow;
      ghost var x := digits[..t];
      if n >= 0 {
        MoveDigits(n, r);
        ZeroDigits(n, r);
      }
      r.t, r.s := t + n, s;
      if n >= 0 {
        ghost var z := r.digits[..n];
        assert r.digits[..r.t] == z + x;
        ZerosBelow(z, x, s);
      }
    }

    /** The digits go up by `n` places, from the top. */
    method MoveDigits(n: nat, r: BigInteger)
      requires t <= |digits|
      modifies r`digits
      ensures t > 0 ==> t + n <= |r.digits|
      ensures forall k :: 0 <= k < t ==> r.digits[k + n] == old(digits)[k]
    {
      ghost var x := digits;
      var i := t;
      while i > 0
        invariant 0 <= i <= t <= |digits| && (i < t ==> t + n <= |r.digits|)
        invariant forall k :: 0 <= k < i ==> digits[k] == x[k]
        invariant forall k :: i <= k < t ==> r.digits[k + n] == x[k]
      {
        i := i - 1;
        r.digits := Put(r.digits, i + n, digits[i]);
      }
    }

    /** r = this / DV^n, rounded down. */
    method DrShiftTo(n: nat, r: BigInteger)
      requires Valid()
      modifies r
      ensures r.Valid() && r.s == old(s) && r.Value() == old(Value()) / Pow(n) && (old(Clamped()) ==> r.Clamped())
    {
      hide Val, Pow;
      ghost var x := digits[..t];
      ShiftValue(x, s, n);
      var i := n;
      while i < t
        invariant n <= i && (i <= t || i == n) && t == old(t) && s == old(s) && t <= |digits|
        invariant i <= t ==> i - n <= |r.digits| && forall k :: 0 <= k < i - n ==> r.digits[k] == x[n + k]
        invariant forall k :: i <= k < t ==> digits[k] == x[k]
      {
        r.digits := Put(r.digits, i - n, digits[i]);
        i := i + 1;
      }
      r.t, r.s := if t > n then t - n else 0, s;
      assert r.digits[..r.t] == if |x| > n then x[n..] else [];
    }

    /** r = this / 2^n, rounded down, where r may be this. */
    method RShiftTo(n: nat, r: BigInteger)
      requires Valid()
      modifies r
      ensures r.Valid() && r.Clamped() && r.Value() == old(Value()) / Two(n)
    {
      hide Val, Pow, Two, Dropped;
      ghost var x, v := digits[..t], Value();
      r.s := s;
      var ds, bs := n / 28, n % 28;
      WholeShift(n, v);
      ShiftValue(x, s, ds);
      if ds >= t {
        r.t := 0;
        SignShift(s, bs);
        return;
      }
      DropDigits(ds, bs, r);
      r.digits := PutSign(r.digits, t - ds, x[ds..], s, bs);
      r.t := t - ds;
      r.Clamp();
    }

    /** The digits from `ds` on, without their `bs` lowest bits. */
    method DropDigits(ds: nat, bs: nat, r: BigInteger)
      requires Valid() && ds < t && bs < 28
      modifies r`digits
      ensures t - ds <= |r.digits| && Dropped(r.digits[..t - ds], old(digits)[..t][ds..], bs)
    {
      hide Two, Dropped, Joined, AllDigits;
      ghost var x := digits[..t];
      DigitOf(x, ds);
      DropFirst(x[ds], bs);
      r.digits := Put(r.digits, 0, digits[ds] / Two(bs));
      assert r.digits[..1] == [x[ds] / Two(bs)] && x[ds..ds + 1] == [x[ds]];
      var i := ds + 1;
      while i < t
        invariant ds < i <= t <= |digits| && i - ds <= |r.digits|
        invariant forall k :: i <= k < t ==> digits[k] == x[k]
        invariant Dropped(r.digits[..i - ds], x[ds..i], bs)
      {
        DigitOf(x, i);
        DropNext(r.digits[..i - ds], x[ds..i], x[i], bs);
        assert x[ds..i + 1] == x[ds..i] + [x[i]];
        r.digits := PutJoined(r.digits, i - ds, digits[i], bs);
        i := i + 1;
      }
      assert x[ds..t] == x[ds..];
    }

    /** r = this * 2^n, where r may be this. */
    method LShiftTo(n: nat, r: BigInteger)
      requires Valid()
      modifies r
      ensures r.Valid() && r.Clamped() && r.Value() == old(Value()) * Two(n) && r.Filled(old(t) + n / 28 + 1)
    {
      hide Val, Pow, Two, Raised;
      ghost var x, v := digits[..t], Value();
      var ds, bs := n / 28, n % 28;
      WholeShift(n, v);
      var c;
      ghost var d;
      c, d := RaiseDigits(ds, bs, r);
      ZeroDigits(ds, r);
      r.digits := Put(r.digits, ds, c);
      ghost var z := r.digits[..ds];
      assert r.digits[..t + ds + 1] == z + ([c] + d);
      RaisedValue(z, d, c, x, s, bs);
      r.t, r.s := t + ds + 1, s;
      r.Clamp();
    }

    /** The digits above the lowest one, from the top. */
    method RaiseDigits(ds: nat, bs: nat, r: BigInteger) returns (c: int, ghost d: seq<int>)
      requires Valid() && bs < 28
      modifies r`digits
      ensures |d| == t && Raised(d, c, old(digits)[..t], s, bs)
      ensures (t > 0 ==> t + ds + 1 <= |r.digits|) && forall k :: 0 <= k < t ==> r.digits[ds + 1 + k] == d[k]
    {
      hide Val, Pow, Two, Raised, AllDigits;
      ghost var x := digits[..t];
      c, d := SignBits(s, bs), [];
      RaiseFirst(s, bs);
      var i := t;
      assert x[t..] == [];
      while i > 0
        invariant 0 <= i <= t <= |digits| && |d| == t - i && (i < t ==> t + ds + 1 <= |r.digits|)
        invariant forall k :: 0 <= k < i ==> digits[k] == x[k]
        invariant forall k :: 0 <= k < |d| ==> r.digits[i + ds + 1 + k] == d[k]
        invariant Raised(d, c, x[i..], s, bs)
      {
        i := i - 1;
        DigitOf(x, i);
        RaiseNext(d, c, x[i + 1..], s, bs, x[i]);
        assert x[i..] == [x[i]] + x[i + 1..];
        var y := digits[i] / Two(28 - bs) + c;
        c := (digits[i] % Two(28 - bs)) * Two(bs);
        r.digits := Put(r.digits, i + ds + 1, y);
        d := [y] + d;
      }
      assert x[0..] == x;
    }

    /** The `n` lowest digits become zero. */
    method ZeroDigits(n: nat, r: BigInteger)
      modifies r`digits
      ensures n <= |r.digits| && |old(r.digits)| <= |r.digits| && forall k :: 0 <= k < n ==> r.digits[k] == 0
      ensures forall k :: n <= k < |old(r.digits)| ==> r.digits[k] == old(r.digits)[k]
    {
      var i := n;
      while i > 0
        invariant 0 <= i <= n && (i < n ==> n <= |r.digits|) && |old(r.digits)| <= |r.digits|
        invariant forall k :: i <= k < n ==> r.digits[k] == 0
        invariant forall k :: 0 <= k < |old(r.digits)| && k >= n ==> r.digits[k] == old(r.digits)[k]
      {
        i := i - 1;
        r.digits := Put(r.digits, i, 0);
      }
    }

    /** The number of zeros below the lowest set bit; -1 for zero. */
    method GetLowestSetBit() returns (r: int)
      requires Valid()
      ensures r == -1 <==> Value() == 0
      ensures r != -1 ==> r >= 0 && IsLowest(Value(), r)
    {
      hide Val, Pow, Two, IsLowest;
      ghost var d := digits[..t];
      for i := 0 to t
        invariant forall k :: 0 <= k < i ==> d[k] == 0
      {
        if digits[i] != 0 {
          var b := LBit(digits[i]);
          LowestInDigit(d, s, i, b);
          LowestNotZero(Value(), 28 * i + b);
          return i * 28 + b;
        }
      }
      LowestInSign(d);
      if s < 0 {
        LowestNotZero(Value(), 28 * t);
        return t * 28;
      }
      return -1;
    }

    method IsEven() returns (r: bool)
      requires Valid()
      ensures r <==> Value() % 2 == 0
    {
      ParityOf(digits[..t], s);
      r := (if t > 0 then digits[0] % 2 else s) == 0;
    }

    /** The sign of a number without superfluous digits. */
    method Signum() returns (r: int)
      requires Valid() && Clamped()
      ensures r == if Value() < 0 then -1 else if Value() == 0 then 0 else 1
    {
      hide Val, Pow;
      Magnitude();
      NoDigits();
      if s < 0 {
        return -1;
      } else if t <= 0 || (t == 1 && digits[0] <= 0) {
        return 0;
      }
      return 1;
    }

    /** A new number with the same value. */
    method Clone() returns (r: BigInteger)
      requires Valid()
      ensures fresh(r) && r.Valid() && r.Value() == Value() && (Clamped() ==> r.Clamped())
    {
      r := new BigInteger();
      CopyTo(r);
    }

    /** -this, as a new number. */
    method Negate() returns (r: BigInteger)
      requires Valid()
      ensures fresh(r) && r.Valid() && r.Clamped() && r.Value() == -Value()
    {
      var zero := new BigInteger();
      r := new BigInteger();
      zero.SubTo(this, r);
    }

    method Add(a: BigInteger) returns (r: BigInteger)
      requires Valid() && a.Valid()
      ensures fresh(r) && r.Valid() && r.Clamped() && r.Value() == Value() + a.Value()
    {
      r := new BigInteger();
      AddTo(a, r);
    }

    method Subtract(a: BigInteger) returns (r: BigInteger)
      requires Valid() && a.Valid()
      ensures fresh(r) && r.Valid() && r.Clamped() && r.Value() == Value() - a.Value()
    {
      r := new BigInteger();
      SubTo(a, r);
    }

    method Multiply(a: BigInteger) returns (r: BigInteger)
      requires Valid() && a.Valid()
      ensures fresh(r) && r.Valid() && r.Clamped() && r.Value() == Value() * a.Value()
    {
      r := new BigInteger();
      MultiplyTo(a, r);
    }

    /** |this|: this itself, or a new number. */
    method Abs() returns (r: BigInteger)
      requires Valid()
      ensures r.Valid() && r.s == 0 && r.Value() == (if Value() < 0 then -Value() else Value())
      ensures r == this || fresh(r)
      ensures (s == 0 <==> Value() >= 0) && (s == 0 ==> r == this) && (Clamped() ==> r.Clamped())
    {
      SignValue(digits[..t], s);
      if s < 0 {
        r := Negate();
        SignValue(r.digits[..r.t], r.s);
      } else {
        r := this;
      }
    }

    /** r = this * a, where r is neither this nor a. */
    method MultiplyTo(a: BigInteger, r: BigInteger)
      requires Valid() && a.Valid() && r != this && r != a
      modifies r
      ensures r.Valid() && r.Clamped() && r.Value() == Value() * a.Value()
    {
      hide Val, Pow;
      var x := Abs();
      var y := a.Abs();
      var d := MultiplyDigits(x.digits[..x.t], y.digits[..y.t]);
      r.digits, r.t, r.s := d, |d|, 0;
      assert d[..|d|] == d;
      r.Clamp();
      SignedProduct(Value(), a.Value(), x.Value(), y.Value());
      if s != a.s {
        var zero := new BigInteger();
        zero.SubTo(r, r);
      }
    }

    /** r = this * this, where r is not this. */
    method SquareTo(r: BigInteger)
      requires Valid() && r != this
      modifies r
      ensures r.Valid() && r.Clamped() && r.Value() == Value() * Value()
    {
      hide Val, Pow;
      var x := Abs();
      var d := SquareDigits(x.digits[..x.t]);
      r.digits, r.t, r.s := d, |d|, 0;
      assert d[..|d|] == d;
      r.Clamp();
      SignedProduct(Value(), Value(), x.Value(), x.Value());
    }
  }

  /** The low bits of a digit complete the one below it, and its high bits follow. */
  method PutJoined(digits: seq<int>, k: nat, x: int, bs: nat) returns (r: seq<int>)
    requires 0 < k <= |digits| && bs < 28
    ensures |r| >= |digits| && k + 1 <= |r| && r[..k + 1] == Joined(digits[..k], x, bs)
    ensures forall i :: k < i < |digits| ==> r[i] == digits[i]
  {
    hide Two;
    r := Put(digits, k - 1, digits[k - 1] + (x % Two(bs)) * Two(28 - bs));
    r := Put(r, k, x / Two(bs));
  }

  /** The sign completes the last digit. */
  method PutSign(digits: seq<int>, k: nat, ghost a: seq<int>, s: int, bs: nat) returns (r: seq<int>)
    requires k == |a| <= |digits| && Dropped(digits[..k], a, bs) && (s == 0 || s == -1)
    ensures |r| == |digits| && AllDigits(r[..k]) && Signed(r[..k], s) == Signed(a, s) / Two(bs)
  {
    assert k > 0 && bs < 28;
    hide Two, Val, Pow, Dropped;
    DropWithSign(digits[..k], a, s, bs);
    NoSignBits(s);
    r := digits;
    if bs > 0 {
      r := r[k - 1 := r[k - 1] + (s % Two(bs)) * Two(28 - bs)];
      assert r[..k] == digits[..k][k - 1 := digits[k - 1] + (s % Two(bs)) * Two(28 - bs)];
    } else {
      assert digits[..k][k - 1 := digits[k - 1] + 0] == digits[..k];
    }
  }

  lemma LastDigit(x: seq<int>)
    requires x != []
    ensures x == x[..|x| - 1] + [x[|x| - 1]]
  {
  }

  lemma DigitOf(x: seq<int>, i: nat)
    requires AllDigits(x) && i < |x|
    ensures IsDigit(x[i])
  {
  }

  lemma SignShift(s: int, bs: nat)
    requires s == 0 || s == -1
    ensures Signed([], s) / Two(bs) == Signed([], s) == s
  {
    NoDigits();
    SignDigit(s, Two(bs));
  }

  lemma NoSignBits(s: int)
    ensures (s % Two(0)) * Two(28) == 0
  {
    assert Two(0) == 1;
  }

  lemma RaisedValue(z: seq<int>, d: seq<int>, c: int, x: seq<int>, s: int, bs: nat)
    requires Raised(d, c, x, s, bs) && forall k :: 0 <= k < |z| ==> z[k] == 0
    ensures AllDigits(z + ([c] + d)) && Signed(z + ([c] + d), s) == Pow(|z|) * (Two(bs) * Signed(x, s))
  {
    hide Val, Pow, Two;
    SignedCons(c, d, s);
    ZerosBelow(z, [c] + d, s);
  }

  lemma LowestNotZero(v: int, n: nat)
    requires IsLowest(v, n)
    ensures v != 0
  {
    hide Two;
    if v == 0 {
      DivUnique(0, Two(n), 0, 0);
    }
  }

  lemma ParityOf(d: seq<int>, s: int)
    ensures Signed(d, s) % 2 == if d == [] then s % 2 else d[0] % 2
  {
    if d != [] {
      assert d == [d[0]] + d[1..];
      SignedCons(d[0], d[1..], s);
      MulAssoc(2, 0x800_0000, Signed(d[1..], s));
      AddMultiple(d[0], 0x800_0000 * Signed(d[1..], s), 2);
    } else {
      NoDigits();
    }
  }

  lemma SignValue(d: seq<int>, s: int)
    requires AllDigits(d) && (s == 0 || s == -1)
    ensures s == 0 <==> Signed(d, s) >= 0
  {
    ValBound(d);
  }

  lemma SignedProduct(v: int, w: int, x: int, y: int)
    requires x == (if v < 0 then -v else v) && y == (if w < 0 then -w else w)
    ensures x * y == if (v < 0) == (w < 0) then v * w else -(v * w)
  {
  }

  /** A new number with a given value. */
  method NewValue(x: int) returns (r: BigInteger)
    requires -1 <= x < DV
    ensures fresh(r) && r.Valid() && r.Clamped() && r.Value() == x
  {
    r := new BigInteger();
    var raised := r.FromInt(x);
  }

  /** Two negative numbers that `compareTo` orders the wrong way round: -1 has no digits and -2 has one. */
  method ComparedBackwards() returns (a: BigInteger, b: BigInteger, r: int)
    ensures a.Valid() && b.Valid() && a.Clamped() && b.Clamped() && a.Value() == -1 && b.Value() == -2
    ensures r < 0
  {
    hide Val;
    a := NewValue(-1);
    var one := NewValue(1);
    b := new BigInteger();
    a.SubTo(one, b);
    a.Magnitude();
    b.Magnitude();
    assert Pow(0) == 1;
    r := a.CompareTo(b);
  }

  /** Montgomery reduction modulo an odd number. */
  class Reducer {
    const m: BigInteger
    const mp: int

    constructor (m: BigInteger)
      requires m.Valid() && m.t > 0 && m.digits[0] % 2 == 1
      ensures this.m == m && IsDigit(mp) && (m.digits[0] * mp + 1) % DV == 0
    {
      this.m := m;
      var inv := InvDigit(m.digits[..m.t]);
      mp := inv;
    }

    /** The modulus is an odd positive number without superfluous digits. */
    ghost predicate Valid()
      reads m
    {
      && m.Valid() && m.Clamped() && m.s == 0 && m.t > 0 && m.digits[0] % 2 == 1
      && IsDigit(mp) && (m.digits[0] * mp + 1) % DV == 0
    }

    ghost function R(): int
      reads m
    {
      Pow(m.t)
    }

    /** x = x / R modulo m. */
    method Reduce(x: BigInteger) returns (ghost k: int)
      requires Valid() && x.Valid() && x.s == 0 && x != m && x.Value() < m.Value() * R()
      modifies x
      ensures Valid() && x.Valid() && x.Clamped() && 0 <= x.Value() < m.Value()
      ensures x.Value() * R() == old(x.Value()) + k * m.Value()
    {
      hide Val, Pow;
      ghost var v, w, d := x.Value(), m.Value(), m.digits[..m.t];
      var digits;
      digits, k := ReduceDigits(x.digits[..x.t], m.digits[..m.t], mp);
      Reduced(x.digits[..x.t], d, digits, k);
      x.digits, x.t := digits, |digits|;
      assert digits[..|digits|] == digits;
      ShiftValue(digits, 0, m.t);
      DropZeros(digits, m.t);
      x.Clamp();
      x.DrShiftTo(m.t, x);
      SignValue(x.digits[..x.t], x.s);
      SignValue(d, 0);
      var c := x.CompareTo(m);
      if c >= 0 {
        SubtractMultiple(x.Value(), w, R(), v, k);
        x.SubTo(m, x);
        k := k - R();
      }
    }

    /** A residue below the modulus. */
    ghost predicate Residue(x: BigInteger)
      reads m, x
    {
      Valid() && x.Valid() && 0 <= x.Value() < m.Value()
    }

    /** r = x * y / R modulo m. */
    method MulTo(x: BigInteger, y: BigInteger, r: BigInteger)
      requires Valid() && Residue(x) && Residue(y) && r != x && r != y && r != m
      modifies r
      ensures Residue(r) && r.Clamped() && Reduces(r.Value(), x.Value() * y.Value(), m.Value(), R())
    {
      hide Val, Pow, Reduces;
      m.Magnitude();
      ProductBelow(x.Value(), y.Value(), m.Value(), R());
      x.MultiplyTo(y, r);
      SignValue(r.digits[..r.t], r.s);
      ghost var k := Reduce(r);
      ReducesBy(r.Value(), x.Value() * y.Value(), m.Value(), R(), k);
    }

    /** r = x * x / R modulo m. */
    method SqrTo(x: BigInteger, r: BigInteger)
      requires Valid() && Residue(x) && r != x && r != m
      modifies r
      ensures Residue(r) && r.Clamped() && Reduces(r.Value(), x.Value() * x.Value(), m.Value(), R())
    {
      hide Val, Pow, Reduces;
      m.Magnitude();
      ProductBelow(x.Value(), x.Value(), m.Value(), R());
      x.SquareTo(r);
      SignValue(r.digits[..r.t], r.s);
      ghost var k := Reduce(r);
      ReducesBy(r.Value(), x.Value() * x.Value(), m.Value(), R(), k);
    }

    /** x / R modulo m, as a new number. */
    method Revert(x: BigInteger) returns (r: BigInteger)
      requires Valid() && Residue(x)
      ensures fresh(r) && Residue(r) && r.Clamped() && Reduces(r.Value(), x.Value(), m.Value(), R())
    {
      hide Val, Pow, Reduces;
      SignValue(x.digits[..x.t], x.s);
      r := new BigInteger();
      x.CopyTo(r);
      MulLe(1, R(), m.Value());
      ghost var k := Reduce(r);
      ReducesBy(r.Value(), x.Value(), m.Value(), R(), k);
    }
  }

  lemma ProductBelow(x: int, y: int, m: int, r: int)
    requires 0 <= x < m && 0 <= y < m <= r
    ensures 0 <= x * y < m * r
  {
    MulLe(x, m - 1, y);
    MulLe(y, r - 1, m - 1);
    assert (m - 1) * (r - 1) == m * r - m - r + 1;
  }

  lemma DropZeros(d: seq<int>, n: nat)
    requires n < |d|
    ensures Signed(if |d| > n then d[n..] else [], 0) == Val(d[n..]) && Signed(d, 0) == Val(d)
  {
  }

  lemma SubtractMultiple(x: int, m: int, r: int, v: int, k: int)
    requires x * r == v + k * m
    ensures (x - m) * r == v + (k - r) * m
  {
  }

  lemma Distribute(p: int, c: int, s: int)
    ensures p * (c + s) == p * c + s * p
  {
  }

  lemma FinishInts(i: nat, c: int)
    ensures Pow(i) * (DV + c) + -1 * Pow(i + 1) == Pow(i) * c
    ensures -1 * Pow(i) == Pow(i) * -1 && Pow(i) * 0 == 0
  {
  }

  lemma Prefixes(x: seq<int>, m: nat)
    requires m <= |x| && AllDigits(x)
    ensures AllDigits(x[..m]) && AllDigits([])
  {
  }

  /** The loops of `subTo` and `addTo`: digits i..n of `u * p + v * q` with carry `c` are stored in r, which
      may be p or q. */
  method Fold(p: BigInteger, u: int, q: BigInteger, v: int, start: nat, n: nat, carry: int, r: BigInteger,
              ghost x: seq<int>, ghost y: seq<int>, ghost lo: int, ghost hi: int) returns (c: int)
    requires start <= n && start <= |r.digits| && -1 <= u <= 1 && -1 <= v <= 1
    requires -2 <= lo <= carry <= hi <= 1 && lo <= Min0(u) + Min0(v) && hi >= Max0(u) + Max0(v) - 1
    requires |x| == |y| == n && AllDigits(x) && AllDigits(y) && AllDigits(r.digits[..start])
    requires u != 0 ==> n <= |p.digits| && forall k :: start <= k < n ==> p.digits[k] == x[k]
    requires v != 0 ==> n <= |q.digits| && forall k :: start <= k < n ==> q.digits[k] == y[k]
    modifies r`digits
    ensures lo <= c <= hi && n <= |r.digits| && |old(r.digits)| <= |r.digits| && AllDigits(r.digits[..n])
    ensures forall k :: n <= k < |old(r.digits)| ==> r.digits[k] == old(r.digits)[k]
    ensures Val(r.digits[..n]) + Pow(n) * c ==
      Val(old(r.digits)[..start]) + Pow(start) * carry + u * (Val(x) - Val(x[..start])) + v * (Val(y) - Val(y[..start]))
  {
    hide Val, Pow;
    c := carry;
    var i := start;
    while i < n
      invariant start <= i <= n && lo <= c <= hi && i <= |r.digits| && |old(r.digits)| <= |r.digits|
      invariant forall k :: i <= k < |old(r.digits)| ==> r.digits[k] == old(r.digits)[k]
      invariant u != 0 ==> n <= |p.digits| && forall k :: i <= k < n ==> p.digits[k] == x[k]
      invariant v != 0 ==> n <= |q.digits| && forall k :: i <= k < n ==> q.digits[k] == y[k]
      invariant AllDigits(r.digits[..i])
      invariant Val(r.digits[..i]) + Pow(i) * c ==
        Val(old(r.digits)[..start]) + Pow(start) * carry + u * (Val(x[..i]) - Val(x[..start]))
        + v * (Val(y[..i]) - Val(y[..start]))
    {
      var sum := c + (if u == 0 then 0 else u * p.digits[i]) + (if v == 0 then 0 else v * q.digits[i]);
      ghost var d := r.digits[..i];
      FoldStep(d, x, y, i, c, u, v, sum);
      CarryRange(c, u, x[i], v, y[i], sum, lo, hi);
      r.digits := Put(r.digits, i, And(sum, DV));
      assert r.digits[..i + 1] == d + [sum % DV];
      i, c := i + 1, Sar(sum, DV);
    }
    assert x[..n] == x && y[..n] == y;
  }

  function Longer(m: nat, n: nat): nat {
    if n < m then m else n
  }

  function Min0(u: int): int {
    if u < 0 then u else 0
  }

  function Max0(u: int): int {
    if u > 0 then u else 0
  }

  lemma CarryRange(c: int, u: int, x: int, v: int, y: int, sum: int, lo: int, hi: int)
    requires lo <= c <= hi && -1 <= u <= 1 && -1 <= v <= 1 && IsDigit(x) && IsDigit(y) && sum == c + u * x + v * y
    requires lo <= Min0(u) + Min0(v) && hi >= Max0(u) + Max0(v) - 1
    ensures IsDigit(sum % DV) && lo <= sum / DV <= hi && c - 2 * DV < sum < c + 2 * DV
  {
    assert u * x == if u == 0 then 0 else if u == 1 then x else -x;
    assert v * y == if v == 0 then 0 else if v == 1 then y else -y;
  }

  lemma FoldStep(d: seq<int>, x: seq<int>, y: seq<int>, i: nat, c: int, u: int, v: int, sum: int)
    requires |d| == i < |x| == |y| && sum == c + u * x[i] + v * y[i]
    ensures Val(d + [sum % DV]) + Pow(i + 1) * (sum / DV) ==
      Val(d) + Pow(i) * c + u * (Val(x[..i + 1]) - Val(x[..i])) + v * (Val(y[..i + 1]) - Val(y[..i]))
  {
    hide Val, Pow;
    assert x[..i + 1] == x[..i] + [x[i]] && y[..i + 1] == y[..i] + [y[i]];
    ValSnoc(x[..i], x[i]);
    ValSnoc(y[..i], y[i]);
    CarryStep(d, sum);
    var p := Pow(i);
    assert p * (c + u * x[i] + v * y[i]) == p * c + u * (p * x[i]) + v * (p * y[i]);
  }

  lemma DropSign(n: nat, c: int, s: int)
    requires (s == 0 && c == 0) || (s == -1 && c == DM)
    ensures Pow(n) * c + s * Pow(n + 1) == s * Pow(n)
  {
  }

  lemma TopWeight(n: nat, top: int, low: int)
    requires 0 <= low < Pow(n) && IsDigit(top)
    ensures top >= 1 ==> Pow(n) <= low + Pow(n) * top
    ensures top <= DM - 1 ==> low + Pow(n) * top + -1 * Pow(n + 1) < -Pow(n)
  {
    if top >= 1 {
      MulLe(1, top, Pow(n));
    }
    if top <= DM - 1 {
      MulLe(top, DM - 1, Pow(n));
    }
  }

  /** The highest digit in which two numbers differ decides. */
  lemma FirstDifference(x: seq<int>, y: seq<int>, i: nat)
    requires |x| == |y| && i < |x| && AllDigits(x) && AllDigits(y) && x[i + 1..] == y[i + 1..]
    ensures x[i] < y[i] ==> Val(x) < Val(y)
  {
    hide Val, Pow;
    ValSplit(x, i + 1);
    ValSplit(y, i + 1);
    assert x[..i + 1] == x[..i] + [x[i]] && y[..i + 1] == y[..i] + [y[i]];
    ValSnoc(x[..i], x[i]);
    ValSnoc(y[..i], y[i]);
    ValBound(x[..i]);
    ValBound(y[..i]);
    if x[i] < y[i] {
      DifferenceInts(Pow(i), Val(x[..i]), x[i], Val(y[..i]), y[i]);
    }
  }

  lemma DifferenceInts(p: int, l: int, d: int, l': int, d': int)
    requires 0 <= l < p && 0 <= l' && d < d'
    ensures l + p * d < l' + p * d'
  {
    MulLe(d + 1, d', p);
  }

  lemma ShiftValue(x: seq<int>, s: int, n: nat)
    requires AllDigits(x) && (s == 0 || s == -1)
    ensures Signed(x, s) / Pow(n) == Signed(if |x| > n then x[n..] else [], s)
  {
    hide Val, Pow;
    if |x| > n {
      ValSplit(x, n);
      ValBound(x[..n]);
      PowAdd(n, |x| - n);
      ShiftInts(Val(x[..n]), Val(x[n..]), Pow(n), Pow(|x| - n), s);
    } else {
      ValBound(x);
      NoDigits();
      PowMono(|x|, n);
      ShortInts(Val(x), Pow(|x|), Pow(n), s);
    }
  }

  lemma ShiftInts(low: int, high: int, p: int, q: int, s: int)
    requires 0 <= low < p
    ensures (low + p * high + s * (p * q)) / p == high + s * q
  {
    assert s * (p * q) == p * (s * q);
    DivInts(low, high + s * q, p);
  }

  lemma ShortInts(v: int, p: int, q: int, s: int)
    requires 0 <= v < p <= q && (s == 0 || s == -1)
    ensures (v + s * p) / q == s
  {
    DivInts(v + s * p - q * s, s, q);
  }

  lemma DivInts(low: int, high: int, p: int)
    requires 0 <= low < p
    ensures (low + p * high) / p == high
  {
    DivUnique(low + p * high, p, high, low);
  }
}
