/**
 The three reductions that `modPow` chooses between, behind one interface: a number stands for base^n when it is
 base^n times a fixed factor, modulo m.
 */
module Reducers {
  import opened Arithmetic
  import opened Digits
  import opened Montgomery
  import opened BigIntegers
  import opened Exponentiation
  import opened Division
  import opened Barrett

  datatype Reduction =
    | ByDivision(classic: BigInteger)
    | ByBarrett(barrett: BarrettReducer)
    | ByMontgomery(reducer: Reducer)
  {
    function Modulus(): BigInteger {
      match this
      case ByDivision(m) => m
      case ByBarrett(b) => b.m
      case ByMontgomery(z) => z.m
    }

    /** The numbers that a reduction reads. */
    ghost function Fixed(): set<BigInteger> {
      match this
      case ByDivision(m) => {m}
      case ByBarrett(b) => {b.m, b.mu}
      case ByMontgomery(z) => {z.m}
    }

    /** The numbers that a reduction overwrites. */
    ghost function Scratch(): set<BigInteger> {
      match this
      case ByDivision(_) => {}
      case ByBarrett(b) => {b.r2, b.q3}
      case ByMontgomery(_) => {}
    }

    /** The modulus is positive, and `u` undoes the factor that numbers are kept with. */
    ghost predicate Valid(u: int)
      reads Fixed()
    {
      && Modulus() in Fixed() && Modulus().Valid() && Modulus().Clamped() && Modulus().Value() > 0
      && Fixed() !! Scratch()
      && match this
         case ByDivision(m) => u == 1
         case ByBarrett(b) => b.Valid() && u == 1
         case ByMontgomery(z) => z.Valid() && (z.R() * u) % z.m.Value() == 1 % z.m.Value()
    }

    /** The number `x` stands for base^n. */
    ghost predicate Stands(u: int, x: BigInteger, base: int, n: nat)
      reads Modulus(), x
    {
      && Modulus().Valid() && Modulus().Value() > 0 && x.Valid() && x.Clamped() && 0 <= x.Value() < Modulus().Value()
      && (x.Value() * u) % Modulus().Value() == Exp(base, n) % Modulus().Value()
    }

    /** r = x * y in this representation. */
    method MulTo(ghost u: int, x: BigInteger, y: BigInteger, r: BigInteger, ghost base: int, ghost n: nat, ghost k: nat)
      requires Valid(u) && Stands(u, x, base, n) && Stands(u, y, base, k)
      requires r != x && r != y && r !in Fixed() && r !in Scratch()
      modifies {r} + Scratch()
      ensures Valid(u) && Stands(u, r, base, n + k)
    {
      hide Val, Pow, Exp, Reduces;
      ghost var v, w := x.Value(), y.Value();
      match this
      case ByDivision(m) =>
        x.MultiplyTo(y, r);
        ReduceByDivision(r, m, v, w);
        PlainProduct(r.Value(), v, w, m.Value(), base, n, k);
      case ByBarrett(b) =>
        b.MulTo(x, y, r);
        PlainProduct(r.Value(), v, w, b.m.Value(), base, n, k);
      case ByMontgomery(z) =>
        z.MulTo(x, y, r);
        ProductStands(r.Value(), v, w, z.m.Value(), z.R(), u, base, n, k);
    }

    /** r = x * x in this representation. */
    method SqrTo(ghost u: int, x: BigInteger, r: BigInteger, ghost base: int, ghost n: nat)
      requires Valid(u) && Stands(u, x, base, n)
      requires r != x && r !in Fixed() && r !in Scratch()
      modifies {r} + Scratch()
      ensures Valid(u) && Stands(u, r, base, 2 * n)
    {
      hide Val, Pow, Exp, Reduces;
      ghost var v := x.Value();
      match this
      case ByDivision(m) =>
        x.SquareTo(r);
        ReduceByDivision(r, m, v, v);
        PlainProduct(r.Value(), v, v, m.Value(), base, n, n);
      case ByBarrett(b) =>
        b.SqrTo(x, r);
        PlainProduct(r.Value(), v, v, b.m.Value(), base, n, n);
      case ByMontgomery(z) =>
        z.SqrTo(x, r);
        ProductStands(r.Value(), v, v, z.m.Value(), z.R(), u, base, n, n);
    }

    /** The base in this representation: a new number, or the base itself. */
    method Convert(ghost u: int, x: BigInteger) returns (r: BigInteger)
      requires Valid(u) && x.Valid() && x.Clamped() && x !in Scratch()
      modifies Scratch()
      ensures Valid(u) && (r == x || fresh(r)) && Stands(u, r, old(x.Value()), 1)
    {
      hide Val, Pow, Reduces;
      ghost var v := x.Value();
      match this
      case ByDivision(m) =>
        r := ConvertByDivision(x, m);
        PlainStart(r.Value(), v, m.Value());
      case ByBarrett(b) =>
        r := b.Convert(x);
        PlainStart(r.Value(), v, b.m.Value());
      case ByMontgomery(z) =>
        r := MontConvert(z, x);
        StartMontgomery(r.Value(), v, z.R(), u, z.m.Value());
    }

    /** The number that is represented. */
    method Revert(ghost u: int, x: BigInteger, ghost base: int, ghost n: nat) returns (r: BigInteger)
      requires Valid(u) && Stands(u, x, base, n)
      ensures Valid(u) && (r == x || fresh(r)) && r.Valid() && r.Clamped()
      ensures r.Value() == Exp(base, n) % Modulus().Value()
    {
      hide Val, Pow, Exp, Reduces;
      match this
      case ByDivision(m) =>
        r := x;
        DivUnique(x.Value(), m.Value(), 0, x.Value());
      case ByBarrett(b) =>
        r := x;
        DivUnique(x.Value(), b.m.Value(), 0, x.Value());
      case ByMontgomery(z) =>
        r := z.Revert(x);
        ReductionDetermined(r.Value(), z.R(), u, x.Value(), z.m.Value());
    }
  }

  /** x = x modulo m, where x is the product of v and w. */
  method ReduceByDivision(x: BigInteger, m: BigInteger, ghost v: int, ghost w: int)
    requires x.Valid() && x.Clamped() && m.Valid() && m.Clamped() && m.Value() > 0 && x != m
    requires v >= 0 && w >= 0 && x.Value() == v * w
    modifies x
    ensures m.Valid() && x.Valid() && x.Clamped() && x.Value() == (v * w) % m.Value()
  {
    hide Val, Pow;
    MulNonNeg(v, w);
    DivRemTo(x, m, null, x);
  }

  method ConvertByDivision(x: BigInteger, m: BigInteger) returns (r: BigInteger)
    requires x.Valid() && x.Clamped() && m.Valid() && m.Clamped() && m.Value() > 0
    ensures (r == x || fresh(r)) && r.Valid() && r.Clamped() && r.Value() == x.Value() % m.Value()
  {
    hide Val, Pow;
    SignValue(x.digits[..x.t], x.s);
    SignValue(m.digits[..m.t], m.s);
    if x.s < 0 {
      r := Mod(x, m);
      return;
    }
    var c := x.CompareTo(m);
    if c >= 0 {
      r := Mod(x, m);
    } else {
      r := x;
      DivUnique(x.Value(), m.Value(), 0, x.Value());
    }
  }

  /** x R modulo m, as a new number. */
  method MontConvert(z: Reducer, x: BigInteger) returns (r: BigInteger)
    requires z.Valid() && z.m.Value() > 0 && x.Valid() && x.Clamped()
    ensures fresh(r) && r.Valid() && r.Clamped() && r.Value() == (x.Value() * z.R()) % z.m.Value()
  {
    hide Val, Pow;
    r := new BigInteger();
    var abs := x.Abs();
    NoDivisor(abs);
    abs.DlShiftTo(z.m.t, r);
    ghost var v, p := x.Value(), z.R();
    assert p * abs.Value() == abs.Value() * p;
    MulNonNeg(abs.Value(), p);
    DivRemTo(r, z.m, null, r);
    NegateMod(-v * p, z.m.Value());
    assert -(-v * p) == v * p;
    if x.s < 0 {
      var zero := new BigInteger();
      var c := r.CompareTo(zero);
      if c > 0 {
        z.m.SubTo(r, r);
      }
    }
  }
}
