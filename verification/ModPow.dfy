/**
 `modPow` on the number objects themselves: the choice of a reduction, the table of odd powers, the sliding window over
 the digits of the exponent, and two registers that are swapped.
 */
module ModPow {
  import opened Arithmetic
  import opened Bits
  import opened Digits
  import opened BigIntegers
  import opened Division
  import opened Windows
  import opened Exponentiation
  import opened Barrett
  import opened Reducers

  /** A number that results may be written to. */
  ghost predicate Free(z: Reduction, x: BigInteger) {
    x !in z.Fixed() && x !in z.Scratch()
  }

  lemma Disjoint(z: Reduction, u: int)
    requires z.Valid(u)
    ensures z.Modulus() in z.Fixed() && z.Fixed() !! z.Scratch()
  {
  }

  /** `n` squarings and a multiplication; the registers may end up swapped. */
  method SquareAndMultiply(z: Reduction, ghost u: int, r0: BigInteger, s0: BigInteger, g: BigInteger, n: nat,
                           ghost base: int, ghost x: nat, ghost w: nat)
    returns (r: BigInteger, s: BigInteger)
    requires z.Valid(u) && z.Stands(u, r0, base, x) && z.Stands(u, g, base, w)
    requires r0 != s0 && Free(z, r0) && Free(z, s0) && g != r0 && g != s0 && g !in z.Scratch()
    modifies {r0, s0} + z.Scratch()
    ensures z.Valid(u) && z.Stands(u, r, base, x * Two(n) + w) && {r, s} == {r0, s0} && r != s
  {
    hide Two, Exp, Val, Pow, Reduction.Stands, Reduction.Valid;
    Disjoint(z, u);
    r, s := r0, s0;
    var left := n;
    ghost var done := 0;
    TimesOne(x);
    while left > 1
      invariant left + done == n && r == r0 && s == s0
      invariant z.Valid(u) && z.Stands(u, r, base, x * Two(done)) && z.Stands(u, g, base, w)
    {
      z.SqrTo(u, r, s, base, x * Two(done));
      z.SqrTo(u, s, r, base, 2 * (x * Two(done)));
      DoneTwo(x, done);
      left, done := left - 2, done + 2;
    }
    if left > 0 {
      z.SqrTo(u, r, s, base, x * Two(done));
      DoneOne(x, done);
    } else {
      r, s := s, r;
    }
    z.MulTo(u, s, g, r, base, x * Two(n), w);
  }

  lemma DoneOne(x: nat, n: nat)
    ensures x * Two(n + 1) == 2 * (x * Two(n))
  {
    MulAssoc(x, 2, Two(n));
  }

  lemma DoneTwo(x: nat, n: nat)
    ensures x * Two(n + 2) == 2 * (2 * (x * Two(n)))
  {
    DoneOne(x, n);
    DoneOne(x, n + 1);
  }

  /** Squares once for every zero bit, swapping the registers each time. */
  method SkipZeros(z: Reduction, ghost u: int, r0: BigInteger, s0: BigInteger, e: seq<int>, j0: int, i0: int,
                   ghost base: int)
    returns (r: BigInteger, s: BigInteger, j: int, i: int)
    requires z.Valid(u) && AllDigits(e) && -1 <= j0 < |e| && 0 <= i0 < 28 && (j0 == -1 ==> i0 == 27)
    requires Val(e) >= 0 && z.Stands(u, r0, base, High(Val(e), 28 * j0 + i0 + 1))
    requires r0 != s0 && Free(z, r0) && Free(z, s0)
    modifies {r0, s0} + z.Scratch()
    ensures -1 <= j < |e| && 0 <= i < 28 && (j == -1 ==> i == 27) && 28 * j + i <= 28 * j0 + i0
    ensures z.Valid(u) && z.Stands(u, r, base, High(Val(e), 28 * j + i + 1)) && {r, s} == {r0, s0} && r != s
    ensures j >= 0 ==> High(Val(e), 28 * j + i) % 2 == 1
  {
    hide Val, High, Two, Exp, Pow, Reduction.Stands, Reduction.Valid;
    Disjoint(z, u);
    r, s, j, i := r0, s0, j0, i0;
    while j >= 0 && (e[j] / Two(i)) % 2 == 0
      invariant -1 <= j < |e| && 0 <= i < 28 && (j == -1 ==> i == 27) && 28 * j + i <= 28 * j0 + i0
      invariant z.Valid(u) && z.Stands(u, r, base, High(Val(e), 28 * j + i + 1)) && {r, s} == {r0, s0} && r != s
      decreases 28 * j + i
    {
      BitAt(e, j, i);
      NextBit(Val(e), 28 * j + i);
      z.SqrTo(u, r, s, base, High(Val(e), 28 * j + i + 1));
      r, s := s, r;
      j, i := MoveDown(j, i, 1);
    }
    if j >= 0 {
      BitAt(e, j, i);
    }
  }

  // ----- the table -----

  /** The odd powers below `n`, none of them a register or overwritten by a reduction. */
  ghost predicate Table(z: Reduction, u: int, g: map<nat, BigInteger>, base: int, n: nat, r: BigInteger, s: BigInteger)
    reads z.Modulus(), g.Values
  {
    && r !in g.Values && s !in g.Values && g.Values !! z.Scratch()
    && forall o: nat :: o < n && o % 2 == 1 ==> o in g && z.Stands(u, g[o], base, o)
  }

  method MakeTable(z: Reduction, ghost u: int, g1: BigInteger, k: nat, ghost base: int, r: BigInteger, s: BigInteger)
    returns (g: map<nat, BigInteger>)
    requires z.Valid(u) && z.Stands(u, g1, base, 1) && k >= 1 && r != g1 && s != g1 && g1 !in z.Scratch()
    modifies z.Scratch()
    ensures z.Valid(u) && Table(z, u, g, base, Two(k), r, s)
  {
    hide Two, Table, Exp, Val, Pow;
    TwoDoubles(k - 1);
    g := map[1 := g1];
    FirstPower(z, u, g1, base, r, s);
    if k > 1 {
      var g2 := new BigInteger();
      z.SqrTo(u, g1, g2, base, 1);
      FirstPower(z, u, g1, base, r, s);
      var n := 3;
      while n < Two(k)
        invariant n % 2 == 1 && n >= 3 && z.Valid(u) && Table(z, u, g, base, n, r, s) && z.Stands(u, g2, base, 2)
        decreases Two(k) - n
      {
        g := AddPower(z, u, g, g2, n, base, r, s);
        n := n + 2;
      }
      FewerPowers(z, u, g, base, n, Two(k), r, s);
    } else {
      TwoSmall();
      FewerPowers(z, u, g, base, 3, Two(k), r, s);
    }
  }

  /** g_n = g2 * g_(n-2). */
  method AddPower(z: Reduction, ghost u: int, g: map<nat, BigInteger>, g2: BigInteger, n: nat, ghost base: int,
                  ghost r: BigInteger, ghost s: BigInteger)
    returns (g': map<nat, BigInteger>)
    requires z.Valid(u) && Table(z, u, g, base, n, r, s) && n % 2 == 1 && n >= 3
    requires z.Stands(u, g2, base, 2) && g2 !in z.Scratch()
    modifies z.Scratch()
    ensures z.Valid(u) && Table(z, u, g', base, n + 2, r, s) && z.Stands(u, g2, base, 2)
  {
    hide Exp, Val, Pow, Reduction.Stands, Reduction.Valid;
    Disjoint(z, u);
    var x := new BigInteger();
    z.MulTo(u, g2, g[n - 2], x, base, 2, n - 2);
    g' := g[n := x];
    forall o: nat | o < n + 2 && o % 2 == 1
      ensures o in g' && z.Stands(u, g'[o], base, o)
    {
      if o != n {
        assert o < n;
      }
    }
  }

  lemma FirstPower(z: Reduction, u: int, g1: BigInteger, base: int, r: BigInteger, s: BigInteger)
    requires z.Stands(u, g1, base, 1) && r != g1 && s != g1 && g1 !in z.Scratch()
    ensures Table(z, u, map[1 := g1], base, 3, r, s)
  {
  }

  lemma FewerPowers(z: Reduction, u: int, g: map<nat, BigInteger>, base: int, n: nat, k: nat, r: BigInteger,
                    s: BigInteger)
    requires Table(z, u, g, base, n, r, s) && k <= n
    ensures Table(z, u, g, base, k, r, s)
  {
  }

  // ----- the main loop -----

  /** One turn: a window, then the zeros behind it. */
  method Turn(z: Reduction, ghost u: int, g: map<nat, BigInteger>, e: seq<int>, k: nat, r0: BigInteger, s0: BigInteger,
              is1: bool, j0: nat, i0: nat, ghost base: int)
    returns (r: BigInteger, s: BigInteger, j: int, i: int)
    requires z.Valid(u) && AllDigits(e) && 1 <= k <= 6 && j0 < |e| && i0 < 28 && Val(e) >= 0
    requires Table(z, u, g, base, Two(k), r0, s0) && r0 != s0 && Free(z, r0) && Free(z, s0)
    requires High(Val(e), 28 * j0 + i0) % 2 == 1
    requires if is1 then High(Val(e), 28 * j0 + i0 + 1) == 0
             else z.Stands(u, r0, base, High(Val(e), 28 * j0 + i0 + 1))
    modifies {r0, s0} + z.Scratch()
    ensures -1 <= j < |e| && 0 <= i < 28 && (j == -1 ==> i == 27) && 28 * j + i < 28 * j0 + i0
    ensures z.Valid(u) && Table(z, u, g, base, Two(k), r, s) && {r, s} == {r0, s0} && r != s
    ensures z.Stands(u, r, base, High(Val(e), 28 * j + i + 1))
    ensures j >= 0 ==> High(Val(e), 28 * j + i) % 2 == 1
  {
    hide Val, High, Two, Exp, Pow, Reduction.Stands, Reduction.Valid;
    Disjoint(z, u);
    var w, n, j1, i1 := NextWindow(e, k, j0, i0);
    r, s := Advance(z, u, g, w, n, Two(k), r0, s0, is1, base, High(Val(e), 28 * j0 + i0 + 1));
    r, s, j, i := SkipZeros(z, u, r, s, e, j1, i1, base);
  }

  /** The window of at most `k` bits that starts at a set bit and ends with one, and the position below it. */
  method NextWindow(e: seq<int>, k: nat, j0: nat, i0: nat) returns (w: nat, n: nat, j: int, i: int)
    requires AllDigits(e) && 1 <= k <= 6 && j0 < |e| && i0 < 28 && Val(e) >= 0 && High(Val(e), 28 * j0 + i0) % 2 == 1
    ensures -1 <= j < |e| && 0 <= i < 28 && (j == -1 ==> i == 27) && 28 * j + i < 28 * j0 + i0
    ensures w % 2 == 1 && w < Two(k) && High(Val(e), 28 * j + i + 1) == High(Val(e), 28 * j0 + i0 + 1) * Two(n) + w
  {
    hide Val, High, Two, Pow;
    var w0 := Window(e, j0, i0, k - 1);
    ghost var p := 28 * j0 + i0;
    HighDrop(Val(e), p - (k - 1), k - 1);
    WindowNotEmpty(High(Val(e), p - (k - 1)), k);
    w, n := Strip(w0, k);
    WindowStep(Val(e), p, k, w0, w, n);
    TwoMono(n, k);
    j, i := MoveDown(j0, i0, n);
  }

  /** The window `w` of `n` bits is taken in: copied if it is the first one. */
  method Advance(z: Reduction, ghost u: int, g: map<nat, BigInteger>, w: nat, n: nat, ghost size: nat,
                 r0: BigInteger, s0: BigInteger, is1: bool, ghost base: int, ghost x: nat)
    returns (r: BigInteger, s: BigInteger)
    requires z.Valid(u) && Table(z, u, g, base, size, r0, s0) && r0 != s0 && Free(z, r0) && Free(z, s0)
    requires w < size && w % 2 == 1 && if is1 then x == 0 else z.Stands(u, r0, base, x)
    modifies {r0, s0} + z.Scratch()
    ensures z.Valid(u) && z.Stands(u, r, base, x * Two(n) + w) && {r, s} == {r0, s0} && r != s
  {
    hide Val, Two, Exp, Pow;
    if is1 {
      r, s := r0, s0;
      Copy(z, u, g[w], r, base, w);
      DoneNothing(n);
    } else {
      r, s := SquareAndMultiply(z, u, r0, s0, g[w], n, base, x, w);
    }
  }

  method Copy(z: Reduction, ghost u: int, x: BigInteger, r: BigInteger, ghost base: int, ghost n: nat)
    requires z.Valid(u) && z.Stands(u, x, base, n) && r != x && Free(z, r)
    modifies r
    ensures z.Valid(u) && z.Stands(u, r, base, n)
  {
    hide Val, Exp, Pow;
    x.CopyTo(r);
  }

  lemma DoneNothing(n: nat)
    ensures 0 * Two(n) == 0
  {
  }

  /** base^e modulo m, for the digits of an exponent above zero. */
  method Power(z: Reduction, ghost u: int, g1: BigInteger, e: seq<int>, bits: nat, ghost base: int)
    returns (result: BigInteger)
    requires z.Valid(u) && z.Stands(u, g1, base, 1) && g1 !in z.Scratch()
    requires AllDigits(e) && e != [] && e[|e| - 1] > 0
    modifies z.Scratch()
    ensures Val(e) >= 0 && fresh(result) && result.Valid() && result.Clamped() && z.Valid(u)
    ensures result.Value() == Exp(base, Val(e)) % z.Modulus().Value()
  {
    hide Val, High, Two, Table, Pow, Exp, Reduction.Stands, Reduction.Valid;
    Disjoint(z, u);
    var top := NBits(e[|e| - 1]);
    TopDigitBits(e[|e| - 1], top);
    TopBit(e, top);
    var k := WindowBits(bits);
    var r := new BigInteger();
    var s := new BigInteger();
    var g := MakeTable(z, u, g1, k, base, r, s);
    var j, i, is1 := |e| - 1, top - 1, true;
    ghost var r0, s0 := r, s;
    while j >= 0
      invariant -1 <= j < |e| && 0 <= i < 28 && (j == -1 ==> i == 27)
      invariant j >= 0 ==> High(Val(e), 28 * j + i) % 2 == 1
      invariant z.Valid(u) && Table(z, u, g, base, Two(k), r, s) && {r, s} == {r0, s0} && r != s
      invariant if is1 then j >= 0 && High(Val(e), 28 * j + i + 1) == 0
                else z.Stands(u, r, base, High(Val(e), 28 * j + i + 1))
      decreases 28 * j + i
    {
      r, s, j, i := Turn(z, u, g, e, k, r, s, is1, j, i, base);
      is1 := false;
    }
    HighZero(Val(e));
    result := z.Revert(u, r, base, Val(e));
  }

  // ----- the operation -----

  /** The number of bits of a number; of a negative one, those that differ from the sign. */
  method BitLength(x: BigInteger) returns (bits: nat)
    requires x.Valid() && x.Clamped()
    ensures var v := if x.Value() < 0 then -x.Value() - 1 else x.Value();
      if v == 0 then bits == 0 else bits > 0 && Two(bits - 1) <= v < Two(bits)
    ensures x.s == 0 ==> (bits == 0 <==> x.t == 0)
  {
    hide Val, Pow, Two;
    LengthCases(x);
    if x.t <= 0 {
      return 0;
    }
    var d := if x.s == 0 then x.digits[x.t - 1] else DM - x.digits[x.t - 1];
    var top := NBits(d);
    bits := 28 * (x.t - 1) + top;
    LengthInts(if x.Value() < 0 then -x.Value() - 1 else x.Value(), d, x.t - 1, top);
  }

  /** The highest digit that differs from the sign decides; `^` with the sign is the difference to it. */
  lemma LengthCases(x: BigInteger)
    requires x.Valid() && x.Clamped()
    ensures x.s == 0 <==> x.Value() >= 0
    ensures var v := if x.Value() < 0 then -x.Value() - 1 else x.Value();
      if x.t == 0 then v == 0
      else
        var d := if x.s == 0 then x.digits[x.t - 1] else DM - x.digits[x.t - 1];
        0 < d < DV && v > 0 && d * Pow(x.t - 1) <= v < (d + 1) * Pow(x.t - 1)
  {
    hide Val, Pow;
    SignValue(x.digits[..x.t], x.s);
    x.Magnitude();
    NoDigits();
    if x.t > 0 {
      var n, d := x.t - 1, x.digits[x.t - 1];
      TopOf(x.digits[..x.t]);
      PowUp(n);
      LengthOfSign(Val(x.digits[..x.t]), Pow(n), d, x.s);
    }
  }

  lemma LengthOfSign(v: int, p: int, d: int, s: int)
    requires p >= 1 && IsDigit(d) && d * p <= v < (d + 1) * p && (if s == 0 then d > 0 else s == -1 && d < DM)
    ensures if s == 0 then v + s * (DV * p) == v && v > 0
            else
              var w := -(v + s * (DV * p)) - 1;
              w > 0 && (DM - d) * p <= w < (DM - d + 1) * p
  {
    if s == 0 {
      MulLe(1, d, p);
    } else {
      assert (DM - d) * p == DM * p - d * p && (DM - d + 1) * p == DV * p - d * p && (d + 1) * p == d * p + p;
      MulLe(1, DM - d, p);
    }
  }

  lemma LengthInts(v: int, d: int, n: nat, top: nat)
    requires top >= 1 && Two(top - 1) <= d < Two(top) && d * Pow(n) <= v < (d + 1) * Pow(n)
    ensures Two(28 * n + top - 1) <= v < Two(28 * n + top)
  {
    hide Pow, Two;
    TwoPow(n);
    TwoAdd(28 * n, top - 1);
    TwoAdd(28 * n, top);
    MulLe(Two(top - 1), d, Pow(n));
    MulLe(d + 1, Two(top), Pow(n));
  }

  /** Division for short exponents, else Barrett reduction for even moduli and Montgomery reduction for odd ones. */
  method Choose(bits: nat, m: BigInteger) returns (z: Reduction, ghost u: int)
    requires m.Valid() && m.Clamped() && m.Value() > 0 && m.t + 4 <= DV
    ensures z.Valid(u) && z.Modulus() == m && fresh(z.Scratch())
  {
    hide Val, Pow;
    u := 1;
    if bits < 8 {
      return ByDivision(m), 1;
    }
    var even := m.IsEven();
    if even {
      var b := new BarrettReducer(m);
      return ByBarrett(b), 1;
    }
    OddDigit(m);
    var r := new Reducer(m);
    u := InverseR(m.Value(), m.t);
    InverseOfR(m.Value(), m.t);
    z := ByMontgomery(r);
  }

  lemma OddDigit(m: BigInteger)
    requires m.Valid() && m.Clamped() && m.Value() > 0 && m.Value() % 2 == 1
    ensures m.s == 0 && m.t > 0 && m.digits[0] % 2 == 1
  {
    hide Val, Pow;
    SignValue(m.digits[..m.t], m.s);
    NoDivisor(m);
    ParityOf(m.digits[..m.t], m.s);
  }

  /** x^e modulo m, for every base, every exponent that is not negative and every positive modulus; but 1 for
      exponent zero, whatever the modulus. */
  method ModPow(x: BigInteger, e: BigInteger, m: BigInteger) returns (result: BigInteger)
    requires x.Valid() && x.Clamped() && e.Valid() && e.Clamped() && e.Value() >= 0
    requires m.Valid() && m.Clamped() && m.Value() > 0 && m.t + 4 <= DV
    ensures fresh(result) && result.Valid() && result.Clamped()
    ensures result.Value() == if e.Value() == 0 then 1 else Exp(x.Value(), e.Value()) % m.Value()
  {
    hide Val, Pow, Two, Exp;
    SignValue(e.digits[..e.t], e.s);
    var bits := BitLength(e);
    if bits <= 0 {
      result := NewValue(1);
      return;
    }
    ghost var base, d := x.Value(), e.digits[..e.t];
    Unsigned(d);
    var z;
    ghost var u;
    z, u := Choose(bits, m);
    var g1 := z.Convert(u, x);
    result := Power(z, u, g1, e.digits[..e.t], bits, base);
  }

  // ----- small exponents -----

  /** x^e by squaring and multiplying, for an exponent of at most 32 bits; 1 for any other exponent. */
  method ExpWith(x: BigInteger, e: int, z: Reduction, ghost u: int) returns (result: BigInteger)
    requires x.Valid() && x.Clamped() && z.Valid(u) && x !in z.Scratch()
    modifies z.Scratch()
    ensures fresh(result) && result.Valid() && result.Clamped() && z.Valid(u)
    ensures if 1 <= e <= 0xffff_ffff then result.Value() == Exp(old(x.Value()), e) % z.Modulus().Value()
            else result.Value() == 1
  {
    hide Val, Pow, Two, Exp, High, Reduction.Stands, Reduction.Valid;
    Disjoint(z, u);
    if e > 0xffff_ffff || e < 1 {
      result := NewValue(1);
      return;
    }
    ghost var base := x.Value();
    var g := z.Convert(u, x);
    var r := BitByBit(z, u, g, e, base);
    result := z.Revert(u, r, base, e);
  }

  /** The bits of the exponent, from the top. */
  method BitByBit(z: Reduction, ghost u: int, g: BigInteger, e: nat, ghost base: int) returns (r: BigInteger)
    requires z.Valid(u) && z.Stands(u, g, base, 1) && g !in z.Scratch() && 1 <= e <= 0xffff_ffff
    modifies z.Scratch()
    ensures z.Valid(u) && fresh(r) && z.Stands(u, r, base, e)
  {
    hide Val, Pow, Two, Exp, High, Reduction.Stands, Reduction.Valid;
    Disjoint(z, u);
    r := new BigInteger();
    var s := new BigInteger();
    ghost var r0, s0 := r, s;
    var i := NBits(e);
    i := i - 1;
    LeadingOne(e, i);
    Copy(z, u, g, r, base, 1);
    while i > 0
      invariant z.Valid(u) && z.Stands(u, g, base, 1) && z.Stands(u, r, base, High(e, i)) && {r, s} == {r0, s0}
      invariant r != s
    {
      i := i - 1;
      NextBit(e, i);
      ReadBit(e, i);
      r, s := TakeBit(z, u, r, s, g, (e / Two(i)) % 2 == 1, base, High(e, i + 1));
    }
    HighZero(e);
  }

  /** A squaring, and a multiplication if the next bit of the exponent is set. */
  method TakeBit(z: Reduction, ghost u: int, r0: BigInteger, s0: BigInteger, g: BigInteger, bit: bool,
                 ghost base: int, ghost x: nat)
    returns (r: BigInteger, s: BigInteger)
    requires z.Valid(u) && z.Stands(u, r0, base, x) && z.Stands(u, g, base, 1)
    requires r0 != s0 && Free(z, r0) && Free(z, s0) && g != r0 && g != s0 && g !in z.Scratch()
    modifies {r0, s0} + z.Scratch()
    ensures z.Valid(u) && z.Stands(u, r, base, 2 * x + if bit then 1 else 0) && {r, s} == {r0, s0} && r != s
  {
    hide Exp, Val, Pow, Reduction.Stands, Reduction.Valid;
    Disjoint(z, u);
    r, s := r0, s0;
    z.SqrTo(u, r, s, base, x);
    if bit {
      z.MulTo(u, s, g, r, base, 2 * x, 1);
    } else {
      r, s := s, r;
    }
  }

  lemma LeadingOne(e: nat, i: nat)
    requires Two(i) <= e < Two(i + 1)
    ensures High(e, i) == 1
  {
    hide Two;
    TwoDoubles(i);
    DivUnique(e, Two(i), 1, e - Two(i));
  }

  lemma ReadBit(e: nat, i: nat)
    ensures High(e, i) % 2 == (e / Two(i)) % 2
  {
  }

  /** x^e modulo m, for an exponent from 1 to 2^32 - 1. */
  method ModPowInt(x: BigInteger, e: int, m: BigInteger) returns (result: BigInteger)
    requires x.Valid() && x.Clamped() && m.Valid() && m.Clamped() && m.Value() > 0
    ensures fresh(result) && result.Valid() && result.Clamped()
    ensures if 1 <= e <= 0xffff_ffff then result.Value() == Exp(x.Value(), e) % m.Value() else result.Value() == 1
  {
    hide Val, Pow, Exp;
    var even := m.IsEven();
    if e < 256 || even {
      result := ExpWith(x, e, ByDivision(m), 1);
    } else {
      OddDigit(m);
      var r := new Reducer(m);
      ghost var u := InverseR(m.Value(), m.t);
      InverseOfR(m.Value(), m.t);
      result := ExpWith(x, e, ByMontgomery(r), u);
    }
  }
}
