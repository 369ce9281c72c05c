/**
 Multi-precision integers as text, in the radices 2, 4, 8, 16 and 32, whose digits have k = 1 to 5 bits.
 */
module Text {
  import opened Arithmetic
  import opened Bits
  import opened Digits
  import opened BigIntegers
  import opened Windows

  // ----- characters -----

  const LETTERS := "0123456789abcdefghijklmnopqrstuvwxyz"

  /** The value of a character, or -1 for a character that is no digit in any radix. */
  function IntAt(c: char): (x: int)
    ensures -1 <= x < 36
  {
    if '0' <= c <= '9' then c as int - '0' as int
    else if 'a' <= c <= 'z' then 10 + c as int - 'a' as int
    else if 'A' <= c <= 'Z' then 10 + c as int - 'A' as int
    else -1
  }

  function IntToChar(n: nat): (c: char)
    requires n < 36
    ensures IntAt(c) == n
  {
    if n < 10 then '0' + n as char else 'a' + (n - 10) as char
  }

  lemma LettersAre(n: nat)
    requires n < 36
    ensures |LETTERS| == 36 && LETTERS[n] == IntToChar(n)
  {
  }

  /** The characters that digits are written with and read from. */
  lemma DigitCharacters(n: nat)
    requires n < 36
    ensures IntToChar(n) == "0123456789abcdefghijklmnopqrstuvwxyz"[n]
    ensures IntAt("0123456789abcdefghijklmnopqrstuvwxyz"[n]) == n
    ensures IntAt("0123456789ABCDEFGHIJKLMNOPQRSTUVWXYZ"[n]) == n
  {
    LowerCase(n);
    UpperCase(n);
  }

  lemma LowerCase(n: nat)
    requires n < 36
    ensures "0123456789abcdefghijklmnopqrstuvwxyz"[n] == if n < 10 then '0' + n as char else 'a' + (n - 10) as char
  {
  }

  lemma UpperCase(n: nat)
    requires n < 36
    ensures "0123456789ABCDEFGHIJKLMNOPQRSTUVWXYZ"[n] == if n < 10 then '0' + n as char else 'A' + (n - 10) as char
  {
  }

  /** No other character is read as a digit. */
  lemma OtherCharacters(c: char)
    ensures IntAt(c) == -1 <==>
      c !in "0123456789abcdefghijklmnopqrstuvwxyz" && c !in "0123456789ABCDEFGHIJKLMNOPQRSTUVWXYZ"
  {
    if IntAt(c) >= 0 {
      DigitCharacters(IntAt(c));
      OneOfTwo(c);
    } else {
      forall n: nat | n < 36
        ensures c != "0123456789abcdefghijklmnopqrstuvwxyz"[n] && c != "0123456789ABCDEFGHIJKLMNOPQRSTUVWXYZ"[n]
      {
        DigitCharacters(n);
      }
    }
  }

  lemma OneOfTwo(c: char)
    requires IntAt(c) >= 0
    ensures || c == "0123456789abcdefghijklmnopqrstuvwxyz"[IntAt(c)]
            || c == "0123456789ABCDEFGHIJKLMNOPQRSTUVWXYZ"[IntAt(c)]
  {
    LowerCase(IntAt(c));
    UpperCase(IntAt(c));
  }

  // ----- what a text stands for -----

  /** The number of digits in a text. */
  function Count(s: string): nat {
    if s == [] then 0 else (if IntAt(s[0]) >= 0 then 1 else 0) + Count(s[1..])
  }

  /** What a digit with `n` digits behind it counts. */
  function Weight(k: nat, n: nat): (w: nat)
    ensures w >= 1
  {
    Two(k * n)
  }

  lemma WeightNext(k: nat, n: nat)
    ensures Weight(k, n + 1) == Weight(k, n) * Two(k) && Weight(k, 0) == 1
  {
    assert k * (n + 1) == k * n + k;
    TwoAdd(k * n, k);
    assert k * 0 == 0;
  }

  /** The number that the digits of a text stand for; other characters do not count. */
  function ValueOf(s: string, k: nat): nat {
    if s == [] then 0
    else (if IntAt(s[0]) >= 0 then IntAt(s[0]) * Weight(k, Count(s[1..])) else 0) + ValueOf(s[1..], k)
  }

  /** There is a minus sign before the first digit. */
  predicate Minus(s: string) {
    s != [] && IntAt(s[0]) < 0 && (s[0] == '-' || Minus(s[1..]))
  }

  /** All digits are digits of the radix. */
  ghost predicate InRadix(s: string, k: nat) {
    forall i :: 0 <= i < |s| ==> IntAt(s[i]) < Two(k)
  }

  /** The shortest text for a number. */
  function Numeral(v: nat, k: nat): (s: string)
    requires 1 <= k <= 5
    ensures |s| > 0
    decreases v
  {
    Powers(k);
    if v < Two(k) then [IntToChar(v)] else Smaller(v, Two(k)); Numeral(v / Two(k), k) + [IntToChar(v % Two(k))]
  }

  lemma Powers(k: nat)
    requires 1 <= k <= 5
    ensures 2 <= Two(k) <= 32
  {
    assert Two(1) == 2 && Two(2) == 4 && Two(3) == 8 && Two(4) == 16 && Two(5) == 32;
  }

  lemma Smaller(v: nat, b: nat)
    requires 2 <= b <= v
    ensures v / b < v
  {
    if v / b >= v {
      MulLe(v, v / b, b);
    }
  }

  lemma {:induction false} CountSnoc(s: string, c: char)
    requires IntAt(c) >= 0
    ensures Count(s + [c]) == Count(s) + 1
  {
    if s != [] {
      assert (s + [c])[1..] == s[1..] + [c];
      CountSnoc(s[1..], c);
    }
  }

  lemma {:induction false} ValueSnoc(s: string, c: char, k: nat)
    requires IntAt(c) >= 0
    ensures ValueOf(s + [c], k) == ValueOf(s, k) * Two(k) + IntAt(c)
  {
    hide Two, Weight;
    assert s != [] ==> (s + [c])[1..] == s[1..] + [c] && (s + [c])[0] == s[0];
    if s == [] {
      WeightNext(k, 0);
      assert s + [c] == [c] && [c][1..] == [];
    } else {
      ValueSnoc(s[1..], c, k);
      CountSnoc(s[1..], c);
      var n, x := Count(s[1..]), IntAt(s[0]);
      WeightNext(k, n);
      SnocInts(x, Weight(k, n), Two(k), ValueOf(s[1..], k), IntAt(c));
    }
  }

  lemma SnocInts(x: int, p: int, b: int, v: int, d: int)
    ensures x * (p * b) + (v * b + d) == (x * p + v) * b + d && v * b + d == (0 + v) * b + d
  {
    MulAssoc(x, p, b);
  }

  /** The text of a number stands for that number, and begins with a digit. */
  lemma {:induction false} NumeralValue(v: nat, k: nat)
    requires 1 <= k <= 5
    ensures ValueOf(Numeral(v, k), k) == v && InRadix(Numeral(v, k), k) && IntAt(Numeral(v, k)[0]) >= 0
    decreases v
  {
    hide Two, ValueOf;
    Powers(k);
    if v < Two(k) {
      var c := IntToChar(v);
      assert [] + [c] == [c];
      ValueSnoc([], c, k);
      NoValue(k);
    } else {
      Smaller(v, Two(k));
      NumeralValue(v / Two(k), k);
      ValueSnoc(Numeral(v / Two(k), k), IntToChar(v % Two(k)), k);
      Recombine(v, Two(k));
    }
  }

  lemma NoValue(k: nat)
    ensures ValueOf([], k) == 0 && 0 * Two(k) == 0
  {
  }

  lemma Recombine(v: nat, b: nat)
    requires b > 0
    ensures (v / b) * b + v % b == v
  {
  }

  // ----- to text -----

  lemma NumeralNext(h: nat, d: nat, k: nat)
    requires 1 <= k <= 5 && d < Two(k)
    ensures d < 36 && h * Two(k) + d >= 0
    ensures Numeral(h * Two(k) + d, k) == if h > 0 then Numeral(h, k) + [IntToChar(d)] else [IntToChar(d)]
  {
    hide Two;
    Powers(k);
    DivUnique(h * Two(k) + d, Two(k), h, d);
    if h > 0 {
      MulLe(1, h, Two(k));
    } else {
      assert h * Two(k) == 0;
    }
  }

  lemma NotNegative(e: seq<int>)
    requires AllDigits(e)
    ensures Val(e) >= 0
  {
    ValBound(e);
  }

  /** The bits above the last multiple of k. */
  lemma TopPart(e: seq<int>, p: nat, k: nat)
    requires AllDigits(e) && e != [] && 1 <= k <= 5 && p == 28 - (|e| * 28) % k
    ensures 1 <= p <= 28 && Val(e) >= 0
    ensures High(Val(e), 28 * (|e| - 1) + p) == if p < 28 then e[|e| - 1] / Two(p) else 0
    ensures p < 28 ==> var d := e[|e| - 1] / Two(p); d < 36 && Numeral(d, k) == [IntToChar(d)]
  {
    hide Two, High;
    var j, d := |e| - 1, e[|e| - 1];
    DigitAt(e, j);
    assert e[j + 1..] == [];
    NoDigits();
    HighDrop(Val(e), 28 * j, p);
    hide Val;
    Two28();
    if p < 28 {
      TwoAdd(p, 28 - p);
      DropLow(d, 0, Two(p), Two(28 - p));
      TwoMono(28 - p, k);
      Powers(k);
    } else {
      DivUnique(d, Two(28), 0, d);
    }
  }

  ghost predicate IsMultiple(x: int, k: nat) {
    k > 0 && x % k == 0
  }

  lemma Multiple(t: nat, k: nat)
    requires t > 0 && 1 <= k <= 5
    ensures IsMultiple(28 * (t - 1) + (28 - (t * 28) % k), k)
  {
    var x := t * 28;
    assert x - x % k == k * (x / k);
    MultipleMod(x / k, k);
  }

  lemma BitsLeft(i: nat, p: nat, k: nat)
    requires 1 <= k && 1 <= p && IsMultiple(28 * i + p, k)
    ensures 28 * i + p >= k
  {
    if 28 * i + p < k {
      DivUnique(28 * i + p, k, 0, 28 * i + p);
    }
  }

  lemma NextDigit(v: nat, p: int, k: nat)
    ensures High(v, p - k) == High(v, p) * Two(k) + High(v, p - k) % Two(k)
  {
    hide Two, High;
    HighDrop(v, p - k, k);
    var a, b := High(v, p - k), Two(k);
    assert a == b * (a / b) + a % b;
  }

  lemma NextPositive(h: nat, d: nat, b: nat)
    requires b >= 1
    ensures h * b + d > 0 <==> h > 0 || d > 0
  {
    if h > 0 {
      MulLe(1, h, b);
    }
  }

  lemma StillMultiple(p: int, k: nat)
    requires IsMultiple(p, k)
    ensures IsMultiple(p - k, k)
  {
    AddMultiple(p, -1, k);
  }

  lemma ZeroNumeral(k: nat)
    requires 1 <= k <= 5
    ensures Numeral(0, k) == "0"
  {
    Powers(k);
  }

  /** The text so far is that of the bits from `p` on; `m` tells whether there is one. */
  ghost predicate Written(v: nat, p: int, k: nat, m: bool, r: string)
    requires 1 <= k <= 5
  {
    (m <==> High(v, p) > 0) && r == if m then Numeral(High(v, p), k) else ""
  }

  /** Writes the next digit.  28 i + p bits are left, a multiple of k. */
  method WriteDigit(e: seq<int>, k: nat, i: nat, p: nat, m: bool, r: string)
    returns (i': int, p': int, m': bool, r': string)
    requires AllDigits(e) && 1 <= k <= 5 && i < |e| && 1 <= p <= 28 && IsMultiple(28 * i + p, k)
    requires Val(e) >= 0 && Written(Val(e), 28 * i + p, k, m, r)
    ensures -1 <= i' < |e| && 1 <= p' <= 28 && (i' == -1 ==> p' == 28)
    ensures 28 * i' + p' == 28 * i + p - k && IsMultiple(28 * i' + p', k) && Written(Val(e), 28 * i' + p', k, m', r')
  {
    hide Val, Two, High, Numeral, IsMultiple;
    BitsLeft(i, p, k);
    var d := Window(e, i, p - 1, k - 1);
    ghost var h := High(Val(e), 28 * i + p);
    NextDigit(Val(e), 28 * i + p, k);
    NumeralNext(h, d, k);
    LettersAre(d);
    NextPositive(h, d, Two(k));
    m', r' := m, r;
    if d > 0 {
      m' := true;
    }
    if m' {
      r' := r' + [LETTERS[d]];
    }
    var q;
    i', q := MoveDown(i, p - 1, k);
    StillMultiple(28 * i + p, k);
    p' := q + 1;
  }

  /** The digits of a number that is not negative. */
  method DigitsOf(e: seq<int>, k: nat) returns (r: string)
    requires AllDigits(e) && 1 <= k <= 5
    ensures Val(e) >= 0 && r == Numeral(Val(e), k)
  {
    hide Val, Two, High, Numeral, Pow, IsMultiple;
    NotNegative(e);
    ghost var v := Val(e);
    HighZero(v);
    var i := |e|;
    var p := 28 - (i * 28) % k;
    var m := false;
    r := "";
    if i > 0 {
      i := i - 1;
      TopPart(e, p, k);
      if p < 28 {
        var d := e[i] / Two(p);
        if d > 0 {
          m, r := true, [LETTERS[d]];
          LettersAre(d);
        }
      }
      Multiple(|e|, k);
      while i >= 0
        invariant -1 <= i < |e| && 1 <= p <= 28 && IsMultiple(28 * i + p, k) && (i == -1 ==> p == 28)
        invariant Written(v, 28 * i + p, k, m, r)
        decreases 28 * i + p
      {
        i, p, m, r := WriteDigit(e, k, i, p, m, r);
      }
    } else {
      NoDigits();
    }
    if !m {
      ZeroNumeral(k);
      r := "0";
    }
  }

  // ----- from text -----

  /** The number of bits in the digits, when `sh` bits of the last one are in use, or all of them if it is 0. */
  function BitsIn(d: seq<int>, sh: int): int {
    if sh == 0 then 28 * |d| else 28 * (|d| - 1) + sh
  }

  ghost predicate Filled(d: seq<int>, sh: int) {
    AllDigits(d) && 0 <= sh < 28 && (sh > 0 ==> d != [] && d[|d| - 1] < Two(sh))
  }

  /** Puts the `k` bits of `x` above the bits so far.  The source's bitwise or meets no bit twice. */
  method PutDigit(d: seq<int>, sh: int, x: nat, k: nat) returns (d': seq<int>, sh': int)
    requires Filled(d, sh) && 1 <= k <= 5 && x < Two(k)
    ensures Filled(d', sh') && BitsIn(d, sh) >= 0 && BitsIn(d', sh') == BitsIn(d, sh) + k
    ensures Val(d') == Val(d) + x * Two(BitsIn(d, sh))
  {
    assert sh > 0 ==> d != [];
    hide Val, Two, Pow, Filled;
    var top := |d| - 1;
    if sh == 0 {
      d' := d + [x];
      FirstPut(d, x, k);
    } else if sh + k > 28 {
      var q := Two(28 - sh);
      d' := d[top := d[top] + (x % q) * Two(sh)] + [x / q];
      AcrossPut(d, sh, x, k);
    } else {
      d' := d[top := d[top] + x * Two(sh)];
      InsidePut(d, sh, x, k);
    }
    sh' := sh + k;
    if sh' >= 28 {
      sh' := sh' - 28;
    }
  }

  lemma FirstPut(d: seq<int>, x: nat, k: nat)
    requires Filled(d, 0) && 1 <= k <= 5 && x < Two(k)
    ensures Filled(d + [x], k) && Val(d + [x]) == Val(d) + x * Two(BitsIn(d, 0))
  {
    hide Val, Two, Pow;
    Powers(k);
    ValSnoc(d, x);
    TwoPow(|d|);
  }

  lemma InsidePut(d: seq<int>, sh: int, x: nat, k: nat)
    requires Filled(d, sh) && sh > 0 && sh + k <= 28 && x < Two(k)
    ensures var top := |d| - 1; var y := d[top] + x * Two(sh);
      && Filled(d[top := y], if sh + k == 28 then 0 else sh + k)
      && Val(d[top := y]) == Val(d) + x * Two(BitsIn(d, sh))
  {
    hide Val, Two, Pow;
    var top := |d| - 1;
    var y := d[top] + x * Two(sh);
    TwoAdd(sh, k);
    Two28();
    TwoMono(sh + k, 28);
    BelowInts(d[top], x, Two(sh), Two(k));
    ValUpdate(d, top, y);
    TwoPow(top);
    TwoAdd(28 * top, sh);
    ProductInts(Pow(top), x, Two(sh));
  }

  lemma BelowInts(a: int, x: nat, p: nat, q: nat)
    requires 0 <= a < p && x < q
    ensures 0 <= a + x * p < p * q
  {
    MulLe(x, q - 1, p);
    assert (q - 1) * p == p * q - p;
  }

  lemma ProductInts(a: int, x: int, p: int)
    ensures a * (x * p) == x * (a * p)
  {
    assert a * (x * p) == (a * x) * p;
  }

  lemma AcrossPut(d: seq<int>, sh: int, x: nat, k: nat)
    requires Filled(d, sh) && sh > 0 && sh + k > 28 && k < 28 && x < Two(k)
    ensures var top, q := |d| - 1, Two(28 - sh); var y := d[top] + (x % q) * Two(sh);
      && Filled(d[top := y] + [x / q], sh + k - 28)
      && Val(d[top := y] + [x / q]) == Val(d) + x * Two(BitsIn(d, sh))
  {
    hide Val, Two;
    AcrossFilled(d, sh, x, k);
    AcrossValue(d, sh, x, Two(28 - sh));
  }

  lemma AcrossFilled(d: seq<int>, sh: int, x: nat, k: nat)
    requires Filled(d, sh) && sh > 0 && sh + k > 28 && k < 28 && x < Two(k)
    ensures var top, q := |d| - 1, Two(28 - sh);
      Filled(d[top := d[top] + (x % q) * Two(sh)] + [x / q], sh + k - 28)
  {
    hide Two;
    TwoAdd(sh, 28 - sh);
    TwoAdd(28 - sh, sh + k - 28);
    Two28();
    TwoMono(sh + k - 28, 28);
    AcrossFilledInts(d[|d| - 1], x, Two(sh), Two(28 - sh), Two(sh + k - 28));
  }

  lemma AcrossFilledInts(a: int, x: nat, p: nat, q: nat, r: nat)
    requires 0 <= a < p && q > 0 && r > 0 && p * q == DV && x < q * r
    ensures 0 <= a + (x % q) * p < DV && 0 <= x / q < r
  {
    BelowInts(a, x % q, p, q);
    DropLow(x, 0, q, r);
  }

  lemma AcrossValue(d: seq<int>, sh: int, x: nat, q: nat)
    requires d != [] && 0 < sh < 28 && q == Two(28 - sh)
    ensures var top := |d| - 1;
      Val(d[top := d[top] + (x % q) * Two(sh)] + [x / q]) == Val(d) + x * Two(BitsIn(d, sh))
  {
    hide Val, Two, Pow;
    var top := |d| - 1;
    var z := (x % q) * Two(sh);
    ValUpdate(d, top, d[top] + z);
    ValSnoc(d[top := d[top] + z], x / q);
    TwoAdd(sh, 28 - sh);
    Two28();
    TwoPow(top);
    PowUp(top);
    TwoAdd(28 * top, sh);
    AcrossPutInts(Pow(top), Two(sh), q, x);
  }

  lemma AcrossPutInts(a: int, p: int, q: int, x: nat)
    requires q > 0 && p * q == DV
    ensures a * ((x % q) * p) + (DV * a) * (x / q) == x * (a * p)
  {
    var h, l := x / q, x % q;
    assert x == q * h + l;
    assert (DV * a) * h == (a * p) * (q * h) by {
      assert (p * q) * a == (a * p) * q;
      MulAssoc(a * p, q, h);
    }
    assert a * (l * p) == (a * p) * l by { ProductInts(a, l, p); }
    assert (a * p) * (q * h + l) == (a * p) * (q * h) + (a * p) * l;
  }

  /** Reads a text from its end. */
  method ParseDigits(s: string, k: nat) returns (d: seq<int>, mi: bool)
    requires 1 <= k <= 5 && InRadix(s, k)
    ensures AllDigits(d) && Val(d) == ValueOf(s, k) && mi == Minus(s)
  {
    hide Val, Two;
    d, mi := [], false;
    var sh := 0;
    var i := |s|;
    NothingRead(k);
    assert s[|s|..] == [];
    while i > 0
      invariant 0 <= i <= |s| && Filled(d, sh) && mi == Minus(s[i..])
      invariant BitsIn(d, sh) == k * Count(s[i..]) && Val(d) == ValueOf(s[i..], k)
      decreases i
    {
      i := i - 1;
      assert s[i..][0] == s[i] && s[i..][1..] == s[i + 1..];
      var x := IntAt(s[i]);
      if x < 0 {
        if s[i] == '-' {
          mi := true;
        }
      } else {
        mi := false;
        d, sh := PutDigit(d, sh, x, k);
        assert k * (Count(s[i + 1..]) + 1) == k * Count(s[i + 1..]) + k;
      }
    }
    assert s[0..] == s;
  }

  lemma NothingRead(k: nat)
    ensures Val([]) == 0 && k * Count([]) == 0 && ValueOf([], k) == 0
  {
  }

  // ----- the round trip -----

  /** The text of an integer. */
  function TextOf(v: int, k: nat): string
    requires 1 <= k <= 5
  {
    if v < 0 then "-" + Numeral(-v, k) else Numeral(v, k)
  }

  /** The integer that a text stands for. */
  function Reading(s: string, k: nat): int {
    if Minus(s) then 0 - ValueOf(s, k) else ValueOf(s, k)
  }

  method ToString(b: BigInteger, k: nat) returns (r: string)
    requires b.Valid() && 1 <= k <= 5
    ensures r == TextOf(b.Value(), k)
  {
    hide Val, Numeral, Pow;
    SignValue(b.digits[..b.t], b.s);
    var x := b;
    if b.s < 0 {
      x := b.Negate();
      SignValue(x.digits[..x.t], x.s);
    }
    r := DigitsOf(x.digits[..x.t], k);
    if b.s < 0 {
      r := "-" + r;
    }
  }

  method FromString(s: string, k: nat) returns (b: BigInteger)
    requires 1 <= k <= 5 && InRadix(s, k)
    ensures fresh(b) && b.Valid() && b.Clamped() && b.Value() == Reading(s, k)
  {
    hide Val, Pow, ValueOf;
    var d, mi := ParseDigits(s, k);
    b := new BigInteger();
    b.digits, b.t, b.s := d, |d|, 0;
    assert d[..|d|] == d;
    b.Clamp();
    if mi {
      var zero := new BigInteger();
      zero.SubTo(b, b);
    }
  }

  /** A negative number is written with a minus sign. */
  lemma NegativeText(v: int, k: nat)
    requires v > 0 && 1 <= k <= 5
    ensures TextOf(-v, k) == ['-'] + TextOf(v, k)
  {
  }

  /** A text stands for a negative number when there is a minus sign before its first digit. */
  lemma {:induction false} MinusIff(s: string)
    ensures Minus(s) <==> exists i :: 0 <= i < |s| && s[i] == '-' && forall j :: 0 <= j <= i ==> IntAt(s[j]) == -1
  {
    if s != [] && IntAt(s[0]) < 0 && s[0] != '-' {
      MinusIff(s[1..]);
      assert forall j :: 0 <= j < |s| - 1 ==> s[1..][j] == s[j + 1];
      if Minus(s[1..]) {
        var i :| 0 <= i < |s| - 1 && s[1..][i] == '-' && forall j :: 0 <= j <= i ==> IntAt(s[1..][j]) == -1;
        assert s[i + 1] == '-';
        forall j | 0 <= j <= i + 1
          ensures IntAt(s[j]) == -1
        {
          assert j > 0 ==> s[j] == s[1..][j - 1];
        }
      }
      forall i | 0 <= i < |s| && s[i] == '-' && forall j :: 0 <= j <= i ==> IntAt(s[j]) == -1
        ensures Minus(s[1..])
      {
        assert s[1..][i - 1] == '-';
      }
    }
  }

  /** A digit more at the end multiplies by the radix and adds the digit. */
  lemma ReadDigit(s: string, c: char, k: nat)
    requires IntAt(c) >= 0
    ensures ValueOf(s + [c], k) == ValueOf(s, k) * Two(k) + IntAt(c) && ValueOf("", k) == 0
  {
    ValueSnoc(s, c, k);
  }

  /** The text of an integer stands for that integer. */
  lemma TextRoundTrip(v: int, k: nat)
    requires 1 <= k <= 5
    ensures InRadix(TextOf(v, k), k)
    ensures Reading(TextOf(v, k), k) == v
  {
    hide Numeral;
    var n := Numeral(if v < 0 then -v else v, k);
    NumeralValue(if v < 0 then -v else v, k);
    Powers(k);
    assert v < 0 ==> ("-" + n)[1..] == n && ("-" + n)[0] == '-';
  }

  method RoundTrip(b: BigInteger, k: nat) returns (r: BigInteger)
    requires b.Valid() && 1 <= k <= 5
    ensures r.Valid() && r.Value() == b.Value()
  {
    hide Numeral, Reading, InRadix, TextOf;
    TextRoundTrip(b.Value(), k);
    var s := ToString(b, k);
    r := FromString(s, k);
  }
}
