/**
 The windows of an exponent: its digits are read from the top, a few bits at a time.
 */
module Windows {
  import opened Arithmetic
  import opened Bits
  import opened Digits

  // ----- the high bits of the exponent -----

  /** The exponent without its lowest `p` bits; for negative `p`, shifted up instead. */
  ghost function High(e: nat, p: int): nat {
    if p >= 0 then QuotientNat(e, Two(p)); e / Two(p) else ProductNat(e, Two(-p)); e * Two(-p)
  }

  /** Dropping `n` more bits divides by 2^n. */
  lemma HighDrop(e: nat, p: int, n: nat)
    ensures High(e, p + n) == High(e, p) / Two(n)
  {
    hide Two;
    if p >= 0 {
      DivDiv(e, Two(p), Two(n));
      TwoAdd(p, n);
    } else if p + n < 0 {
      TwoAdd(-p - n, n);
      ExactDiv(e, Two(-p - n), Two(n));
    } else {
      TwoAdd(-p, p + n);
      CancelDiv(e, Two(-p), Two(p + n));
    }
  }

  /** Below the lowest bit there are only zeros. */
  lemma HighEven(e: nat, p: int)
    requires p < 0
    ensures High(e, p) % 2 == 0
  {
    assert High(e, p) == e * (2 * Two(-p - 1));
    MulAssoc(e, 2, Two(-p - 1));
    assert High(e, p) == 2 * (e * Two(-p - 1));
  }

  // ----- reading a window from the digits -----

  lemma DigitAt(e: seq<int>, j: nat)
    requires AllDigits(e) && j < |e|
    ensures 0 <= Val(e) && High(Val(e), 28 * j) == e[j] + DV * Val(e[j + 1..]) && 0 <= Val(e[j + 1..])
  {
    hide Pow, Two;
    ValBound(e);
    ValSplit(e, j);
    ValBound(e[..j]);
    ValBound(e[j + 1..]);
    TwoPow(j);
    assert e[j..][1..] == e[j + 1..];
    assert Val(e[j..]) == e[j] + DV * Val(e[j + 1..]);
    hide Val;
    DivUnique(Val(e), Pow(j), Val(e[j..]), Val(e[..j]));
  }

  /** (d + 2^28 x) / 2^a modulo 2^b is (d / 2^a) modulo 2^b, as long as the window stays inside the digit. */
  lemma InsideDigit(d: nat, x: nat, a: nat, b: nat)
    requires d < DV && a + b <= 28
    ensures ((d + DV * x) / Two(a)) % Two(b) == (d / Two(a)) % Two(b)
  {
    hide Two;
    TwoAdd(a, 28 - a);
    TwoAdd(b, 28 - a - b);
    Two28();
    var p, q, c := Two(a), Two(b), Two(28 - a - b);
    InsideInts(d, x, p, q, c);
  }

  lemma InsideInts(d: nat, x: nat, p: nat, q: nat, c: nat)
    requires p > 0 && q > 0 && DV == p * (q * c)
    ensures ((d + DV * x) / p) % q == (d / p) % q
  {
    assert DV * x == p * (q * (c * x)) by {
      MulAssoc(p, q * c, x);
      MulAssoc(q, c, x);
    }
    var k := c * x;
    DivUnique(d + DV * x, p, d / p + q * k, d % p);
    AddMultiple(d / p, k, q);
  }

  /** The window that reaches into the next lower digit. */
  lemma AcrossDigits(d: nat, d': nat, x: nat, i: nat, a: nat, k: nat)
    requires d < DV && d' < DV && i < 28 && a <= 28 && k == i + 1 + (28 - a)
    ensures ((d' + DV * (d + DV * x)) / Two(a)) % Two(k) == (d % Two(i + 1)) * Two(28 - a) + d' / Two(a)
    ensures d' / Two(a) < Two(28 - a)
  {
    hide Two;
    TwoAdd(a, 28 - a);
    TwoAdd(i + 1, 28 - a);
    TwoAdd(i + 1, 27 - i);
    Two28();
    AcrossInts(d, d', x, Two(a), Two(28 - a), Two(i + 1), Two(27 - i));
  }

  lemma AcrossInts(d: nat, d': nat, x: nat, p: nat, c: nat, q: nat, r: nat)
    requires d' < DV && p > 0 && c > 0 && q > 0 && DV == p * c && DV == q * r
    ensures ((d' + DV * (d + DV * x)) / p) % (q * c) == (d % q) * c + d' / p
    ensures d' / p < c && q * c > 0
  {
    var y := d + DV * x;
    DropLow(d', y, p, c);
    MulAssoc(q, r, x);
    Modulo(d' / p, y, c, q, d / q + r * x, d % q);
  }

  lemma DropLow(d: nat, y: nat, p: nat, c: nat)
    requires p > 0 && c > 0 && d < p * c
    ensures (d + (p * c) * y) / p == d / p + c * y && d / p < c
  {
    MulAssoc(p, c, y);
    DivUnique(d + (p * c) * y, p, d / p + c * y, d % p);
    if d / p >= c {
      MulLe(c, d / p, p);
    }
  }

  lemma Modulo(u: nat, y: nat, c: nat, q: nat, h: nat, e: nat)
    requires u < c && q > 0 && y == q * h + e && e < q
    ensures q * c > 0 && (u + c * y) % (q * c) == e * c + u
  {
    assert c * y == (q * c) * h + e * c by {
      assert c * (q * h + e) == c * (q * h) + c * e;
      MulAssoc(c, q, h);
    }
    MulLe(e, q - 1, c);
    assert (q - 1) * c == q * c - c;
    DivUnique(u + c * y, q * c, h, e * c + u);
  }

  /** The `k1 + 1` bits of the exponent from bit `i` of digit `j` downwards, padded with zeros at the end.  The two
      parts that the source combines with a bitwise or have no bit in common. */
  method Window(e: seq<int>, j: nat, i: nat, k1: nat) returns (w: nat)
    requires AllDigits(e) && j < |e| && i < 28 && k1 < 28
    ensures 0 <= Val(e) && w == High(Val(e), 28 * j + i - k1) % Two(k1 + 1)
  {
    hide Val, Pow, Two, High;
    DigitAt(e, j);
    ghost var x := Val(e[j + 1..]);
    if i >= k1 {
      w := (e[j] / Two(i - k1)) % Two(k1 + 1);
      HighDrop(Val(e), 28 * j, i - k1);
      InsideDigit(e[j], x, i - k1, k1 + 1);
    } else {
      w := (e[j] % Two(i + 1)) * Two(k1 - i);
      if j > 0 {
        w := w + e[j - 1] / Two(28 + i - k1);
        DigitAt(e, j - 1);
        FromDigit(e, j);
        HighDrop(Val(e), 28 * (j - 1), 28 + i - k1);
        AcrossDigits(e[j], e[j - 1], x, i, 28 + i - k1, k1 + 1);
      } else {
        LowWindow(e, i, k1);
      }
    }
  }

  lemma FromDigit(e: seq<int>, j: nat)
    requires 0 < j < |e|
    ensures Val(e[j - 1 + 1..]) == e[j] + DV * Val(e[j + 1..])
  {
    assert e[j..][1..] == e[j + 1..];
  }

  lemma LowWindow(e: seq<int>, i: nat, k1: nat)
    requires AllDigits(e) && e != [] && i < k1 < 28
    ensures 0 <= Val(e) && High(Val(e), i - k1) % Two(k1 + 1) == (e[0] % Two(i + 1)) * Two(k1 - i)
  {
    ValBound(e);
    assert Val(e) == e[0] + DV * Val(e[1..]);
    ValBound(e[1..]);
    hide Val, Two;
    TwoAdd(i + 1, k1 - i);
    TwoAdd(i + 1, 27 - i);
    Two28();
    LowInts(Val(e), e[0], Val(e[1..]), Two(i + 1), Two(k1 - i), Two(27 - i));
  }

  lemma LowInts(v: nat, d: nat, x: nat, q: nat, c: nat, r: nat)
    requires v == d + DV * x && DV == q * r && q > 0 && c > 0
    ensures q * c > 0 && (v * c) % (q * c) == (d % q) * c
  {
    MulAssoc(q, r, x);
    Modulo(0, v, c, q, d / q + r * x, d % q);
  }

  // ----- the windows -----

  /** Strips the zeros at the end of a window of `k` bits. */
  method Strip(w0: nat, k: nat) returns (w: nat, n: nat)
    requires 0 < w0 < Two(k)
    ensures 1 <= n <= k && w % 2 == 1 && w0 == w * Two(k - n) && w < Two(n)
  {
    hide Two;
    w, n := w0, k;
    TimesOne(w0);
    while w % 2 == 0
      invariant n <= k && 0 < w < Two(n) && w0 == w * Two(k - n)
      decreases w
    {
      StripStep(w, k, n);
      w, n := w / 2, n - 1;
    }
    StripStep(w, k, n);
  }

  lemma StripStep(w: nat, k: nat, n: nat)
    requires n <= k && 0 < w < Two(n)
    ensures n > 0
    ensures w % 2 == 0 ==> w / 2 < Two(n - 1) && w * Two(k - n) == (w / 2) * Two(k - (n - 1))
  {
    if n > 0 {
      TwoDoubles(n - 1);
      TwoDoubles(k - n);
      hide Two;
      if w % 2 == 0 {
        MulAssoc(w / 2, 2, Two(k - n));
      }
    }
  }

  /** A window that starts at a set bit is not empty. */
  lemma WindowNotEmpty(a: nat, k: nat)
    requires k >= 1 && (a / Two(k - 1)) % 2 == 1
    ensures a % Two(k) > 0
  {
    var p := Two(k - 1);
    if a % Two(k) == 0 {
      var q := a / Two(k);
      assert a == p * (2 * q) by { MulAssoc(p, 2, q); }
      DivUnique(a, p, 2 * q, 0);
    }
  }

  lemma WindowStep(e: nat, p: int, k: nat, w0: nat, w: nat, n: nat)
    requires p >= 0 && 1 <= n <= k && w0 == High(e, p - (k - 1)) % Two(k) && w0 == w * Two(k - n) && w % 2 == 1
    ensures High(e, p + 1 - n) == High(e, p + 1) * Two(n) + w && p + 1 - n >= 0
  {
    hide Two, High;
    var a := High(e, p - (k - 1));
    HighDrop(e, p - (k - 1), k);
    HighDrop(e, p - (k - 1), k - n);
    TwoAdd(n, k - n);
    var h := High(e, p + 1);
    StepInts(a, h, Two(n), Two(k - n), w);
    TwoEven(n);
    EvenTimes(h, Two(n), w);
    if p + 1 - n < 0 {
      HighEven(e, p + 1 - n);
    }
  }

  lemma EvenTimes(h: nat, t: nat, w: nat)
    requires t % 2 == 0 && w % 2 == 1
    ensures (h * t + w) % 2 == 1
  {
    assert h * t == 2 * (h * (t / 2));
  }

  lemma StepInts(a: nat, h: nat, t: nat, u: nat, w: nat)
    requires t > 0 && u > 0 && t * u > 0 && h == a / (t * u) && a % (t * u) == w * u
    ensures a / u == h * t + w
  {
    assert a == (t * u) * h + w * u;
    assert (t * u) * h == u * (h * t) by { assert (t * u) * h == u * (t * h); }
    DivUnique(a, u, h * t + w, 0);
  }

  lemma BitAt(e: seq<int>, j: nat, i: nat)
    requires AllDigits(e) && j < |e| && i < 28
    ensures 0 <= Val(e) && High(Val(e), 28 * j + i) % 2 == (e[j] / Two(i)) % 2
  {
    hide Val, High;
    DigitAt(e, j);
    HighDrop(Val(e), 28 * j, i);
    InsideDigit(e[j], Val(e[j + 1..]), i, 1);
    assert Two(1) == 2;
  }

  lemma NextBit(e: nat, p: int)
    ensures High(e, p) == 2 * High(e, p + 1) + High(e, p) % 2
  {
    HighDrop(e, p, 1);
    assert Two(1) == 2;
  }

  lemma TopBit(e: seq<int>, r: nat)
    requires AllDigits(e) && e != [] && 1 <= r <= 28 && Two(r - 1) <= e[|e| - 1] < Two(r)
    ensures 0 <= Val(e)
    ensures High(Val(e), 28 * (|e| - 1) + r - 1) % 2 == 1 && High(Val(e), 28 * (|e| - 1) + r) == 0
  {
    hide Two, High;
    var j, d := |e| - 1, e[|e| - 1];
    DigitAt(e, j);
    assert e[j + 1..] == [];
    NoDigits();
    HighDrop(Val(e), 28 * j, r - 1);
    HighDrop(Val(e), 28 * j, r);
    hide Val;
    TwoDoubles(r - 1);
    DivUnique(d, Two(r - 1), 1, d - Two(r - 1));
    DivUnique(d, Two(r), 0, d);
  }

  /** The bit number of position `i` in digit `j`, and the same after moving down by `n` bits. */
  method MoveDown(j: int, i: int, n: nat) returns (j': int, i': int)
    requires 0 <= j && 0 <= i < 28 && n <= 28 && 28 * j + i - n >= -1
    ensures 28 * j' + i' == 28 * j + i - n && 0 <= i' < 28 && -1 <= j' <= j && (j' == -1 ==> i' == 27)
  {
    j', i' := j, i - n;
    if i' < 0 {
      i', j' := i' + 28, j' - 1;
    }
  }

  /** The width of the window, from the number of bits of the exponent. */
  function WindowBits(bits: nat): (k: nat)
    ensures 1 <= k <= 6
  {
    if bits < 18 then 1 else if bits < 48 then 3 else if bits < 144 then 4 else if bits < 768 then 5 else 6
  }

  lemma HighZero(e: nat)
    ensures High(e, 0) == e
  {
    assert Two(0) == 1;
  }
}
