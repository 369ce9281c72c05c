/**
 Bytes, and numbers as little-endian byte strings.
 */
module LittleEndian {
  import opened Arithmetic

  type Byte = x: int | 0 <= x < 256

  function Base(k: nat): (p: nat)
    ensures p >= 1
  {
    if k == 0 then 1 else 256 * Base(k - 1)
  }

  /** The `k` low bytes of a number, lowest first. */
  function ToLe(n: nat, k: nat): (s: seq<Byte>)
    ensures |s| == k
  {
    if k == 0 then [] else [n % 256] + ToLe(n / 256, k - 1)
  }

  function FromLe(s: seq<Byte>): nat {
    if s == [] then 0 else s[0] + 256 * FromLe(s[1..])
  }

  lemma {:induction false} FromLeBound(s: seq<Byte>)
    ensures FromLe(s) < Base(|s|)
  {
    if s != [] {
      FromLeBound(s[1..]);
    }
  }

  /** Decoding gives back the number, up to what does not fit. */
  lemma {:induction false} DecodeEncode(n: nat, k: nat)
    ensures FromLe(ToLe(n, k)) == n % Base(k)
  {
    if k > 0 {
      DecodeEncode(n / 256, k - 1);
      var s := ToLe(n, k);
      assert s[1..] == ToLe(n / 256, k - 1);
      ModSplit(n, Base(k - 1));
    }
  }

  /** A number that fits is decoded as it is. */
  lemma DecodeExact(n: nat, k: nat)
    requires n < Base(k)
    ensures FromLe(ToLe(n, k)) == n
  {
    hide Base, ToLe, FromLe;
    DecodeEncode(n, k);
    DivUnique(n, Base(k), 0, n);
  }

  lemma ModSplit(n: nat, b: nat)
    requires b > 0
    ensures 256 * b > 0 && n % (256 * b) == n % 256 + 256 * ((n / 256) % b)
  {
    var q, r := n / 256, n % 256;
    var d, m := q / b, q % b;
    assert n == (256 * b) * d + (256 * m + r) by {
      assert q == b * d + m;
      assert 256 * (b * d) == (256 * b) * d;
    }
    DivUnique(n, 256 * b, d, 256 * m + r);
  }

  /** Every byte string is the encoding of the number that it decodes to. */
  lemma {:induction false} EncodeDecode(s: seq<Byte>)
    ensures ToLe(FromLe(s), |s|) == s
  {
    if s != [] {
      EncodeDecode(s[1..]);
      assert FromLe(s) % 256 == s[0] && FromLe(s) / 256 == FromLe(s[1..]);
    }
  }

  /** The four bytes of a 32-bit number, lowest first. */
  lemma FourBytes(n: nat)
    requires n < 0x1_0000_0000
    ensures ToLe(n, 4) == [n % 256, n / 0x100 % 256, n / 0x1_0000 % 256, n / 0x100_0000]
  {
    LowBytes(n);
  }

  lemma LowBytes(n: nat)
    ensures ToLe(n, 4) == [n % 256, n / 0x100 % 256, n / 0x1_0000 % 256, n / 0x100_0000 % 256]
  {
    TwoBytes(n);
    TwoBytes(n / 0x1_0000);
    assert ToLe(n, 4) == [n % 256] + ToLe(n / 256, 3) && ToLe(n / 256, 3) == [n / 256 % 256] + ToLe(n / 256 / 256, 2);
  }

  lemma {:induction false} ToLeSplit(n: nat, j: nat, k: nat)
    ensures n / Base(j) >= 0 && ToLe(n, j + k) == ToLe(n, j) + ToLe(n / Base(j), k)
  {
    if j > 0 {
      ToLeSplit(n / 256, j - 1, k);
      DivDiv(n, 256, Base(j - 1));
    }
  }

  /** The eight bytes of a 64-bit number, lowest first. */
  lemma EightBytes(n: nat)
    requires n < 0x1_0000_0000_0000_0000
    ensures ToLe(n, 8) ==
      [n % 256, n / 0x100 % 256, n / 0x1_0000 % 256, n / 0x100_0000 % 256, n / 0x1_0000_0000 % 256,
       n / 0x100_0000_0000 % 256, n / 0x1_0000_0000_0000 % 256, n / 0x100_0000_0000_0000]
  {
    hide ToLe, Base;
    ToLeSplit(n, 4, 4);
    Words();
    var h := n / 0x1_0000_0000;
    LowBytes(n);
    FourBytes(h);
    HighBytes(n);
  }

  lemma HighBytes(n: nat)
    ensures var h := n / 0x1_0000_0000;
      && h / 0x100 == n / 0x100_0000_0000 && h / 0x1_0000 == n / 0x1_0000_0000_0000
      && h / 0x100_0000 == n / 0x100_0000_0000_0000
  {
    DivDiv(n, 0x1_0000_0000, 0x100);
    DivDiv(n, 0x1_0000_0000, 0x1_0000);
    DivDiv(n, 0x1_0000_0000, 0x100_0000);
  }

  lemma TwoBytes(n: nat)
    ensures ToLe(n, 2) == [n % 256, n / 256 % 256] && n / 256 / 256 == n / 0x1_0000
    ensures n < 0x1_0000 ==> n / 256 % 256 == n / 256
  {
    assert ToLe(n, 2) == [n % 256] + ToLe(n / 256, 1) && ToLe(n / 256, 1) == [n / 256 % 256] + ToLe(n / 256 / 256, 0);
  }

  /** The number that four bytes stand for. */
  lemma FourBytesRead(a: Byte, b: Byte, c: Byte, d: Byte)
    ensures FromLe([a, b, c, d]) == a + 0x100 * b + 0x1_0000 * c + 0x100_0000 * d
  {
    hide FromLe;
    FirstByte(a, [b, c, d]);
    FirstByte(b, [c, d]);
    FirstByte(c, [d]);
    FirstByte(d, []);
    assert [a, b, c, d] == [a] + [b, c, d] && [b, c, d] == [b] + [c, d] && [c, d] == [c] + [d] && [d] == [d] + [];
  }

  lemma FirstByte(x: Byte, s: seq<Byte>)
    ensures FromLe([x] + s) == (x as int) + 256 * FromLe(s) && FromLe([]) == 0
  {
    assert ([x] + s)[1..] == s;
  }

  lemma Words()
    ensures Base(4) == 0x1_0000_0000 && Base(8) == 0x1_0000_0000_0000_0000
  {
    assert Base(2) == 0x1_0000 && Base(4) == 256 * (256 * Base(2));
    assert Base(6) == 256 * (256 * Base(4)) && Base(8) == 256 * (256 * Base(6));
  }
}
