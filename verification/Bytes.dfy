/** Bytes as the integers 0 to 255, and big-endian two's complement integers. */
module Bytes {
  type byte = x: int | 0 <= x < 256

  const UINT32 := 0x1_0000_0000

  function Pow256(n: nat): (r: nat)
    ensures r > 0
  {
    if n == 0 then 1 else 256 * Pow256(n - 1)
  }

  /** The n low-order bytes of v, most significant first: (v >> 8 * k) & 0xff. */
  function EncodeInt(v: int, n: nat): (r: seq<byte>)
    ensures |r| == n
    decreases n
  {
    if n == 0 then [] else EncodeInt(v / 256, n - 1) + [v % 256]
  }

  function FromBigEndian(s: seq<byte>): nat {
    if s == [] then 0 else FromBigEndian(s[..|s| - 1]) * 256 + s[|s| - 1]
  }

  /** The two's complement integer stored in s. */
  function DecodeInt(s: seq<byte>): int {
    var u, m := FromBigEndian(s), Pow256(|s|);
    if u < m / 2 then u else u - m
  }

  /** The n-byte two's complement range. */
  predicate Fits(v: int, n: nat)
    requires n > 0
  {
    -(Pow256(n) / 2) <= v < Pow256(n) / 2
  }

  lemma {:induction false} UnsignedValue(v: int, n: nat)
    requires -(Pow256(n) as int) <= v < Pow256(n)
    ensures FromBigEndian(EncodeInt(v, n)) == if v < 0 then v + Pow256(n) else v
    decreases n
  {
    if n > 0 {
      UnsignedValue(v / 256, n - 1);
      assert EncodeInt(v, n)[..n - 1] == EncodeInt(v / 256, n - 1);
    }
  }

  lemma {:induction false} FromBigEndianBounded(s: seq<byte>)
    ensures FromBigEndian(s) < Pow256(|s|)
  {
    if s != [] { FromBigEndianBounded(s[..|s| - 1]); }
  }

  lemma PowEven(n: nat)
    requires n > 0
    ensures Pow256(n) == 2 * (Pow256(n) / 2)
  {
    assert Pow256(n) == 2 * (128 * Pow256(n - 1));
  }

  /** Decoding undoes encoding on the whole signed range. */
  lemma IntRoundTrip(v: int, n: nat)
    requires n > 0 && Fits(v, n)
    ensures DecodeInt(EncodeInt(v, n)) == v
  {
    PowEven(n);
    UnsignedValue(v, n);
  }

  lemma DecodeFits(s: seq<byte>)
    requires s != []
    ensures Fits(DecodeInt(s), |s|)
  {
    FromBigEndianBounded(s);
    PowEven(|s|);
  }

  lemma Pow256Values()
    ensures Pow256(1) == 0x100 && Pow256(2) == 0x1_0000 && Pow256(4) == 0x1_0000_0000
    ensures Pow256(8) == 0x1_0000_0000_0000_0000
  {
    assert Pow256(0) == 1 && Pow256(3) == 0x100_0000 && Pow256(5) == 0x100_0000_0000;
    assert Pow256(6) == 0x1_0000_0000_0000 && Pow256(7) == 0x100_0000_0000_0000;
  }

  /** The shifts by 24, 16 and 8 bits, as the C and Java code writes them. */
  lemma FourBytes(v: int)
    ensures EncodeInt(v, 4) == [v / 0x100_0000 % 256, v / 0x1_0000 % 256, v / 0x100 % 256, v % 256]
  {
    assert v / 256 / 256 == v / 0x1_0000 && v / 0x1_0000 / 256 == v / 0x100_0000;
    assert EncodeInt(v / 0x100_0000, 1) == [v / 0x100_0000 % 256];
    assert EncodeInt(v / 0x1_0000, 2) == [v / 0x100_0000 % 256, v / 0x1_0000 % 256];
    assert EncodeInt(v / 0x100, 3) == [v / 0x100_0000 % 256, v / 0x1_0000 % 256, v / 0x100 % 256];
  }

  /** v >> 8 * m */
  function Shift(v: int, m: nat): int
    decreases m
  {
    if m == 0 then v else Shift(v / 256, m - 1)
  }

  /** A 64-bit value is its high half followed by its low half. */
  lemma {:induction false} EncodeIntSplit(v: int, n: nat, m: nat)
    ensures EncodeInt(v, n + m) == EncodeInt(Shift(v, m), n) + EncodeInt(v, m)
    decreases m
  {
    if m > 0 {
      EncodeIntSplit(v / 256, n, m - 1);
    }
  }

  lemma EightBytes(v: int)
    ensures EncodeInt(v, 8) ==
      [v / 0x100_0000_0000_0000 % 256, v / 0x1_0000_0000_0000 % 256, v / 0x100_0000_0000 % 256,
        v / 0x1_0000_0000 % 256] +
      [v / 0x100_0000 % 256, v / 0x1_0000 % 256, v / 0x100 % 256, v % 256]
  {
    var high := v / 0x1_0000_0000;
    assert Shift(v, 4) == high;
    EncodeIntSplit(v, 4, 4);
    FourBytes(v);
    FourBytes(high);
    assert high / 0x100 == v / 0x100_0000_0000 && high / 0x1_0000 == v / 0x1_0000_0000_0000;
    assert high / 0x100_0000 == v / 0x100_0000_0000_0000;
  }

  /** b0 << 24 | b1 << 16 | b2 << 8 | b3 */
  lemma FourDigits(b0: byte, b1: byte, b2: byte, b3: byte)
    ensures FromBigEndian([b0, b1, b2, b3]) == ((b0 * 256 + b1 as int) * 256 + b2) * 256 + b3
  {
    assert [b0, b1, b2, b3][..3] == [b0, b1, b2] && [b0, b1, b2][..2] == [b0, b1] && [b0, b1][..1] == [b0]
      && [b0][..0] == [];
    assert FromBigEndian([b0]) == b0;
    assert FromBigEndian([b0, b1]) == FromBigEndian([b0]) * 256 + b1;
    assert FromBigEndian([b0, b1, b2]) == FromBigEndian([b0, b1]) * 256 + b2;
  }

  lemma MulRegroup(a: nat, p: nat)
    ensures a * p * 256 == a * (256 * p)
  {}

  /** High half times 2^32 plus low half. */
  lemma {:induction false} FromBigEndianConcat(a: seq<byte>, b: seq<byte>)
    ensures FromBigEndian(a + b) == FromBigEndian(a) * Pow256(|b|) + FromBigEndian(b)
    decreases |b|
  {
    if b == [] { assert a + b == a; }
    else {
      var front := b[..|b| - 1];
      assert (a + b)[..|a + b| - 1] == a + front;
      FromBigEndianConcat(a, front);
      calc {
        FromBigEndian(a + b);
        (FromBigEndian(a) * Pow256(|front|) + FromBigEndian(front)) * 256 + b[|b| - 1];
        { MulRegroup(FromBigEndian(a), Pow256(|front|)); }
        FromBigEndian(a) * Pow256(|b|) + FromBigEndian(b);
      }
    }
  }

  /** The high half keeps the sign, the low half is taken unsigned. */
  lemma DecodeLong(hi: seq<byte>, lo: seq<byte>)
    requires |hi| == |lo| == 4
    ensures DecodeInt(hi + lo) == DecodeInt(hi) * 0x1_0000_0000 + FromBigEndian(lo)
    ensures FromBigEndian(lo) == if DecodeInt(lo) < 0 then DecodeInt(lo) + 0x1_0000_0000 else DecodeInt(lo)
  {
    FromBigEndianConcat(hi, lo);
    FromBigEndianBounded(hi);
    FromBigEndianBounded(lo);
    Pow256Values();
  }
}
