/** The 32-bit register that upstream/lcm/eventlog.c shifts the bytes of a log through. */
module MagicRegister {
  import opened Bytes
  import opened EventLogFormat

  const MAGIC_WORD := 0xEDA1DA01

  /** The last four bytes scanned, fewer at the start. */
  function LastFour(s: seq<byte>): seq<byte> {
    if |s| <= 4 then s else s[|s| - 4..]
  }

  /** magic = (magic << 8) | r, in 32 bits */
  function Register(magic: int, r: byte): int { (magic * 256 + r as int) % 0x1_0000_0000 }

  lemma DropTop(top: int, low: int, v: int)
    requires 0 <= low < 0x1_0000_0000 && v == top * 0x1_0000_0000 + low
    ensures v % 0x1_0000_0000 == low
  {}

  lemma {:induction false} PowMonotonic(n: nat, m: nat)
    requires n <= m
    ensures Pow256(n) <= Pow256(m)
  {
    if n < m { PowMonotonic(n, m - 1); }
  }

  lemma RegisterFilling(w: seq<byte>, r: byte)
    requires |w| < 4
    ensures Register(FromBigEndian(w), r) == FromBigEndian(w + [r])
  {
    assert (w + [r])[..|w|] == w;
    FromBigEndianBounded(w + [r]);
    PowMonotonic(|w| + 1, 4);
    Pow256Values();
    hide Pow256;
    DropTop(0, FromBigEndian(w + [r]), FromBigEndian(w) * 256 + r as int);
  }

  lemma FiveDigits(b0: int, b1: int, b2: int, b3: int, r: int)
    ensures (((b0 * 256 + b1) * 256 + b2) * 256 + b3) * 256 + r
         == b0 * 0x1_0000_0000 + (((b1 * 256 + b2) * 256 + b3) * 256 + r)
  {}

  lemma FourOf(w: seq<byte>, r: byte)
    requires |w| == 4
    ensures w == [w[0], w[1], w[2], w[3]] && w[1..] + [r] == [w[1], w[2], w[3], r]
  {}

  lemma RegisterFull(w: seq<byte>, r: byte)
    requires |w| == 4
    ensures Register(FromBigEndian(w), r) == FromBigEndian(w[1..] + [r])
  {
    hide FromBigEndian; hide Pow256;
    FourOf(w, r);
    FourDigits(w[0], w[1], w[2], w[3]);
    FourDigits(w[1], w[2], w[3], r);
    FiveDigits(w[0], w[1], w[2], w[3], r);
    var low := FromBigEndian(w[1..] + [r]);
    FromBigEndianBounded(w[1..] + [r]);
    Pow256Values();
    DropTop(w[0], low, FromBigEndian(w) * 256 + r as int);
  }

  /** The word as the writers' int32. */
  lemma MagicBytes()
    ensures EncodeInt(MAGIC_WORD - 0x1_0000_0000, 4) == MAGIC
  {
    FourBytes(MAGIC_WORD - 0x1_0000_0000);
  }

  lemma RegisterIsMagic(w: seq<byte>)
    requires |w| <= 4
    ensures FromBigEndian(w) == MAGIC_WORD <==> w == MAGIC
  {
    if |w| < 4 {
      FromBigEndianBounded(w);
      PowMonotonic(|w|, 3);
      assert Pow256(1) == 0x100 && Pow256(2) == 0x1_0000 && Pow256(3) == 0x100_0000;
    } else {
      FourDigits(w[0], w[1], w[2], w[3]);
      FourDigits(0xED, 0xA1, 0xDA, 0x01);
      assert w == [w[0], w[1], w[2], w[3]];
    }
  }

  /** The register holds the last four bytes scanned, and shows the magic word
      exactly when they are it. */
  lemma RegisterStep(s: seq<byte>, r: byte, magic: int)
    requires magic == FromBigEndian(LastFour(s))
    ensures Register(magic, r) == FromBigEndian(LastFour(s + [r]))
    ensures Register(magic, r) == MAGIC_WORD <==> LastFour(s + [r]) == MAGIC
  {
    var w := LastFour(s);
    if |w| < 4 {
      RegisterFilling(w, r);
      assert LastFour(s + [r]) == w + [r];
    } else {
      RegisterFull(w, r);
      assert LastFour(s + [r]) == w[1..] + [r];
    }
    hide FromBigEndian; hide Register;
    RegisterIsMagic(LastFour(s + [r]));
  }

  /** One turn of the scanning loop of eventlog.c. */
  lemma ScanStep(file: seq<byte>, start: nat, pos: nat, magic: int)
    requires start <= pos < |file| && magic == FromBigEndian(LastFour(file[start..pos]))
    ensures Register(magic, file[pos]) == FromBigEndian(LastFour(file[start..pos + 1]))
    ensures Register(magic, file[pos]) == MAGIC_WORD <==> start + 4 <= pos + 1 && MagicAt(file, pos - 3)
  {
    assert file[start..pos] + [file[pos]] == file[start..pos + 1];
    RegisterStep(file[start..pos], file[pos], magic);
    if start + 4 <= pos + 1 { assert LastFour(file[start..pos + 1]) == file[pos - 3..pos + 1]; }
  }
}
