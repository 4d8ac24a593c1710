/** What the base hash keeps of a declaration: a changed character changes it. */
module HashText {
  import opened Bytes
  import opened Fingerprint
  import opened Messages
  import opened Schema
  import opened Wrappers

  // ----- an update forgets nothing -----

  predicate Plus(v: bv64) { v & 0x8000_0000_0000_0000 == 0 }

  /** The lowest bit and the highest are the same. */
  predicate EndsAlike(x: bv64) { (x ^ (x >> 63)) & 1 == 0 }

  function PlusBack(x: bv64): bv64 { ((x >> 8) & 0x007F_FFFF_FFFF_FFFF) | ((x & 0xFF) << 55) }

  function MinusBack(x: bv64): bv64 {
    (((x >> 8) ^ 0x00FF_FFFF_FFFF_FFFF) & 0x007F_FFFF_FFFF_FFFF) | ((x & 0xFF) << 55) | 0x8000_0000_0000_0000
  }

  lemma PlusBits(v: bv64)
    requires v & 0x8000_0000_0000_0000 == 0
    ensures var x := (v << 8) ^ (v >> 55); EndsAlike(x) && PlusBack(x) == v
  {}

  lemma MinusBits(v: bv64)
    requires v & 0x8000_0000_0000_0000 != 0
    ensures var x := (v << 8) ^ ((v >> 55) | 0xFFFF_FFFF_FFFF_FE00); !EndsAlike(x) && MinusBack(x) == v
  {}

  /** A sign bit spreads over the upper bits, so they come back inverted; it shows in the
      two ends. */
  lemma MixedBack(v: bv64)
    ensures Plus(v) ==> EndsAlike(Mixed(v)) && PlusBack(Mixed(v)) == v
    ensures !Plus(v) ==> !EndsAlike(Mixed(v)) && MinusBack(Mixed(v)) == v
  {
    hide EndsAlike; hide PlusBack; hide MinusBack;
    if Plus(v) { PlusBits(v); } else { MinusBits(v); }
  }

  /** Of two values that differ, no character makes one. */
  lemma UpdateKeeps(v: bv64, w: bv64, c: int)
    requires HashUpdate(v, c) == HashUpdate(w, c)
    ensures v == w
  {
    hide Mixed; hide CharBits; hide Plus64; hide Minus64; hide EndsAlike; hide PlusBack; hide MinusBack; hide Plus;
    MixedBack(v);
    MixedBack(w);
  }

  lemma ByteOne()
    ensures ByteBits(1) == 1
  {}

  lemma MixedTop()
    ensures Mixed(0x8000_0000_0000_0000) == 0xFFFF_FFFF_FFFF_FF00
  {}

  lemma PlusOne()
    ensures Plus64(0xFFFF_FFFF_FFFF_FF00, 1) == 0xFFFF_FFFF_FFFF_FF01
  {}

  /** One step over the sign bit. */
  lemma SignStep()
    ensures HashUpdate(0x8000_0000_0000_0000, 1) == 0xFFFF_FFFF_FFFF_FF01
  {
    hide ByteBits; hide Mixed; hide Plus64; hide Minus64;
    ByteOne();
    MixedTop();
    PlusOne();
  }

  lemma BitsOfByte(u: int)
    ensures ByteBits(u) & 1 == Bit(u, 1, 1) && ByteBits(u) & 2 == Bit(u, 2, 2)
    ensures ByteBits(u) & 4 == Bit(u, 4, 4) && ByteBits(u) & 8 == Bit(u, 8, 8)
    ensures ByteBits(u) & 0x10 == Bit(u, 0x10, 0x10) && ByteBits(u) & 0x20 == Bit(u, 0x20, 0x20)
    ensures ByteBits(u) & 0x40 == Bit(u, 0x40, 0x40) && ByteBits(u) & 0x80 == Bit(u, 0x80, 0x80)
  {}

  lemma Quotient(c: int, q: int, r: int, k: int)
    requires 0 <= r < k && c == k * q + r
    ensures c / k == q
  {
    var d := c / k - q;
    assert k * d == k * (c / k) - k * q;
    assert d >= 1 ==> k * d >= k;
    assert d <= -1 ==> k * d <= -k;
  }

  lemma MulTwice(k: int, h: int)
    ensures k * (2 * h) == (2 * k) * h && k * (2 * h + 1) == (2 * k) * h + k
  {}

  lemma NextBit(c: int, k: int)
    requires 0 < k
    ensures c % (2 * k) == c % k + k * (c / k % 2)
  {
    var q, r, h := c / k, c % k, c / k / 2;
    MulTwice(k, h);
    var rest := if q % 2 == 0 then r else k + r;
    assert q == if q % 2 == 0 then 2 * h else 2 * h + 1;
    assert c == k * q + r;
    Quotient(c, h, rest, 2 * k);
    assert c % (2 * k) == c - (2 * k) * h;
  }

  function BitOf(c: int, k: int): int
    requires k != 0
  {
    c / k % 2
  }

  lemma SumOfBits(c: int)
    ensures c % 256 == BitOf(c, 1) + 2 * BitOf(c, 2) + 4 * BitOf(c, 4) + 8 * BitOf(c, 8) + 0x10 * BitOf(c, 0x10)
      + 0x20 * BitOf(c, 0x20) + 0x40 * BitOf(c, 0x40) + 0x80 * BitOf(c, 0x80)
  {
    NextBit(c, 1); NextBit(c, 2); NextBit(c, 4); NextBit(c, 8); NextBit(c, 0x10); NextBit(c, 0x20);
    NextBit(c, 0x40); NextBit(c, 0x80);
  }

  lemma BitEqual(c: int, d: int, k: int, b: bv64)
    requires k > 0 && b != 0 && Bit(c, k, b) == Bit(d, k, b)
    ensures BitOf(c, k) == BitOf(d, k)
  {}

  lemma SameByte(u: int, w: int)
    requires ByteBits(u) == ByteBits(w)
    ensures u % 256 == w % 256
  {
    hide *;
    BitsOfByte(u); BitsOfByte(w);
    BitEqual(u, w, 1, 1); BitEqual(u, w, 2, 2); BitEqual(u, w, 4, 4); BitEqual(u, w, 8, 8);
    BitEqual(u, w, 0x10, 0x10); BitEqual(u, w, 0x20, 0x20); BitEqual(u, w, 0x40, 0x40); BitEqual(u, w, 0x80, 0x80);
    SumOfBits(u); SumOfBits(w);
  }

  lemma CharBitsKeep(c: int, d: int)
    ensures CharBits(c) == CharBits(d) <==> c % 256 == d % 256
  {
    hide ByteBits;
    if CharBits(c) == CharBits(d) { SameByte(c % 256, d % 256); }
  }

  /** Of the number added only the low eight bits count, and all of them. */
  lemma CharacterCounts(v: bv64, c: int, d: int)
    ensures HashUpdate(v, c) == HashUpdate(v, d) <==> c % 256 == d % 256
  {
    hide Mixed; hide CharBits; hide Plus64; hide Minus64;
    CharBitsKeep(c, d);
  }

  // ----- the text that is hashed -----

  /** One update for each number. */
  function HashAll(v: bv64, text: seq<int>): bv64
    decreases |text|
  {
    if text == [] then v else HashAll(HashUpdate(v, text[0]), text[1..])
  }

  /** A string goes in with its length. */
  function StringText(s: string): seq<int> { [|s|] + seq(|s|, i requires 0 <= i < |s| => s[i] as int) }

  function DimText(d: Dim): seq<int> {
    match d
    case Const(token, _) => [0] + StringText(token)
    case Var(name) => [1] + StringText(name)
  }

  function DimsText(dims: seq<Dim>): seq<int> { if dims == [] then [] else DimText(dims[0]) + DimsText(dims[1..]) }

  /** The name, the type unless it is a struct, the number of dimensions, and each size. */
  function MemberText(m: Member): seq<int> {
    StringText(m.name) + (if m.ty.Struct? then [] else StringText(PrimName(m.ty))) + [|m.dims|] + DimsText(m.dims)
  }

  function MembersText(ms: seq<Member>): seq<int> {
    if ms == [] then [] else MemberText(ms[0]) + MembersText(ms[1..])
  }

  lemma {:induction false} HashAllConcat(v: bv64, a: seq<int>, b: seq<int>)
    ensures HashAll(v, a + b) == HashAll(HashAll(v, a), b)
    decreases |a|
  {
    hide HashUpdate;
    if a == [] {
      assert a + b == b;
    } else {
      HashAllConcat(HashUpdate(v, a[0]), a[1..], b);
      assert (a + b)[1..] == a[1..] + b;
    }
  }

  lemma HashAllOne(v: bv64, c: int)
    ensures HashAll(v, [c]) == HashUpdate(v, c)
  {
    hide HashUpdate;
  }

  /** Whatever is hashed in between, values that differ stay apart. */
  lemma {:induction false} HashAllKeeps(v: bv64, w: bv64, text: seq<int>)
    requires HashAll(v, text) == HashAll(w, text)
    ensures v == w
    decreases |text|
  {
    hide HashUpdate;
    if text != [] {
      HashAllKeeps(HashUpdate(v, text[0]), HashUpdate(w, text[0]), text[1..]);
      UpdateKeeps(v, w, text[0]);
    }
  }

  lemma {:induction false} CharsAre(v: bv64, s: string)
    ensures HashChars(v, s) == HashAll(v, seq(|s|, i requires 0 <= i < |s| => s[i] as int))
    decreases |s|
  {
    hide HashUpdate;
    if s != [] {
      var t := seq(|s|, i requires 0 <= i < |s| => s[i] as int);
      CharsAre(HashUpdate(v, s[0] as int), s[1..]);
      assert t[1..] == seq(|s[1..]|, i requires 0 <= i < |s[1..]| => s[1..][i] as int);
    }
  }

  lemma StringIs(v: bv64, s: string)
    ensures HashString(v, s) == HashAll(v, StringText(s))
  {
    hide HashUpdate;
    CharsAre(HashUpdate(v, |s|), s);
    HashAllConcat(v, [|s|], seq(|s|, i requires 0 <= i < |s| => s[i] as int));
    HashAllOne(v, |s|);
  }

  lemma {:induction false} DimsAre(v: bv64, dims: seq<Dim>)
    ensures HashDims(v, dims) == HashAll(v, DimsText(dims))
    decreases |dims|
  {
    hide HashUpdate; hide HashString; hide StringText;
    if dims != [] {
      var d := dims[0];
      var mode, size := if d.Const? then 0 else 1, if d.Const? then d.token else d.member;
      HashAllConcat(v, [mode], StringText(size));
      HashAllOne(v, mode);
      StringIs(HashUpdate(v, mode), size);
      HashAllConcat(v, DimText(d), DimsText(dims[1..]));
      DimsAre(HashDim(v, d), dims[1..]);
    }
  }

  lemma MemberIs(v: bv64, m: Member)
    ensures HashMember(v, m) == HashAll(v, MemberText(m))
  {
    hide HashUpdate; hide HashString; hide StringText; hide HashDims; hide DimsText; hide HashAll; hide PrimName;
    var a := StringText(m.name);
    var b := if m.ty.Struct? then [] else StringText(PrimName(m.ty));
    StringIs(v, m.name);
    if !m.ty.Struct? {
      StringIs(HashAll(v, a), PrimName(m.ty));
      HashAllConcat(v, a, b);
    }
    var v2 := HashAll(v, a + b);
    assert m.ty.Struct? ==> a + b == a;
    HashAllOne(v2, |m.dims|);
    HashAllConcat(v, a + b, [|m.dims|]);
    DimsAre(HashUpdate(v2, |m.dims|), m.dims);
    HashAllConcat(v, a + b + [|m.dims|], DimsText(m.dims));
  }

  lemma {:induction false} MembersAre(v: bv64, ms: seq<Member>)
    ensures HashMembers(v, ms) == HashAll(v, MembersText(ms))
    decreases |ms|
  {
    hide HashMember; hide MemberText; hide HashUpdate;
    if ms != [] {
      MemberIs(v, ms[0]);
      MembersAre(HashMember(v, ms[0]), ms[1..]);
      HashAllConcat(v, MemberText(ms[0]), MembersText(ms[1..]));
    }
  }

  /** Same length, and other than the k-th characters the same. */
  predicate DifferAt(a: seq<int>, b: seq<int>, k: nat) {
    k < |a| == |b| && a[..k] == b[..k] && a[k + 1..] == b[k + 1..]
  }

  lemma OneCharacter(v: bv64, a: seq<int>, b: seq<int>, k: nat)
    requires DifferAt(a, b, k)
    ensures HashAll(v, a) == HashAll(v, b) <==> a[k] % 256 == b[k] % 256
  {
    hide HashUpdate; hide HashAll;
    var pre := HashAll(v, a[..k]);
    assert a == a[..k] + [a[k]] + a[k + 1..] && b == b[..k] + [b[k]] + b[k + 1..];
    HashAllConcat(v, a[..k] + [a[k]], a[k + 1..]);
    HashAllConcat(v, b[..k] + [b[k]], b[k + 1..]);
    HashAllConcat(v, a[..k], [a[k]]);
    HashAllConcat(v, b[..k], [b[k]]);
    HashAllOne(pre, a[k]);
    HashAllOne(pre, b[k]);
    CharacterCounts(pre, a[k], b[k]);
    if HashAll(v, a) == HashAll(v, b) {
      HashAllKeeps(HashUpdate(pre, a[k]), HashUpdate(pre, b[k]), a[k + 1..]);
    }
  }

  // ----- declarations -----

  /** The base hash is one update for each character of the text. */
  lemma BaseHashOfText(ms: seq<Member>)
    ensures BaseHash(ms) == HashAll(0x1234_5678, MembersText(ms))
  {
    hide HashMembers; hide MembersText; hide HashAll;
    MembersAre(0x1234_5678, ms);
  }

  /** Two lists of members whose text differs in one character have different base
      hashes, as long as the characters differ in their low eight bits. */
  lemma ChangedCharacter(ms: seq<Member>, ms': seq<Member>, k: nat)
    requires DifferAt(MembersText(ms), MembersText(ms'), k)
    ensures BaseHash(ms) == BaseHash(ms') <==> MembersText(ms)[k] % 256 == MembersText(ms')[k] % 256
  {
    hide BaseHash; hide MembersText; hide HashAll; hide DifferAt;
    BaseHashOfText(ms);
    BaseHashOfText(ms');
    OneCharacter(0x1234_5678, MembersText(ms), MembersText(ms'), k);
  }

  /** The values between the updates. */
  ghost predicate Trace(vs: seq<bv64>, text: seq<int>) {
    |vs| == |text| + 1 && forall i :: 0 <= i < |text| ==> HashUpdate(vs[i], text[i]) == vs[i + 1]
  }

  lemma {:induction false} TraceEnd(vs: seq<bv64>, text: seq<int>)
    requires Trace(vs, text)
    ensures HashAll(vs[0], text) == vs[|text|]
    decreases |text|
  {
    hide HashUpdate;
    if text != [] {
      forall i | 0 <= i < |text| - 1 ensures HashUpdate(vs[1..][i], text[1..][i]) == vs[1..][i + 1] {
        assert HashUpdate(vs[i + 1], text[i + 1]) == vs[i + 2];
      }
      TraceEnd(vs[1..], text[1..]);
    }
  }

  lemma MixedValues()
    ensures Mixed(0x1234_5678) == 0x12_3456_7800
    ensures Mixed(0x12_3456_7801) == 0x1234_5678_0100
    ensures Mixed(0x1234_5678_0178) == 0x12_3456_7801_7800
    ensures Mixed(0x12_3456_7801_7807) == 0x1234_5678_0178_0700
    ensures Mixed(0x1234_5678_0178_0769) == 0x3456_7801_7807_6924
    ensures Mixed(0x3456_7801_7807_6992) == 0x5678_0178_0769_9268
    ensures Mixed(0x5678_0178_0769_92DC) == 0x7801_7807_6992_DCAC
    ensures Mixed(0x7801_7807_6992_DCDF) == 0x178_0769_92DC_DFF0
    ensures Mixed(0x178_0769_92DC_E022) == 0x7807_6992_DCE0_2202
    ensures Mixed(0x7807_6992_DCE0_2261) == 0x769_92DC_E022_61F0
    ensures Mixed(0x769_92DC_E022_6264) == 0x6992_DCE0_2262_640E
  {}

  lemma PlusValues()
    ensures Plus64(0x12_3456_7800, 0x1) == 0x12_3456_7801
    ensures Plus64(0x1234_5678_0100, 0x78) == 0x1234_5678_0178
    ensures Plus64(0x12_3456_7801_7800, 0x7) == 0x12_3456_7801_7807
    ensures Plus64(0x1234_5678_0178_0700, 0x69) == 0x1234_5678_0178_0769
    ensures Plus64(0x3456_7801_7807_6924, 0x6E) == 0x3456_7801_7807_6992
    ensures Plus64(0x5678_0178_0769_9268, 0x74) == 0x5678_0178_0769_92DC
    ensures Plus64(0x7801_7807_6992_DCAC, 0x33) == 0x7801_7807_6992_DCDF
    ensures Plus64(0x178_0769_92DC_DFF0, 0x32) == 0x178_0769_92DC_E022
    ensures Plus64(0x7807_6992_DCE0_2202, 0x5F) == 0x7807_6992_DCE0_2261
    ensures Plus64(0x769_92DC_E022_61F0, 0x74) == 0x769_92DC_E022_6264
    ensures Plus64(0x6992_DCE0_2262_640E, 0x0) == 0x6992_DCE0_2262_640E
  {}

  lemma LowBytes()
    ensures ByteBits(0) == 0 && ByteBits(1) == 1 && ByteBits(7) == 7 && ByteBits(50) == 50 && ByteBits(51) == 51
  {}

  lemma HighBytes()
    ensures ByteBits(95) == 95 && ByteBits(105) == 105 && ByteBits(110) == 110 && ByteBits(116) == 116
      && ByteBits(120) == 120
  {}

  lemma NameText()
    ensures StringText("x") == [1, 120]
  {}

  lemma WordText()
    ensures StringText("int32_t") == [7, 105, 110, 116, 51, 50, 95, 116]
  {}

  lemma KnownText()
    ensures MembersText([Member("x", Scalar(Int32), [])]) == [1, 120, 7, 105, 110, 116, 51, 50, 95, 116, 0]
  {
    hide StringText;
    NameText();
    WordText();
  }

  lemma KnownTrace(vs: seq<bv64>, text: seq<int>)
    requires text == [1, 120, 7, 105, 110, 116, 51, 50, 95, 116, 0]
    requires vs == [
      0x1234_5678, 0x12_3456_7801, 0x1234_5678_0178, 0x12_3456_7801_7807, 0x1234_5678_0178_0769,
      0x3456_7801_7807_6992, 0x5678_0178_0769_92DC, 0x7801_7807_6992_DCDF, 0x178_0769_92DC_E022,
      0x7807_6992_DCE0_2261, 0x769_92DC_E022_6264, 0x6992_DCE0_2262_640E]
    ensures Trace(vs, text)
  {
    hide Mixed; hide Plus64; hide ByteBits; hide Minus64;
    MixedValues();
    PlusValues();
    LowBytes();
    HighBytes();
  }

  /** struct { int32_t x; } in numbers */
  lemma KnownHash()
    ensures BaseHash([Member("x", Scalar(Int32), [])]) == 0x6992_DCE0_2262_640E
  {
    hide BaseHash; hide MembersText; hide HashAll; hide Trace; hide HashUpdate;
    var ms := [Member("x", Scalar(Int32), [])];
    var text := [1, 120, 7, 105, 110, 116, 51, 50, 95, 116, 0];
    var vs := [
      0x1234_5678, 0x12_3456_7801, 0x1234_5678_0178, 0x12_3456_7801_7807, 0x1234_5678_0178_0769,
      0x3456_7801_7807_6992, 0x5678_0178_0769_92DC, 0x7801_7807_6992_DCDF, 0x178_0769_92DC_E022,
      0x7807_6992_DCE0_2261, 0x769_92DC_E022_6264, 0x6992_DCE0_2262_640E];
    KnownText();
    BaseHashOfText(ms);
    KnownTrace(vs, text);
    TraceEnd(vs, text);
  }

  // ----- the hash as a number -----

  lemma SameLowBits(v: bv64, w: bv64)
    requires LowByte(v) == LowByte(w)
    ensures (v & 1 == 0 <==> w & 1 == 0) && (v & 2 == 0 <==> w & 2 == 0)
    ensures (v & 4 == 0 <==> w & 4 == 0) && (v & 8 == 0 <==> w & 8 == 0)
    ensures (v & 0x10 == 0 <==> w & 0x10 == 0) && (v & 0x20 == 0 <==> w & 0x20 == 0)
    ensures (v & 0x40 == 0 <==> w & 0x40 == 0) && (v & 0x80 == 0 <==> w & 0x80 == 0)
  {}

  lemma JoinBits(v: bv64, w: bv64)
    requires (v & 1 == 0 <==> w & 1 == 0) && (v & 2 == 0 <==> w & 2 == 0)
    requires (v & 4 == 0 <==> w & 4 == 0) && (v & 8 == 0 <==> w & 8 == 0)
    requires (v & 0x10 == 0 <==> w & 0x10 == 0) && (v & 0x20 == 0 <==> w & 0x20 == 0)
    requires (v & 0x40 == 0 <==> w & 0x40 == 0) && (v & 0x80 == 0 <==> w & 0x80 == 0)
    requires v >> 8 == w >> 8
    ensures v == w
  {
    assert v & 0xFF == w & 0xFF;
    assert v == ((v >> 8) << 8) | (v & 0xFF);
    assert w == ((w >> 8) << 8) | (w & 0xFF);
  }

  /** v >> 8 * n */
  function Down(v: bv64, n: nat): bv64 { if n == 0 then v else Down(v >> 8, n - 1) }

  lemma {:induction false} NumberKeepsLow(v: bv64, w: bv64, n: nat)
    requires NumberOf(v, n) == NumberOf(w, n) && Down(v, n) == Down(w, n)
    ensures v == w
    decreases n
  {
    hide LowByte;
    if n > 0 {
      NumberKeepsLow(v >> 8, w >> 8, n - 1);
      SameLowBits(v, w);
      JoinBits(v, w);
    }
  }

  lemma DownFour(v: bv64)
    ensures Down(v, 4) == v >> 8 >> 8 >> 8 >> 8
    ensures Down(v, 8) == Down(v >> 8 >> 8 >> 8 >> 8, 4)
  {
    assert Down(v >> 8, 3) == Down(v >> 8 >> 8, 2) && Down(v >> 8, 7) == Down(v >> 8 >> 8, 6);
    assert Down(v >> 8 >> 8, 2) == Down(v >> 8 >> 8 >> 8, 1) && Down(v >> 8 >> 8, 6) == Down(v >> 8 >> 8 >> 8, 5);
    assert Down(v >> 8 >> 8 >> 8 >> 8, 0) == v >> 8 >> 8 >> 8 >> 8;
  }

  lemma DownAll(v: bv64)
    ensures Down(v, 8) == 0
  {
    var v4 := v >> 8 >> 8 >> 8 >> 8;
    DownFour(v);
    DownFour(v4);
    assert v4 >> 8 >> 8 >> 8 >> 8 == 0;
  }

  /** Base hashes that differ differ as numbers. */
  lemma BaseIntKeeps(ms: seq<Member>, ms': seq<Member>)
    ensures BaseInt(ms) == BaseInt(ms') <==> BaseHash(ms) == BaseHash(ms')
  {
    hide NumberOf; hide Down; hide BaseHash;
    if BaseInt(ms) == BaseInt(ms') {
      DownAll(BaseHash(ms));
      DownAll(BaseHash(ms'));
      NumberKeepsLow(BaseHash(ms), BaseHash(ms'), 8);
    }
  }

  lemma KnownNumber()
    ensures NumberOf(0x6992_DCE0_2262_640E, 8) == 0x6992_DCE0_2262_640E
  {
    assert NumberOf(0x6992, 2) == 0x6992 by { assert NumberOf(0x69, 1) == 0x69; }
    assert NumberOf(0x6992_DCE0, 4) == 0x6992_DCE0 by { assert NumberOf(0x6992_DC, 3) == 0x6992_DC; }
    assert NumberOf(0x6992_DCE0_2262, 6) == 0x6992_DCE0_2262 by {
      assert NumberOf(0x6992_DCE0_22, 5) == 0x6992_DCE0_22;
    }
    assert NumberOf(0x6992_DCE0_2262_64, 7) == 0x6992_DCE0_2262_64;
  }

  // ----- fingerprints -----

  lemma PyRotateIs(x: nat)
    requires x < TWO64
    ensures PyRotate(x) == if x < TWO63 then 2 * x else 2 * (x - TWO63) + 1
  {}

  lemma PyRotateKeeps(x: nat, y: nat)
    requires x < TWO64 && y < TWO64 && PyRotate(x) == PyRotate(y)
    ensures x == y
  {
    hide PyRotate;
    PyRotateIs(x);
    PyRotateIs(y);
  }

  /** The rotation loses nothing. */
  lemma RotateKeeps(x: int, y: int)
    ensures Rotate(Wrap(x)) == Rotate(Wrap(y)) <==> Residue(x) == Residue(y)
  {
    if Rotate(Wrap(x)) == Rotate(Wrap(y)) {
      ModAgain(x);
      ModAgain(y);
      RotationsAgree(x, Residue(x));
      RotationsAgree(y, Residue(y));
      PyRotateKeeps(Residue(x), Residue(y));
    }
  }

  lemma NumberBound(v: bv64)
    ensures NumberOf(v, 8) < TWO64
  {
    hide LowByte;
    var v1, v2 := v >> 8, v >> 8 >> 8;
    assert NumberOf(v2 >> 8 >> 8 >> 8 >> 8 >> 8, 1) < 0x100;
    assert NumberOf(v2 >> 8 >> 8 >> 8 >> 8, 2) < 0x1_0000;
    assert NumberOf(v2 >> 8 >> 8 >> 8, 3) < 0x100_0000;
    assert NumberOf(v2 >> 8 >> 8, 4) < 0x1_0000_0000;
    assert NumberOf(v2 >> 8, 5) < 0x100_0000_0000;
    assert NumberOf(v2, 6) < 0x1_0000_0000_0000;
    assert NumberOf(v1, 7) < 0x100_0000_0000_0000;
  }

  lemma ResidueShift(a: int, b: int, x: int, y: int)
    requires 0 <= a < TWO64 && 0 <= b < TWO64 && Residue(x) == Residue(y)
    ensures Residue(a + x) == Residue(b + y) <==> a == b
  {
    SumsAgree(a, x, a, y);
    if Residue(a + x) == Residue(b + y) {
      SumsAgree(a + x, -x, b + y, -x);
      SumsAgree(b, y - x, b, 0);
    }
  }

  lemma BaseBound(ms: seq<Member>)
    ensures 0 <= BaseInt(ms) < TWO64
  {
    hide NumberOf; hide BaseHash;
    NumberBound(BaseHash(ms));
  }

  lemma IsHash(s: Schema, name: string)
    requires Closed(s) && name in s.structs
    ensures FingerprintOf(s, name) == CHash(s, name, Null) && name !in Chain(Null)
  {
    hide CHash;
  }

  /** Two types whose members of struct type hash alike have the same fingerprint
      exactly if they have the same base hash. */
  lemma TellsApart(s: Schema, name: string, s': Schema, name': string)
    requires Closed(s) && name in s.structs && Closed(s') && name' in s'.structs
    requires Residue(SumOfMembers(s, name, 0, Ptr(Null, name))) == Residue(SumOfMembers(s', name', 0, Ptr(Null, name')))
    ensures FingerprintOf(s, name) == FingerprintOf(s', name') <==>
      BaseHash(s.structs[name]) == BaseHash(s'.structs[name'])
  {
    hide *;
    IsHash(s, name);
    IsHash(s', name');
    CUnfolds(s, name, Null);
    CUnfolds(s', name', Null);
    var ms, ms' := s.structs[name], s'.structs[name'];
    var sum, sum' := SumOfMembers(s, name, 0, Ptr(Null, name)), SumOfMembers(s', name', 0, Ptr(Null, name'));
    RotateKeeps(BaseInt(ms) + sum, BaseInt(ms') + sum');
    BaseBound(ms);
    BaseBound(ms');
    ResidueShift(BaseInt(ms), BaseInt(ms'), sum, sum');
    BaseIntKeeps(ms, ms');
  }

  /** No member is a struct. */
  predicate Flat(ms: seq<Member>) { forall i :: 0 <= i < |ms| ==> !ms[i].ty.Struct? }

  lemma {:induction false} FlatSum(s: Schema, name: string, i: nat, p: HashPtr)
    requires Closed(s) && name in s.structs && i <= |s.structs[name]| && Flat(s.structs[name])
    ensures SumOfMembers(s, name, i, p) == 0
    decreases |s.structs[name]| - i
  {
    if i < |s.structs[name]| { FlatSum(s, name, i + 1, p); }
  }

  /** A message is refused by a receiver whose declaration differs in one character of a
      member's name, type or size, sender's and receiver's members being no structs. */
  lemma ChangedDeclarationIsRefused(s: Schema, name: string, s': Schema, name': string, k: nat, v: Value,
      tail: seq<byte>)
    requires WellFormed(s) && name in s.structs && WellFormed(s') && name' in s'.structs
    requires var ms, ms' := s.structs[name], s'.structs[name']; var a, b := MembersText(ms), MembersText(ms');
      Flat(ms) && Flat(ms') && DifferAt(a, b, k) && a[k] % 256 != b[k] % 256
    ensures DecodeMessageBytes(s', name', Message(s, name, v) + tail) == None
  {
    hide DecodeMessageBytes; hide Message; hide BaseHash; hide SumOfMembers; hide MembersText; hide CHash;
    WellFormedIsClosed(s);
    WellFormedIsClosed(s');
    FlatSum(s, name, 0, Ptr(Null, name));
    FlatSum(s', name', 0, Ptr(Null, name'));
    ChangedCharacter(s.structs[name], s'.structs[name'], k);
    TellsApart(s, name, s', name');
    OtherTypeIsRefused(s, name, s', name', v, tail);
  }

  // ----- member types -----

  /** What a member's type adds. */
  function TypeHash(s: Schema, t: Type, p: HashPtr): int
    requires Closed(s) && TypeOk(s, t)
  {
    if t.Struct? then CHash(s, t.name, p) else 0
  }

  /** Of the members' types only the k-th pair hashes differently. */
  ghost predicate OnlyOneDiffers(s: Schema, ms: seq<Member>, p: HashPtr, s': Schema, ms': seq<Member>, p': HashPtr,
      k: nat)
    requires Closed(s) && Closed(s')
  {
    && k < |ms| == |ms'| && (forall j :: 0 <= j < |ms| ==> TypeOk(s, ms[j].ty) && TypeOk(s', ms'[j].ty))
    && forall j :: 0 <= j < |ms| ==>
      (Residue(TypeHash(s, ms[j].ty, p)) == Residue(TypeHash(s', ms'[j].ty, p')) <==> j != k)
  }

  lemma SumCancels(a: int, b: int, x: int, y: int)
    requires Residue(a) == Residue(b)
    ensures Residue(a + x) == Residue(b + y) <==> Residue(x) == Residue(y)
    ensures Residue(x + a) == Residue(y + b) <==> Residue(x) == Residue(y)
  {
    if Residue(x) == Residue(y) { SumsAgree(a, x, b, y); }
    if Residue(a + x) == Residue(b + y) { SumsAgree(a + x, -a, b + y, -a); SumsAgree(y, b - a, y, 0); }
  }

  lemma {:induction false} SumsDiffer(s: Schema, name: string, p: HashPtr, s': Schema, name': string, p': HashPtr,
                                      i: nat, k: nat)
    requires Closed(s) && name in s.structs && Closed(s') && name' in s'.structs
    requires i <= |s.structs[name]| && OnlyOneDiffers(s, s.structs[name], p, s', s'.structs[name'], p', k)
    ensures Residue(SumOfMembers(s, name, i, p)) == Residue(SumOfMembers(s', name', i, p')) <==> k < i
    decreases |s.structs[name]| - i
  {
    hide Residue; hide CHash;
    var ms, ms' := s.structs[name], s'.structs[name'];
    SumUnfolds(s, name, i, p);
    SumUnfolds(s', name', i, p');
    if i < |ms| {
      SumsDiffer(s, name, p, s', name', p', i + 1, k);
      var a, b := TypeHash(s, ms[i].ty, p), TypeHash(s', ms'[i].ty, p');
      var x, y := SumOfMembers(s, name, i + 1, p), SumOfMembers(s', name', i + 1, p');
      if i == k { SumCancels(x, y, a, b); } else { SumCancels(a, b, x, y); }
    }
  }

  /** If the text of two structs agrees and the type of just one member hashes differently,
      so do the structs. */
  lemma MemberTypeCounts(s: Schema, name: string, s': Schema, name': string, k: nat)
    requires Closed(s) && name in s.structs && Closed(s') && name' in s'.structs
    requires MembersText(s.structs[name]) == MembersText(s'.structs[name'])
    requires OnlyOneDiffers(s, s.structs[name], Ptr(Null, name), s', s'.structs[name'], Ptr(Null, name'), k)
    ensures FingerprintOf(s, name) != FingerprintOf(s', name')
  {
    hide *;
    var ms, ms' := s.structs[name], s'.structs[name'];
    var p, p' := Ptr(Null, name), Ptr(Null, name');
    SumsDiffer(s, name, p, s', name', p', 0, k);
    BaseHashOfText(ms);
    BaseHashOfText(ms');
    BaseIntKeeps(ms, ms');
    IsHash(s, name);
    IsHash(s', name');
    CUnfolds(s, name, Null);
    CUnfolds(s', name', Null);
    var sum, sum' := SumOfMembers(s, name, 0, p), SumOfMembers(s', name', 0, p');
    RotateKeeps(BaseInt(ms) + sum, BaseInt(ms') + sum');
    SumCancels(BaseInt(ms), BaseInt(ms'), sum, sum');
  }
}
