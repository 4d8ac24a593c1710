/** The primitive array encoders and decoders of upstream/lcm/lcm_coretypes.h, which
    write into and read from the message buffer in place. */
module CoreTypes {
  import opened Buffers
  import opened Bytes
  import opened Schema
  import opened Codec
  import opened Wrappers

  /** The outcome of encoding into maxlen bytes at offset: the length, or -1 if that
      is more than maxlen. A failed call may leave part of the encoding behind, but
      never outside the bytes it was given. */
  ghost predicate Wrote(was: seq<byte>, now: seq<byte>, offset: nat, maxlen: nat, code: seq<byte>, r: int) {
    && |now| == |was| && offset + maxlen <= |was|
    && r == (if maxlen < |code| then -1 else |code|)
    && (r >= 0 ==> now == Splice(was, offset, code))
    && now[..offset] == was[..offset] && now[offset + maxlen..] == was[offset + maxlen..]
  }

  lemma WroteWhole(was: seq<byte>, offset: nat, maxlen: nat, code: seq<byte>)
    requires offset + maxlen <= |was| && |code| <= maxlen
    ensures Wrote(was, Splice(was, offset, code), offset, maxlen, code, |code|)
  {}

  lemma WroteNothing(was: seq<byte>, offset: nat, maxlen: nat)
    requires offset + maxlen <= |was|
    ensures Wrote(was, was, offset, maxlen, [], 0)
  {
    SpliceNothing(was, offset);
  }

  /** One encoding behind the other. */
  lemma WroteThen(was: seq<byte>, mid: seq<byte>, now: seq<byte>, offset: nat, maxlen: nat, a: seq<byte>, ra: nat,
      b: seq<byte>, rb: int)
    requires Wrote(was, mid, offset, maxlen, a, ra) && Wrote(mid, now, offset + ra, maxlen - ra, b, rb)
    ensures Wrote(was, now, offset, maxlen, a + b, if rb < 0 then rb else ra + rb)
  {
    if rb >= 0 { SpliceTwice(was, offset, a, b); }
    var hi := offset + maxlen;
    assert now[..offset] == now[..offset + ra][..offset] == mid[..offset];
    assert mid[hi..] == was[hi..];
  }

  lemma WroteNot(was: seq<byte>, now: seq<byte>, offset: nat, maxlen: nat, a: seq<byte>, b: seq<byte>)
    requires Wrote(was, now, offset, maxlen, a, -1)
    ensures Wrote(was, now, offset, maxlen, a + b, -1)
  {}

  /** One turn of an encoding loop: `part` behind `done`, with `rest` to come. */
  lemma WroteStep(was: seq<byte>, mid: seq<byte>, now: seq<byte>, offset: nat, maxlen: nat, done: seq<byte>,
      pos: nat, part: seq<byte>, r: int, rest: seq<byte>)
    requires pos <= maxlen && Wrote(was, mid, offset, maxlen, done, pos)
      && Wrote(mid, now, offset + pos, maxlen - pos, part, r)
    ensures r < 0 ==> Wrote(was, now, offset, maxlen, done + part + rest, r)
    ensures r >= 0 ==> Wrote(was, now, offset, maxlen, done + part, pos + r) && pos + r <= maxlen
  {
    WroteThen(was, mid, now, offset, maxlen, done, pos, part, r);
    if r < 0 { WroteNot(was, now, offset, maxlen, done + part, rest); }
  }

  /** Numbers of w bytes one after the other. */
  function EncodeInts(p: seq<int>, w: nat): (r: seq<byte>)
    ensures |r| == w * |p|
  {
    if p == [] then [] else EncodeInt(p[0], w) + EncodeInts(p[1..], w)
  }

  /** A string: its length with NUL, then the bytes. */
  function TextCode(s: seq<byte>): seq<byte> { EncodeInt(|s| + 1, 4) + s + [0] }

  function Texts(p: seq<seq<byte>>): seq<byte> {
    if p == [] then [] else TextCode(p[0]) + Texts(p[1..])
  }

  lemma {:induction false} IntsGrow(p: seq<int>, w: nat, i: nat)
    requires i < |p|
    ensures EncodeInts(p[..i + 1], w) == EncodeInts(p[..i], w) + EncodeInt(p[i], w)
  {
    if i == 0 {
      assert p[..1][1..] == [];
    } else {
      IntsGrow(p[1..], w, i - 1);
      assert p[..i + 1][1..] == p[1..][..i] && p[..i][1..] == p[1..][..i - 1];
    }
  }

  lemma {:induction false} TextsAppend(a: seq<seq<byte>>, b: seq<seq<byte>>)
    ensures Texts(a + b) == Texts(a) + Texts(b)
  {
    hide TextCode;
    if a == [] {
      assert a + b == b;
    } else {
      TextsAppend(a[1..], b);
      assert (a + b)[1..] == a[1..] + b && (a + b)[0] == a[0];
      Regroup(TextCode(a[0]), Texts(a[1..]), Texts(b));
    }
  }

  lemma NoTexts(p: seq<seq<byte>>)
    requires p == []
    ensures Texts(p) == []
  {}

  lemma OneText(s: seq<byte>)
    ensures Texts([s]) == TextCode(s)
  {
    hide TextCode;
    var p: seq<seq<byte>>, none: seq<seq<byte>> := [s], [];
    assert p[1..] == none && Texts(none) == [];
  }

  /** Strings i and from i + 1 on. */
  lemma TextsAt(p: seq<seq<byte>>, i: nat)
    requires i < |p|
    ensures Texts(p[..i + 1]) == Texts(p[..i]) + TextCode(p[i])
    ensures Texts(p) == Texts(p[..i]) + TextCode(p[i]) + Texts(p[i + 1..])
  {
    hide *;
    SplitAt(p, i);
    OneText(p[i]);
    TextsAppend(p[..i], [p[i]]);
    TextsAppend(p[..i + 1], p[i + 1..]);
  }

  /** buf[pos++] = b */
  method PutByte(buf: array<byte>, offset: nat, b: byte, ghost was: seq<byte>, ghost done: seq<byte>, pos: nat)
    requires |was| == buf.Length && offset + |done| < buf.Length && pos == offset + |done|
    requires buf[..] == Splice(was, offset, done)
    modifies buf
    ensures buf[..] == Splice(was, offset, done + [b])
  {
    buf[pos] := b;
    SpliceByte(was, offset, done, b);
  }

  lemma TwoBytes(v: int)
    ensures EncodeInt(v, 2) == [v / 0x100 % 256, v % 256]
  {
    assert EncodeInt(v / 0x100, 1) == [v / 0x100 % 256];
  }

  /** __byte_encode_array and __int8_t_encode_array: memcpy */
  method Int8EncodeArray(buf: array<byte>, offset: nat, maxlen: nat, p: seq<int>) returns (r: int)
    requires offset + maxlen <= buf.Length
    modifies buf
    ensures Wrote(old(buf[..]), buf[..], offset, maxlen, EncodeInts(p, 1), r)
  {
    if maxlen < |p| { return -1; }
    ghost var was := buf[..];
    SpliceNothing(was, offset);
    var element := 0;
    while element < |p|
      invariant 0 <= element <= |p|
      invariant buf[..] == Splice(was, offset, EncodeInts(p[..element], 1))
    {
      ghost var done := EncodeInts(p[..element], 1);
      IntsGrow(p, 1, element);
      PutByte(buf, offset, p[element] % 256, was, done, offset + element);
      assert EncodeInt(p[element] / 256, 0) == [];
      assert EncodeInt(p[element], 1) == [p[element] % 256];
      element := element + 1;
    }
    assert p[..element] == p;
    WroteWhole(was, offset, maxlen, EncodeInts(p, 1));
    return |p|;
  }

  method Int16EncodeArray(buf: array<byte>, offset: nat, maxlen: nat, p: seq<int>) returns (r: int)
    requires offset + maxlen <= buf.Length
    modifies buf
    ensures Wrote(old(buf[..]), buf[..], offset, maxlen, EncodeInts(p, 2), r)
  {
    if maxlen < 2 * |p| { return -1; }
    ghost var was := buf[..];
    SpliceNothing(was, offset);
    var pos, element := offset, 0;
    while element < |p|
      invariant 0 <= element <= |p| && pos == offset + 2 * element
      invariant buf[..] == Splice(was, offset, EncodeInts(p[..element], 2))
    {
      var v := p[element];
      ghost var done := EncodeInts(p[..element], 2);
      IntsGrow(p, 2, element);
      PutByte(buf, offset, v / 0x100 % 256, was, done, pos);
      PutByte(buf, offset, v % 256, was, done + [v / 0x100 % 256], pos + 1);
      TwoBytes(v);
      assert done + EncodeInt(v, 2) == done + [v / 0x100 % 256] + [v % 256];
      pos, element := pos + 2, element + 1;
    }
    assert p[..element] == p;
    WroteWhole(was, offset, maxlen, EncodeInts(p, 2));
    return 2 * |p|;
  }

  /** Four bytes of v, most significant first. */
  method PutFour(buf: array<byte>, offset: nat, v: int, ghost was: seq<byte>, ghost done: seq<byte>, pos: nat)
    requires |was| == buf.Length && offset + |done| + 4 <= buf.Length && pos == offset + |done|
    requires buf[..] == Splice(was, offset, done)
    modifies buf
    ensures buf[..] == Splice(was, offset, done + EncodeInt(v, 4))
  {
    hide EncodeInt; hide Splice;
    PutByte(buf, offset, v / 0x100_0000 % 256, was, done, pos);
    ghost var d1 := done + [v / 0x100_0000 % 256];
    PutByte(buf, offset, v / 0x1_0000 % 256, was, d1, pos + 1);
    ghost var d2 := d1 + [v / 0x1_0000 % 256];
    PutByte(buf, offset, v / 0x100 % 256, was, d2, pos + 2);
    ghost var d3 := d2 + [v / 0x100 % 256];
    PutByte(buf, offset, v % 256, was, d3, pos + 3);
    FourBytes(v);
    assert done + EncodeInt(v, 4) == d3 + [v % 256];
  }

  method Int32EncodeArray(buf: array<byte>, offset: nat, maxlen: nat, p: seq<int>) returns (r: int)
    requires offset + maxlen <= buf.Length
    modifies buf
    ensures Wrote(old(buf[..]), buf[..], offset, maxlen, EncodeInts(p, 4), r)
  {
    if maxlen < 4 * |p| { return -1; }
    ghost var was := buf[..];
    SpliceNothing(was, offset);
    var pos, element := offset, 0;
    while element < |p|
      invariant 0 <= element <= |p| && pos == offset + 4 * element
      invariant buf[..] == Splice(was, offset, EncodeInts(p[..element], 4))
    {
      ghost var done := EncodeInts(p[..element], 4);
      IntsGrow(p, 4, element);
      PutFour(buf, offset, p[element], was, done, pos);
      pos, element := pos + 4, element + 1;
    }
    assert p[..element] == p;
    WroteWhole(was, offset, maxlen, EncodeInts(p, 4));
    return 4 * |p|;
  }

  /** The high word's bytes and then the low word's. */
  lemma EightInTwo(v: int)
    ensures EncodeInt(v, 8) == EncodeInt(v / 0x1_0000_0000, 4) + EncodeInt(v, 4)
  {
    EncodeIntSplit(v, 4, 4);
    assert Shift(v, 4) == v / 256 / 256 / 256 / 256 == v / 0x1_0000_0000;
  }

  method Int64EncodeArray(buf: array<byte>, offset: nat, maxlen: nat, p: seq<int>) returns (r: int)
    requires offset + maxlen <= buf.Length
    modifies buf
    ensures Wrote(old(buf[..]), buf[..], offset, maxlen, EncodeInts(p, 8), r)
  {
    if maxlen < 8 * |p| { return -1; }
    ghost var was := buf[..];
    SpliceNothing(was, offset);
    var pos, element := offset, 0;
    while element < |p|
      invariant 0 <= element <= |p| && pos == offset + 8 * element
      invariant buf[..] == Splice(was, offset, EncodeInts(p[..element], 8))
    {
      var v := p[element];
      ghost var done := EncodeInts(p[..element], 8);
      IntsGrow(p, 8, element);
      PutFour(buf, offset, v / 0x1_0000_0000, was, done, pos);
      PutFour(buf, offset, v, was, done + EncodeInt(v / 0x1_0000_0000, 4), pos + 4);
      EightInTwo(v);
      Regroup(done, EncodeInt(v / 0x1_0000_0000, 4), EncodeInt(v, 4));
      pos, element := pos + 8, element + 1;
    }
    assert p[..element] == p;
    WroteWhole(was, offset, maxlen, EncodeInts(p, 8));
    return 8 * |p|;
  }

  lemma WroteLength(was: seq<byte>, now: seq<byte>, offset: nat, maxlen: nat, code: seq<byte>, r: int)
    requires Wrote(was, now, offset, maxlen, code, r)
    ensures -1 <= r <= maxlen
  {}

  lemma OneInt(v: int, w: nat)
    ensures EncodeInts([v], w) == EncodeInt(v, w)
  {
    hide EncodeInt;
    assert [v][1..] == [] && EncodeInts([], w) == [];
  }

  lemma {:induction false} BytesThemselves(s: seq<byte>)
    ensures EncodeInts(s, 1) == s
  {
    if s != [] {
      BytesThemselves(s[1..]);
      assert EncodeInt(s[0] / 256, 0) == [] && EncodeInt(s[0], 1) == [s[0]];
    }
  }

  lemma TextParts(s: seq<byte>)
    ensures TextCode(s) == EncodeInts([|s| + 1], 4) + EncodeInts(s + [0], 1)
  {
    OneInt(|s| + 1, 4);
    BytesThemselves(s + [0]);
    Regroup(EncodeInt(|s| + 1, 4), s, [0]);
    hide EncodeInt; hide EncodeInts;
  }

  /** One turn of the loop. */
  method StringEncode(buf: array<byte>, offset: nat, maxlen: nat, s: seq<byte>) returns (r: int)
    requires offset + maxlen <= buf.Length
    modifies buf
    ensures Wrote(old(buf[..]), buf[..], offset, maxlen, TextCode(s), r)
    ensures r <= maxlen
  {
    ghost var was := buf[..];
    TextParts(s);
    var length := |s| + 1;
    hide EncodeInts; hide TextCode;
    var thislen := Int32EncodeArray(buf, offset, maxlen, [length]);
    ghost var a, b := EncodeInts([length], 4), EncodeInts(s + [0], 1);
    WroteLength(was, buf[..], offset, maxlen, a, thislen);
    if thislen < 0 {
      WroteNot(was, buf[..], offset, maxlen, a, b);
      return thislen;
    }
    ghost var mid := buf[..];
    hide Wrote;
    var thislen' := Int8EncodeArray(buf, offset + thislen, maxlen - thislen, s + [0]);
    WroteThen(was, mid, buf[..], offset, maxlen, a, thislen, b, thislen');
    WroteLength(was, buf[..], offset, maxlen, a + b, if thislen' < 0 then thislen' else thislen + thislen');
    if thislen' < 0 { return thislen'; }
    return thislen + thislen';
  }

  /** __string_encode_array: length with NUL, then the bytes. */
  method StringEncodeArray(buf: array<byte>, offset: nat, maxlen: nat, p: seq<seq<byte>>) returns (r: int)
    requires offset + maxlen <= buf.Length
    modifies buf
    ensures Wrote(old(buf[..]), buf[..], offset, maxlen, Texts(p), r)
  {
    hide Wrote; hide Texts; hide TextCode;
    ghost var was := buf[..];
    WroteNothing(was, offset, maxlen);
    NoTexts(p[..0]);
    var pos, element := 0, 0;
    while element < |p|
      invariant 0 <= element <= |p| && 0 <= pos <= maxlen
      invariant Wrote(was, buf[..], offset, maxlen, Texts(p[..element]), pos)
    {
      TextsAt(p, element);
      ghost var mid := buf[..];
      var thislen := StringEncode(buf, offset + pos, maxlen - pos, p[element]);
      WroteStep(was, mid, buf[..], offset, maxlen, Texts(p[..element]), pos, TextCode(p[element]), thislen,
        Texts(p[element + 1..]));
      if thislen < 0 { return thislen; }
      pos, element := pos + thislen, element + 1;
    }
    assert p[..element] == p;
    return pos;
  }

  // ----- decoding -----

  function IntAt(p: Prim, b: seq<byte>): int { if p == ByteT then FromBigEndian(b) else DecodeInt(b) }

  function IntFrom(p: Prim, b: seq<byte>, at: nat): int {
    if at + Width(p) <= |b| then IntAt(p, b[at..at + Width(p)]) else 0
  }

  /** The numbers stored from offset on. */
  ghost predicate ReadInts(p: Prim, b: seq<byte>, offset: nat, n: nat, r: seq<int>) {
    && |r| == n && offset + Width(p) * n <= |b|
    && forall k {:trigger r[k]} :: 0 <= k < n ==> IntFrom(p, b, offset + Width(p) * k) == r[k]
  }

  function ToSigned(u: nat, m: nat): int { if u < m / 2 then u else u - m }

  lemma TwoDigits(b0: byte, b1: byte)
    ensures DecodeInt([b0, b1]) == ToSigned(b0 * 256 + b1 as int, 0x1_0000)
  {
    assert [b0, b1][..1] == [b0] && [b0][..0] == [];
    assert FromBigEndian([b0]) == b0;
    Pow256Values();
  }

  lemma NoInts(p: Prim, b: seq<byte>, offset: nat)
    requires offset <= |b|
    ensures ReadInts(p, b, offset, 0, [])
  {}

  lemma OneMoreInt(p: Prim, b: seq<byte>, offset: nat, n: nat, r: seq<int>, v: int)
    requires ReadInts(p, b, offset, n, r)
    requires offset + Width(p) * n + Width(p) <= |b| && IntFrom(p, b, offset + Width(p) * n) == v
    ensures ReadInts(p, b, offset, n + 1, r + [v])
  {
    hide IntFrom;
  }

  lemma OneDigit(b: byte)
    ensures FromBigEndian([b]) == b && DecodeInt([b]) == ToSigned(b, 256)
  {
    assert [b][..0] == [];
    Pow256Values();
  }

  lemma ByteFrom(p: Prim, b: seq<byte>, at: nat)
    requires Width(p) == 1 && at < |b|
    ensures IntFrom(p, b, at) == if p == ByteT then b[at] as int else ToSigned(b[at], 256)
  {
    OneDigit(b[at]);
    assert b[at..at + 1] == [b[at]];
  }

  /** memcpy; the same bytes read as signed or unsigned. */
  method Int8DecodeArray(prim: Prim, buf: array<byte>, offset: nat, maxlen: nat, elements: int)
      returns (r: int, p: seq<int>)
    requires offset + maxlen <= buf.Length && Width(prim) == 1
    ensures r == if maxlen < elements then -1 else elements
    ensures r >= 0 ==> ReadInts(prim, buf[..], offset, elements, p)
  {
    hide ReadInts; hide DecodeInt; hide FromBigEndian; hide ToSigned; hide IntFrom;
    p := [];
    NoInts(prim, buf[..], offset);
    if maxlen < elements { return -1, p; }
    var element := 0;
    while element < elements
      invariant 0 <= element && (elements >= 0 ==> element <= elements)
      invariant elements >= 0 ==> ReadInts(prim, buf[..], offset, element, p)
    {
      var b := buf[offset + element];
      var v := if prim == ByteT then b else ToSigned(b, 256);
      ByteFrom(prim, buf[..], offset + element);
      OneMoreInt(prim, buf[..], offset, element, p, v);
      p := p + [v];
      element := element + 1;
    }
    return elements, p;
  }

  method Int16DecodeArray(buf: array<byte>, offset: nat, maxlen: nat, elements: int) returns (r: int, p: seq<int>)
    requires offset + maxlen <= buf.Length
    ensures r == if maxlen < 2 * elements then -1 else 2 * elements
    ensures r >= 0 ==> ReadInts(Int16, buf[..], offset, elements, p)
  {
    p := [];
    if maxlen < 2 * elements { return -1, p; }
    var pos, element := offset, 0;
    while element < elements
      invariant 0 <= element && (elements >= 0 ==> element <= elements) && |p| == element && pos == offset + 2 * element
      invariant elements >= 0 ==> ReadInts(Int16, buf[..], offset, element, p)
    {
      TwoDigits(buf[pos], buf[pos + 1]);
      assert buf[..][pos..pos + 2] == [buf[pos], buf[pos + 1]];
      p := p + [ToSigned(buf[pos] * 256 + buf[pos + 1] as int, 0x1_0000)];
      pos, element := pos + 2, element + 1;
    }
    return 2 * elements, p;
  }

  /** (buf[pos]<<24) + (buf[pos+1]<<16) + (buf[pos+2]<<8) + buf[pos+3] as an int */
  method GetFour(buf: array<byte>, pos: nat) returns (v: int)
    requires pos + 4 <= buf.Length
    ensures v == DecodeInt(buf[pos..pos + 4])
    ensures FromBigEndian(buf[pos..pos + 4]) == v % 0x1_0000_0000
  {
    FourDigits(buf[pos], buf[pos + 1], buf[pos + 2], buf[pos + 3]);
    ghost var w := buf[pos..pos + 4];
    assert w == [buf[pos], buf[pos + 1], buf[pos + 2], buf[pos + 3]];
    FromBigEndianBounded(w);
    Pow256Values();
    v := ToSigned(((buf[pos] * 256 + buf[pos + 1] as int) * 256 + buf[pos + 2]) * 256 + buf[pos + 3], 0x1_0000_0000);
  }

  method Int32DecodeArray(prim: Prim, buf: array<byte>, offset: nat, maxlen: nat, elements: int)
      returns (r: int, p: seq<int>)
    requires offset + maxlen <= buf.Length && Width(prim) == 4
    ensures r == if maxlen < 4 * elements then -1 else 4 * elements
    ensures r >= 0 ==> ReadInts(prim, buf[..], offset, elements, p)
  {
    p := [];
    if maxlen < 4 * elements { return -1, p; }
    var pos, element := offset, 0;
    hide DecodeInt; hide FromBigEndian;
    while element < elements
      invariant 0 <= element && (elements >= 0 ==> element <= elements) && |p| == element && pos == offset + 4 * element
      invariant elements >= 0 ==> ReadInts(prim, buf[..], offset, element, p)
    {
      var v := GetFour(buf, pos);
      assert buf[..][pos..pos + 4] == buf[pos..pos + 4];
      p := p + [v];
      pos, element := pos + 4, element + 1;
    }
    return 4 * elements, p;
  }

  /** (a<<32) + (b&0xffffffff) */
  method GetEight(buf: array<byte>, pos: nat) returns (v: int)
    requires pos + 8 <= buf.Length
    ensures v == DecodeInt(buf[pos..pos + 8])
  {
    var a := GetFour(buf, pos);
    var b := GetFour(buf, pos + 4);
    DecodeLong(buf[pos..pos + 4], buf[pos + 4..pos + 8]);
    hide DecodeInt; hide FromBigEndian;
    assert buf[pos..pos + 8] == buf[pos..pos + 4] + buf[pos + 4..pos + 8];
    v := a * 0x1_0000_0000 + b % 0x1_0000_0000;
  }

  method Int64DecodeArray(prim: Prim, buf: array<byte>, offset: nat, maxlen: nat, elements: int)
      returns (r: int, p: seq<int>)
    requires offset + maxlen <= buf.Length && Width(prim) == 8
    ensures r == if maxlen < 8 * elements then -1 else 8 * elements
    ensures r >= 0 ==> ReadInts(prim, buf[..], offset, elements, p)
  {
    hide DecodeInt; hide FromBigEndian;
    p := [];
    if maxlen < 8 * elements { return -1, p; }
    var pos, element := offset, 0;
    while element < elements
      invariant 0 <= element && (elements >= 0 ==> element <= elements) && |p| == element && pos == offset + 8 * element
      invariant elements >= 0 ==> ReadInts(prim, buf[..], offset, element, p)
    {
      var v := GetEight(buf, pos);
      assert buf[..][pos..pos + 8] == buf[pos..pos + 8];
      p := p + [v];
      pos, element := pos + 8, element + 1;
    }
    return 8 * elements, p;
  }

  /** A decoder over the bytes b came to the result d: r bytes used, or r < 0. */
  predicate Agrees<T(==)>(d: Option<(T, seq<byte>)>, b: seq<byte>, r: int, v: T) {
    if d.Some? then 0 <= r <= |b| && d.value == (v, b[r..]) else r < 0
  }

  method ReadLength(buf: array<byte>, offset: nat, maxlen: nat) returns (r: int, n: int)
    requires offset + maxlen <= buf.Length
    ensures r == if maxlen < 4 then -1 else 4
    ensures r >= 0 ==> n == DecodeInt(buf[offset..offset + 4])
  {
    n := 0;
    var length;
    r, length := Int32DecodeArray(Int32, buf, offset, maxlen, 1);
    if r >= 0 {
      assert length[0] == IntFrom(Int32, buf[..], offset + 4 * 0);
      assert buf[..][offset..offset + 4] == buf[offset..offset + 4];
      n := length[0];
    }
  }

  /** One turn of __string_decode_array. A negative length, or bytes without NUL,
      give no C string; the C code does not check for them. */
  method StringDecode(buf: array<byte>, offset: nat, maxlen: nat) returns (r: int, v: Value)
    requires offset + maxlen <= buf.Length
    ensures Agrees(DecodeStr(buf[offset..offset + maxlen]), buf[offset..offset + maxlen], r, v)
  {
    ghost var b := buf[offset..offset + maxlen];
    v := Text([]);
    var thislen, n := ReadLength(buf, offset, maxlen);
    if thislen < 0 { return thislen, v; }
    assert buf[offset..offset + 4] == b[..4];
    hide DecodeInt; hide CString;
    if n < 0 || maxlen - 4 < n { return -1, v; }
    var s := CString(buf[offset + 4..offset + 4 + n]);
    assert buf[offset + 4..offset + 4 + n] == b[4..4 + n];
    if s == None { return -1, v; }
    return 4 + n, Text(s.value);
  }
}
