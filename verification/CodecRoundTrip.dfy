/** Decoding undoes encoding. */
module CodecRoundTrip {
  import opened Bytes
  import opened Schema
  import opened Codec
  import opened Wrappers

  lemma PrimRoundTrip(p: Prim, v: int, tail: seq<byte>)
    requires InRange(p, v)
    ensures DecodePrim(p, EncodeInt(v, Width(p)) + tail) == Some((Num(v), tail))
  {
    var w := EncodeInt(v, Width(p));
    assert (w + tail)[..Width(p)] == w && (w + tail)[Width(p)..] == tail;
    if p == ByteT { assert Pow256(1) == 256 * Pow256(0); UnsignedValue(v, 1); } else { IntRoundTrip(v, Width(p)); }
  }

  lemma {:induction false} CStringRoundTrip(s: seq<byte>)
    requires 0 !in s
    ensures CString(s + [0]) == Some(s)
  {
    if s == [] {
      assert s + [0] == [0];
    } else {
      assert (s + [0])[1..] == s[1..] + [0];
      CStringRoundTrip(s[1..]);
      assert [s[0]] + s[1..] == s;
    }
  }

  lemma LengthRoundTrip(n: nat)
    requires n < 0x8000_0000
    ensures DecodeInt(EncodeInt(n, 4)) == n
  {
    Pow256Values();
    IntRoundTrip(n, 4);
  }

  lemma Slices(a: seq<byte>, m: seq<byte>, tail: seq<byte>)
    ensures var b := a + m + tail;
      b[..|a|] == a && b[|a|..|a| + |m|] == m && b[|a| + |m|..] == tail
  {}

  lemma DecodeStrOf(n: seq<byte>, m: seq<byte>, tail: seq<byte>, r: seq<byte>)
    requires |n| == 4 && DecodeInt(n) == |m| && CString(m) == Some(r)
    ensures DecodeStr(n + m + tail) == Some((Text(r), tail))
  {
    Slices(n, m, tail);
    hide DecodeInt; hide CString;
  }

  lemma StrRoundTrip(s: seq<byte>, tail: seq<byte>)
    requires 0 !in s && |s| + 1 < 0x8000_0000
    ensures DecodeStr(EncodeInt(|s| + 1, 4) + s + [0] + tail) == Some((Text(s), tail))
  {
    hide *;
    LengthRoundTrip(|s| + 1);
    CStringRoundTrip(s);
    DecodeStrOf(EncodeInt(|s| + 1, 4), s + [0], tail, s);
    assert EncodeInt(|s| + 1, 4) + s + [0] + tail == EncodeInt(|s| + 1, 4) + (s + [0]) + tail;
  }

  lemma {:induction false} RoundTrip(s: Schema, t: Type, v: Value, tail: seq<byte>)
    requires WellFormed(s) && TypeOk(s, t) && IsValue(s, t, v)
    ensures Decode(s, t, Encode(s, t, v) + tail) == Some((v, tail))
    decreases v, 0
  {
    match t
    case Scalar(p) => PrimRoundTrip(p, v.v, tail);
    case Str => StrRoundTrip(v.s, tail);
    case Struct(n) =>
      var b := Encode(s, t, v) + tail;
      assert s.structs[n][0..] == s.structs[n] && v.fields[0..] == v.fields && v.fields[..0] == [];
      FieldsRoundTrip(s, n, v.fields, 0, tail, |b|);
  }

  lemma {:induction false} FieldsRoundTrip(s: Schema, name: string, fields: seq<Value>, i: nat, tail: seq<byte>,
      room: nat)
    requires WellFormed(s) && name in s.structs && IsValue(s, Struct(name), Rec(fields)) && i <= |fields|
    requires RoomLeft(s.structs[name], i, |EncodeFields(s, s.structs[name][i..], fields[i..]) + tail|, room)
    ensures DecodeFields(s, name, fields[..i], EncodeFields(s, s.structs[name][i..], fields[i..]) + tail, room) ==
      Some((fields, tail))
    decreases fields, |fields| - i
  {
    var ms := s.structs[name];
    if i == |ms| {
      assert fields[..i] == fields && EncodeFields(s, ms[i..], fields[i..]) + tail == tail;
    } else {
      var head, rest := EncodeArray(s, ms[i].ty, |ms[i].dims|, fields[i]),
        EncodeFields(s, ms[i + 1..], fields[i + 1..]);
      var b := head + (rest + tail);
      assert EncodeFields(s, ms[i..], fields[i..]) + tail == b;
      FieldRoundTrip(s, name, fields, i, rest + tail, room);
      hide IsValue; hide EncodeArray; hide DecodeMember;
      assert fields[..i] + [fields[i]] == fields[..i + 1];
      FieldsRoundTrip(s, name, fields, i + 1, tail, room);
    }
  }

  /** One member, and the room left for the next ones. */
  lemma {:induction false} FieldRoundTrip(s: Schema, name: string, fields: seq<Value>, i: nat, tail: seq<byte>,
      room: nat)
    requires WellFormed(s) && name in s.structs && IsValue(s, Struct(name), Rec(fields)) && i < |fields|
    requires var m := s.structs[name][i];
      RoomLeft(s.structs[name], i, |EncodeArray(s, m.ty, |m.dims|, fields[i]) + tail|, room)
    ensures var m := s.structs[name][i];
      DecodeMember(s, name, fields[..i], EncodeArray(s, m.ty, |m.dims|, fields[i]) + tail, room) ==
        Some((fields[i], tail))
    decreases fields, 0
  {
    var ms := s.structs[name];
    assert MemberOk(s, name, i);
    SizesOfPrefix(ms, fields, i, ms[i].dims);
    var sizes := Sizes(ms, fields[..i], ms[i].dims);
    var b := EncodeArray(s, ms[i].ty, |ms[i].dims|, fields[i]) + tail;
    assert IsArray(s, ms[i].ty, sizes, fields[i]);
    hide IsArray; hide DecodeArray; hide EncodeArray;
    if Fixed(ms[i]) {
      ArrayRoundTrip(s, ms[i].ty, sizes, fields[i], tail, room, Depth(s, Struct(name)));
    } else {
      VarHasRoom(s, name, i, |b|, room);
      ArrayRoundTrip(s, ms[i].ty, sizes, fields[i], tail, |b|, Depth(s, ms[i].ty) + 1);
    }
  }

  lemma {:induction false} ArrayRoundTrip(s: Schema, t: Type, sizes: seq<int>, v: Value, tail: seq<byte>, room: nat,
      deep: nat)
    requires WellFormed(s) && TypeOk(s, t) && IsArray(s, t, sizes, v)
    requires |EncodeArray(s, t, |sizes|, v) + tail| <= room && (t.Struct? ==> Depth(s, t) < deep)
    ensures DecodeArray(s, t, sizes, EncodeArray(s, t, |sizes|, v) + tail, room, deep) == Some((v, tail))
    decreases v, 1
  {
    if sizes == [] {
      RoundTrip(s, t, v, tail);
    } else {
      ElemsRoundTrip(s, t, sizes[1..], v.elems, tail, room, deep);
    }
  }

  lemma {:induction false} ElemsRoundTrip(s: Schema, t: Type, sizes: seq<int>, vs: seq<Value>, tail: seq<byte>,
      room: nat, deep: nat)
    requires WellFormed(s) && TypeOk(s, t) && forall k :: 0 <= k < |vs| ==> IsArray(s, t, sizes, vs[k])
    requires |EncodeElems(s, t, |sizes|, vs) + tail| <= room && (t.Struct? ==> Depth(s, t) < deep)
    ensures DecodeElems(s, t, sizes, |vs|, EncodeElems(s, t, |sizes|, vs) + tail, room, deep) == Some((vs, tail))
    decreases vs, 2
  {
    if vs == [] {
      assert EncodeElems(s, t, |sizes|, vs) + tail == tail;
    } else {
      var head, rest := EncodeArray(s, t, |sizes|, vs[0]), EncodeElems(s, t, |sizes|, vs[1..]);
      assert EncodeElems(s, t, |sizes|, vs) + tail == head + (rest + tail);
      ArrayRoundTrip(s, t, sizes, vs[0], rest + tail, room, deep);
      ElemsRoundTrip(s, t, sizes, vs[1..], tail, room, deep);
      assert [vs[0]] + vs[1..] == vs;
    }
  }
}
