/** Trailing bytes are ignored, missing bytes are noticed. */
module CodecPrefix {
  import opened Bytes
  import opened Schema
  import opened Codec
  import opened CodecRoundTrip
  import opened Wrappers

  /** r' is r with x more bytes left over. */
  predicate Extended<T(==)>(r: Option<(T, seq<byte>)>, r': Option<(T, seq<byte>)>, x: seq<byte>) {
    r.Some? ==> r' == Some((r.value.0, r.value.1 + x))
  }

  lemma PrimExtends(p: Prim, b: seq<byte>, x: seq<byte>)
    ensures Extended(DecodePrim(p, b), DecodePrim(p, b + x), x)
  {
    hide DecodeInt; hide FromBigEndian;
    if |b| >= Width(p) { assert (b + x)[..Width(p)] == b[..Width(p)] && (b + x)[Width(p)..] == b[Width(p)..] + x; }
  }

  lemma StrExtends(b: seq<byte>, x: seq<byte>)
    ensures Extended(DecodeStr(b), DecodeStr(b + x), x)
  {
    hide DecodeInt; hide CString;
    if |b| >= 4 {
      assert (b + x)[..4] == b[..4];
      var n := DecodeInt(b[..4]);
      if 0 <= n && 4 + n <= |b| { assert (b + x)[4..4 + n] == b[4..4 + n] && (b + x)[4 + n..] == b[4 + n..] + x; }
    }
  }

  lemma LeafExtends(t: Type, b: seq<byte>, x: seq<byte>)
    requires !t.Struct?
    ensures Extended(DecodeLeaf(t, b), DecodeLeaf(t, b + x), x)
  {
    hide DecodeInt; hide FromBigEndian; hide CString;
    if t.Str? { StrExtends(b, x); } else { PrimExtends(t.prim, b, x); }
  }

  lemma {:induction false} DecodeExtends(s: Schema, t: Type, b: seq<byte>, x: seq<byte>)
    requires WellFormed(s) && TypeOk(s, t)
    ensures Extended(Decode(s, t, b), Decode(s, t, b + x), x)
    decreases |b|, Depth(s, t), 2, 0, 0
  {
    match t
    case Scalar(p) => PrimExtends(p, b, x);
    case Str => StrExtends(b, x);
    case Struct(n) => FieldsExtend(s, n, [], b, |b|, x, |b + x|);
  }

  lemma {:induction false} FieldsExtend(s: Schema, name: string, fields: seq<Value>, b: seq<byte>, room: nat,
      x: seq<byte>, room': nat)
    requires WellFormed(s) && name in s.structs && |fields| <= |s.structs[name]|
    requires RoomLeft(s.structs[name], |fields|, |b|, room) && RoomLeft(s.structs[name], |fields|, |b + x|, room')
    ensures Extended(DecodeFields(s, name, fields, b, room), DecodeFields(s, name, fields, b + x, room'), x)
    decreases room, Depth(s, Struct(name)), 1, |s.structs[name]| - |fields|, 0
  {
    var ms, i := s.structs[name], |fields|;
    if i < |ms| {
      assert MemberOk(s, name, i);
      var t, sizes := ms[i].ty, Sizes(ms, fields, ms[i].dims);
      var d, d';
      if Fixed(ms[i]) {
        ArrayExtends(s, t, sizes, b, room, Depth(s, Struct(name)), x, room', Depth(s, Struct(name)));
        d, d' := DecodeArray(s, t, sizes, b, room, Depth(s, Struct(name))),
          DecodeArray(s, t, sizes, b + x, room', Depth(s, Struct(name)));
      } else {
        VarHasRoom(s, name, i, |b|, room);
        VarHasRoom(s, name, i, |b + x|, room');
        ArrayExtends(s, t, sizes, b, |b|, Depth(s, t) + 1, x, |b + x|, Depth(s, t) + 1);
        d, d' := DecodeArray(s, t, sizes, b, |b|, Depth(s, t) + 1),
          DecodeArray(s, t, sizes, b + x, |b + x|, Depth(s, t) + 1);
      }
      if d.Some? { FieldsExtend(s, name, fields + [d.value.0], d.value.1, room, x, room'); }
    }
  }

  lemma {:induction false} ArrayExtends(s: Schema, t: Type, sizes: seq<int>, b: seq<byte>, room: nat, deep: nat,
      x: seq<byte>, room': nat, deep': nat)
    requires WellFormed(s) && TypeOk(s, t) && (t.Struct? ==> Depth(s, t) < deep && Depth(s, t) < deep')
    requires |b| <= room && |b + x| <= room'
    ensures Extended(DecodeArray(s, t, sizes, b, room, deep), DecodeArray(s, t, sizes, b + x, room', deep'), x)
    decreases room, deep, 0, |sizes|, 0
  {
    if sizes == [] {
      if t.Struct? { DecodeExtends(s, t, b, x); } else { LeafExtends(t, b, x); }
    } else if Rounds(t, sizes).Some? {
      ElemsExtend(s, t, sizes[1..], Rounds(t, sizes).value, b, room, deep, x, room', deep');
    }
  }

  lemma {:induction false} ElemsExtend(s: Schema, t: Type, sizes: seq<int>, n: nat, b: seq<byte>, room: nat,
      deep: nat, x: seq<byte>, room': nat, deep': nat)
    requires WellFormed(s) && TypeOk(s, t) && (t.Struct? ==> Depth(s, t) < deep && Depth(s, t) < deep')
    requires |b| <= room && |b + x| <= room'
    ensures Extended(DecodeElems(s, t, sizes, n, b, room, deep), DecodeElems(s, t, sizes, n, b + x, room', deep'), x)
    decreases room, deep, 0, |sizes|, n + 1
  {
    if n > 0 {
      ArrayExtends(s, t, sizes, b, room, deep, x, room', deep');
      var d := DecodeArray(s, t, sizes, b, room, deep);
      if d.Some? { ElemsExtend(s, t, sizes, n - 1, d.value.1, room, deep, x, room', deep'); }
    }
  }

  lemma NothingLeftOver(r: Decoded, r': Decoded, x: seq<byte>)
    requires Extended(r, r', x) && x != [] && r'.Some? && r'.value.1 == []
    ensures r == None
  {
    forall a: seq<byte> ensures a + x != [] { assert |a + x| > 0; }
  }

  /** An encoding that is cut short anywhere is refused. */
  lemma TruncatedIsRefused(s: Schema, t: Type, v: Value, k: nat)
    requires WellFormed(s) && TypeOk(s, t) && IsValue(s, t, v) && k < |Encode(s, t, v)|
    ensures Decode(s, t, Encode(s, t, v)[..k]) == None
  {
    var e := Encode(s, t, v);
    RoundTrip(s, t, v, []);
    DecodeExtends(s, t, e[..k], e[k..]);
    assert e[..k] + e[k..] == e + [];
    hide *;
    NothingLeftOver(Decode(s, t, e[..k]), Decode(s, t, e + []), e[k..]);
  }

  // ----- what decoding yields -----

  lemma CStringShort(b: seq<byte>)
    ensures var r := CString(b); r.Some? ==> |r.value| < |b|
  {}

  lemma LengthBound(w: seq<byte>)
    requires |w| == 4
    ensures DecodeInt(w) < 0x8000_0000
  {
    DecodeFits(w);
    Pow256Values();
  }

  lemma StrIsValue(s: Schema, b: seq<byte>)
    requires DecodeStr(b).Some?
    ensures IsValue(s, Str, DecodeStr(b).value.0)
  {
    var n := DecodeInt(b[..4]);
    CStringShort(b[4..4 + n]);
    LengthBound(b[..4]);
    hide DecodeInt; hide CString;
  }

  lemma LeafIsValue(s: Schema, t: Type, b: seq<byte>)
    requires !t.Struct? && DecodeLeaf(t, b).Some?
    ensures IsValue(s, t, DecodeLeaf(t, b).value.0)
  {
    if t.Str? {
      StrIsValue(s, b);
    } else {
      var w := b[..Width(t.prim)];
      DecodeFits(w);
      FromBigEndianBounded(w);
      if t.prim == ByteT { assert Pow256(1) == 256 * Pow256(0); }
    }
  }

  /** The members so far have the lengths their sizes say. */
  predicate FieldsOk(s: Schema, name: string, fields: seq<Value>)
    requires name in s.structs && |fields| <= |s.structs[name]|
  {
    var ms := s.structs[name];
    forall j :: 0 <= j < |fields| ==> IsArray(s, ms[j].ty, Sizes(ms, fields, ms[j].dims), fields[j])
  }

  lemma FieldsOkSnoc(s: Schema, name: string, fields: seq<Value>, v: Value)
    requires WellFormed(s) && name in s.structs && |fields| < |s.structs[name]| && FieldsOk(s, name, fields)
    requires var m := s.structs[name][|fields|]; IsArray(s, m.ty, Sizes(s.structs[name], fields, m.dims), v)
    ensures FieldsOk(s, name, fields + [v])
  {
    var ms, fs := s.structs[name], fields + [v];
    forall j | 0 <= j < |fs| ensures IsArray(s, ms[j].ty, Sizes(ms, fs, ms[j].dims), fs[j]) {
      assert MemberOk(s, name, j);
      SizesOfPrefix(ms, fs, |fields|, ms[j].dims);
      assert fs[..|fields|] == fields;
    }
  }

  /** Whatever bytes are decoded, the value is one of the type: numbers in range and
      arrays as long as their size members say. */
  lemma {:induction false} DecodedIsValue(s: Schema, t: Type, b: seq<byte>)
    requires WellFormed(s) && TypeOk(s, t) && Decode(s, t, b).Some?
    ensures IsValue(s, t, Decode(s, t, b).value.0)
    decreases |b|, Depth(s, t), 2, 0, 0
  {
    if t.Struct? { FieldsAreValues(s, t.name, [], b, |b|); } else { LeafIsValue(s, t, b); }
  }

  lemma {:induction false} FieldsAreValues(s: Schema, name: string, fields: seq<Value>, b: seq<byte>, room: nat)
    requires WellFormed(s) && name in s.structs && |fields| <= |s.structs[name]|
    requires RoomLeft(s.structs[name], |fields|, |b|, room) && FieldsOk(s, name, fields)
    requires DecodeFields(s, name, fields, b, room).Some?
    ensures FieldsOk(s, name, DecodeFields(s, name, fields, b, room).value.0)
    decreases room, Depth(s, Struct(name)), 1, |s.structs[name]| - |fields|, 0
  {
    var ms, i := s.structs[name], |fields|;
    if i < |ms| {
      assert MemberOk(s, name, i);
      var t, sizes := ms[i].ty, Sizes(ms, fields, ms[i].dims);
      var d;
      if Fixed(ms[i]) {
        d := DecodeArray(s, t, sizes, b, room, Depth(s, Struct(name)));
        ArrayIsValue(s, t, sizes, b, room, Depth(s, Struct(name)));
      } else {
        VarHasRoom(s, name, i, |b|, room);
        d := DecodeArray(s, t, sizes, b, |b|, Depth(s, t) + 1);
        ArrayIsValue(s, t, sizes, b, |b|, Depth(s, t) + 1);
      }
      FieldsOkSnoc(s, name, fields, d.value.0);
      FieldsAreValues(s, name, fields + [d.value.0], d.value.1, room);
    }
  }

  lemma {:induction false} ArrayIsValue(s: Schema, t: Type, sizes: seq<int>, b: seq<byte>, room: nat, deep: nat)
    requires WellFormed(s) && TypeOk(s, t) && (t.Struct? ==> Depth(s, t) < deep) && |b| <= room
    requires DecodeArray(s, t, sizes, b, room, deep).Some?
    ensures IsArray(s, t, sizes, DecodeArray(s, t, sizes, b, room, deep).value.0)
    decreases room, deep, 0, |sizes|, 0
  {
    if sizes == [] {
      if t.Struct? { DecodedIsValue(s, t, b); } else { LeafIsValue(s, t, b); }
    } else {
      ElemsAreValues(s, t, sizes[1..], Rounds(t, sizes).value, b, room, deep);
    }
  }

  lemma {:induction false} ElemsAreValues(s: Schema, t: Type, sizes: seq<int>, n: nat, b: seq<byte>, room: nat,
      deep: nat)
    requires WellFormed(s) && TypeOk(s, t) && (t.Struct? ==> Depth(s, t) < deep) && |b| <= room
    requires DecodeElems(s, t, sizes, n, b, room, deep).Some?
    ensures forall k :: 0 <= k < n ==> IsArray(s, t, sizes, DecodeElems(s, t, sizes, n, b, room, deep).value.0[k])
    decreases room, deep, 0, |sizes|, n + 1
  {
    if n > 0 {
      ArrayIsValue(s, t, sizes, b, room, deep);
      var d := DecodeArray(s, t, sizes, b, room, deep);
      ElemsAreValues(s, t, sizes, n - 1, d.value.1, room, deep);
    }
  }
}
