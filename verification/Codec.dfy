/** The encoding emitted by upstream/lcmgen/emit_c.c over lcm_coretypes.h, as
    functions on values and bytes, and the round trip. */
module Codec {
  import opened Bytes
  import opened Schema
  import opened Wrappers

  // ----- encoding -----

  function Encode(s: Schema, t: Type, v: Value): seq<byte>
    decreases v, 0
  {
    match t
    case Scalar(p) => if v.Num? then EncodeInt(v.v, Width(p)) else []
    case Str => if v.Text? then EncodeInt(|v.s| + 1, 4) + v.s + [0] else []
    case Struct(n) => if v.Rec? && n in s.structs then EncodeFields(s, s.structs[n], v.fields) else []
  }

  /** The members from the front on. */
  function EncodeFields(s: Schema, ms: seq<Member>, fields: seq<Value>): seq<byte>
    decreases fields, 0
  {
    if ms == [] || fields == [] then []
    else EncodeArray(s, ms[0].ty, |ms[0].dims|, fields[0]) + EncodeFields(s, ms[1..], fields[1..])
  }

  /** A member with k dimensions. */
  function EncodeArray(s: Schema, t: Type, k: nat, v: Value): seq<byte>
    decreases v, 1
  {
    if k == 0 then Encode(s, t, v) else if v.Arr? then EncodeElems(s, t, k - 1, v.elems) else []
  }

  function EncodeElems(s: Schema, t: Type, k: nat, vs: seq<Value>): seq<byte>
    decreases vs, 2
  {
    if vs == [] then [] else EncodeArray(s, t, k, vs[0]) + EncodeElems(s, t, k, vs[1..])
  }

  // ----- decoding -----

  type Decoded = Option<(Value, seq<byte>)>

  function DecodePrim(p: Prim, b: seq<byte>): Decoded {
    if |b| < Width(p) then None
    else
      var w := b[..Width(p)];
      Some((Num(if p == ByteT then FromBigEndian(w) else DecodeInt(w)), b[Width(p)..]))
  }

  /** The bytes before the first NUL. */
  function CString(b: seq<byte>): (r: Option<seq<byte>>)
    ensures r.Some? ==> 0 !in r.value
  {
    if b == [] then None
    else if b[0] == 0 then Some([])
    else match CString(b[1..]) case None => None case Some(r) => Some([b[0]] + r)
  }

  /** Length with NUL, then the bytes; a length below 1 or bytes without NUL do not
      make a C string. */
  function DecodeStr(b: seq<byte>): Decoded {
    if |b| < 4 then None
    else
      var n := DecodeInt(b[..4]);
      if n < 0 || |b| < 4 + n then None
      else match CString(b[4..4 + n]) case None => None case Some(r) => Some((Text(r), b[4 + n..]))
  }

  /** What is left is no longer than what was there. */
  predicate Shorter(r: Decoded, n: nat) { r.Some? ==> |r.value.1| <= n }

  /** A scalar integer member takes up room. */
  predicate RoomLeft(ms: seq<Member>, i: nat, n: nat, room: nat)
    requires i <= |ms|
  {
    n <= room && forall j :: 0 <= j < i && ms[j].dims == [] && MayBeSize(ms[j].ty) ==> n < room
  }

  lemma VarHasRoom(s: Schema, name: string, i: nat, n: nat, room: nat)
    requires WellFormed(s) && name in s.structs && i < |s.structs[name]| && !Fixed(s.structs[name][i])
    requires RoomLeft(s.structs[name], i, n, room)
    ensures n < room
  {
    assert MemberOk(s, name, i);
  }

  function DecodeLeaf(t: Type, b: seq<byte>): (r: Decoded)
    requires !t.Struct?
    ensures Shorter(r, |b|) && (r.Some? && t.Scalar? ==> |r.value.1| < |b|)
  {
    if t.Str? then DecodeStr(b) else DecodePrim(t.prim, b)
  }

  function Decode(s: Schema, t: Type, b: seq<byte>): (r: Decoded)
    requires WellFormed(s) && TypeOk(s, t)
    ensures Shorter(r, |b|)
    decreases |b|, Depth(s, t), 2, 0, 0
  {
    match t
    case Scalar(p) => DecodePrim(p, b)
    case Str => DecodeStr(b)
    case Struct(n) =>
      match DecodeFields(s, n, [], b, |b|)
      case None => None
      case Some((fs, rest)) => Some((Rec(fs), rest))
  }

  /** The members from |fields| on, with b left of the struct's `room` bytes. */
  function DecodeFields(s: Schema, name: string, fields: seq<Value>, b: seq<byte>,
      room: nat): (r: Option<(seq<Value>, seq<byte>)>)
    requires WellFormed(s) && name in s.structs && |fields| <= |s.structs[name]|
    requires RoomLeft(s.structs[name], |fields|, |b|, room)
    ensures r.Some? ==> |r.value.1| <= |b| && |r.value.0| == |s.structs[name]|
    decreases room, Depth(s, Struct(name)), 1, |s.structs[name]| - |fields|, 1
  {
    if |fields| == |s.structs[name]| then Some((fields, b))
    else
      match DecodeMember(s, name, fields, b, room)
      case None => None
      case Some((v, rest)) => DecodeFields(s, name, fields + [v], rest, room)
  }

  /** The member after `fields`. */
  function DecodeMember(s: Schema, name: string, fields: seq<Value>, b: seq<byte>, room: nat): (r: Decoded)
    requires WellFormed(s) && name in s.structs && |fields| < |s.structs[name]|
    requires RoomLeft(s.structs[name], |fields|, |b|, room)
    ensures r.Some? ==> |r.value.1| <= |b| && RoomLeft(s.structs[name], |fields| + 1, |r.value.1|, room)
    decreases room, Depth(s, Struct(name)), 1, |s.structs[name]| - |fields|, 0
  {
    var ms, i := s.structs[name], |fields|;
    assert MemberOk(s, name, i);
    var sizes := Sizes(ms, fields, ms[i].dims);
    if Fixed(ms[i]) then DecodeArray(s, ms[i].ty, sizes, b, room, Depth(s, Struct(name)))
    else (VarHasRoom(s, name, i, |b|, room); DecodeArray(s, ms[i].ty, sizes, b, |b|, Depth(s, ms[i].ty) + 1))
  }

  /** The loops over the dimensions, outermost first. room and deep bound what is
      inside. */
  function DecodeArray(s: Schema, t: Type, sizes: seq<int>, b: seq<byte>, room: nat, deep: nat): (r: Decoded)
    requires WellFormed(s) && TypeOk(s, t) && |b| <= room && (t.Struct? ==> Depth(s, t) < deep)
    ensures Shorter(r, |b|) && (r.Some? && sizes == [] && t.Scalar? ==> |r.value.1| < |b|)
    decreases room, deep, 0, |sizes|, 0
  {
    if sizes == [] then
      if t.Struct? then Decode(s, t, b) else DecodeLeaf(t, b)
    else match Rounds(t, sizes)
      case None => None
      case Some(n) =>
        match DecodeElems(s, t, sizes[1..], n, b, room, deep)
        case None => None
        case Some((vs, rest)) => Some((Arr(vs), rest))
  }

  function DecodeElems(s: Schema, t: Type, sizes: seq<int>, n: nat, b: seq<byte>, room: nat,
      deep: nat): (r: Option<(seq<Value>, seq<byte>)>)
    requires WellFormed(s) && TypeOk(s, t) && |b| <= room && (t.Struct? ==> Depth(s, t) < deep)
    ensures r.Some? ==> |r.value.1| <= |b| && |r.value.0| == n
    decreases room, deep, 0, |sizes|, n + 1
  {
    if n == 0 then Some(([], b))
    else
      match DecodeArray(s, t, sizes, b, room, deep)
      case None => None
      case Some((v, rest)) =>
        match DecodeElems(s, t, sizes, n - 1, rest, room, deep)
        case None => None
        case Some((vs, rest')) => Some(([v] + vs, rest'))
  }
}
