/** Whole messages: the fingerprint and the struct behind it. */
module Messages {
  import opened Buffers
  import opened Bytes
  import opened Schema
  import opened Codec
  import opened CodecRoundTrip
  import opened CoreTypes
  import opened CodecMethods
  import opened Fingerprint
  import opened Wrappers

  lemma WellFormedIsClosed(s: Schema)
    requires WellFormed(s)
    ensures Closed(s)
  {
    forall name, i | name in s.structs && 0 <= i < |s.structs[name]| ensures TypeOk(s, s.structs[name][i].ty) {
      assert MemberOk(s, name, i);
    }
  }

  /** T_get_hash as the int64_t that is written. */
  function Hash(s: Schema, name: string): (h: int)
    requires WellFormed(s) && name in s.structs
    ensures Fits(h, 8)
  {
    WellFormedIsClosed(s);
    Pow256Values();
    FingerprintOf(s, name)
  }

  function Message(s: Schema, name: string, v: Value): seq<byte>
    requires WellFormed(s) && name in s.structs
  {
    EncodeInt(Hash(s, name), 8) + Encode(s, Struct(name), v)
  }

  function DecodeMessageBytes(s: Schema, name: string, b: seq<byte>): Decoded
    requires WellFormed(s) && name in s.structs
  {
    if |b| < 8 || DecodeInt(b[..8]) != Hash(s, name) then None else Decode(s, Struct(name), b[8..])
  }

  lemma HashSplit(h: int, rest: seq<byte>)
    requires Fits(h, 8)
    ensures var b := EncodeInt(h, 8) + rest;
      |b| >= 8 && DecodeInt(b[..8]) == h && b[8..] == rest
  {
    IntRoundTrip(h, 8);
    var e := EncodeInt(h, 8);
    assert (e + rest)[..8] == e && (e + rest)[8..] == rest;
  }

  /** T_decode undoes T_encode, whatever follows in the buffer. */
  lemma MessageRoundTrip(s: Schema, name: string, v: Value, tail: seq<byte>)
    requires WellFormed(s) && IsValue(s, Struct(name), v)
    ensures DecodeMessageBytes(s, name, Message(s, name, v) + tail) == Some((v, tail))
  {
    var h, e := EncodeInt(Hash(s, name), 8), Encode(s, Struct(name), v);
    HashSplit(Hash(s, name), e + tail);
    RoundTrip(s, Struct(name), v, tail);
    hide EncodeInt; hide DecodeInt; hide Hash; hide Encode; hide Decode;
    Regroup(h, e, tail);
  }

  /** A message of a type with another fingerprint is refused, whichever declarations the
      sender used. */
  lemma OtherTypeIsRefused(s: Schema, name: string, s': Schema, other: string, v: Value, tail: seq<byte>)
    requires WellFormed(s) && name in s.structs && WellFormed(s') && other in s'.structs
    requires Hash(s, name) != Hash(s', other)
    ensures DecodeMessageBytes(s', other, Message(s, name, v) + tail) == None
  {
    var h, e := EncodeInt(Hash(s, name), 8), Encode(s, Struct(name), v);
    HashSplit(Hash(s, name), e + tail);
    hide EncodeInt; hide DecodeInt; hide Hash; hide Encode;
    Regroup(h, e, tail);
  }

  // ----- sizes -----

  /** __T_encoded_array_size of one element. */
  function SizeOf(s: Schema, t: Type, v: Value): nat
    decreases v, 0
  {
    match t
    case Scalar(p) => if v.Num? then Width(p) else 0
    case Str => if v.Text? then 4 + |v.s| + 1 else 0
    case Struct(n) => if v.Rec? && n in s.structs then SizeOfFields(s, s.structs[n], v.fields) else 0
  }

  function SizeOfFields(s: Schema, ms: seq<Member>, fields: seq<Value>): nat
    decreases fields, 0
  {
    if ms == [] || fields == [] then 0
    else SizeOfArray(s, ms[0].ty, |ms[0].dims|, fields[0]) + SizeOfFields(s, ms[1..], fields[1..])
  }

  function SizeOfArray(s: Schema, t: Type, k: nat, v: Value): nat
    decreases v, 1
  {
    if k == 0 then SizeOf(s, t, v) else if v.Arr? then SizeOfElems(s, t, k - 1, v.elems) else 0
  }

  function SizeOfElems(s: Schema, t: Type, k: nat, vs: seq<Value>): nat
    decreases vs, 2
  {
    if vs == [] then 0 else SizeOfArray(s, t, k, vs[0]) + SizeOfElems(s, t, k, vs[1..])
  }

  lemma {:induction false} SizeIsLength(s: Schema, t: Type, v: Value)
    ensures SizeOf(s, t, v) == |Encode(s, t, v)|
    decreases v, 0
  {
    if t.Struct? && v.Rec? && t.name in s.structs { FieldsSize(s, s.structs[t.name], v.fields); }
  }

  lemma {:induction false} FieldsSize(s: Schema, ms: seq<Member>, fields: seq<Value>)
    ensures SizeOfFields(s, ms, fields) == |EncodeFields(s, ms, fields)|
    decreases fields, 0
  {
    if ms != [] && fields != [] {
      ArraySize(s, ms[0].ty, |ms[0].dims|, fields[0]);
      FieldsSize(s, ms[1..], fields[1..]);
    }
  }

  lemma {:induction false} ArraySize(s: Schema, t: Type, k: nat, v: Value)
    ensures SizeOfArray(s, t, k, v) == |EncodeArray(s, t, k, v)|
    decreases v, 1
  {
    if k == 0 { SizeIsLength(s, t, v); } else if v.Arr? { ElemsSize(s, t, k - 1, v.elems); }
  }

  lemma {:induction false} ElemsSize(s: Schema, t: Type, k: nat, vs: seq<Value>)
    ensures SizeOfElems(s, t, k, vs) == |EncodeElems(s, t, k, vs)|
    decreases vs, 2
  {
    if vs != [] {
      ArraySize(s, t, k, vs[0]);
      ElemsSize(s, t, k, vs[1..]);
    }
  }

  /** T_encoded_size */
  function EncodedSize(s: Schema, name: string, v: Value): nat { 8 + SizeOf(s, Struct(name), v) }

  /** T_encoded_size is the length of the message. */
  lemma EncodedSizeIsLength(s: Schema, name: string, v: Value)
    requires WellFormed(s) && name in s.structs
    ensures EncodedSize(s, name, v) == |Message(s, name, v)|
  {
    hide EncodeInt; hide Hash; hide Encode; hide SizeOf;
    SizeIsLength(s, Struct(name), v);
  }

  // ----- the emitted entry points -----

  /** T_encode succeeds exactly when maxlen is at least T_encoded_size, and then
      writes the message and nothing else. */
  method EncodeMessage(s: Schema, name: string, v: Value, buf: array<byte>, offset: nat, maxlen: int) returns (r: int)
    requires WellFormed(s) && IsValue(s, Struct(name), v) && offset <= buf.Length && offset + maxlen <= buf.Length
    modifies buf
    ensures r == if maxlen < EncodedSize(s, name, v) then -1 else EncodedSize(s, name, v)
    ensures r >= 0 ==> |Message(s, name, v)| == r && buf[..] == Splice(old(buf[..]), offset, Message(s, name, v))
    ensures 0 <= maxlen ==> buf[..offset] == old(buf[..offset]) && buf[offset + maxlen..] == old(buf[offset + maxlen..])
  {
    SizeIsLength(s, Struct(name), v);
    if maxlen < 0 { return -1; }
    ghost var was, b := buf[..], Encode(s, Struct(name), v);
    var hash := Hash(s, name);
    ghost var a := EncodeInt(hash, 8);
    OneInt(hash, 8);
    hide Encode; hide EncodeInt; hide EncodeInts; hide Hash; hide IsValue;
    var pos := Int64EncodeArray(buf, offset, maxlen, [hash]);
    WroteLength(was, buf[..], offset, maxlen, a, pos);
    if pos < 0 { return pos; }
    ghost var mid := buf[..];
    var thislen := EncodeRec(s, name, v, buf, offset + pos, maxlen - pos);
    WroteStep(was, mid, buf[..], offset, maxlen, a, pos, b, thislen, []);
    if thislen < 0 { return thislen; }
    return pos + thislen;
  }

  method ReadHash(buf: array<byte>, offset: nat, maxlen: nat) returns (r: int, h: int)
    requires offset + maxlen <= buf.Length
    ensures r == if maxlen < 8 then -1 else 8
    ensures r >= 0 ==> h == DecodeInt(buf[offset..offset + 8])
  {
    h := 0;
    var hs;
    r, hs := Int64DecodeArray(Int64, buf, offset, maxlen, 1);
    if r >= 0 {
      assert hs[0] == IntFrom(Int64, buf[..], offset + 8 * 0);
      assert buf[..][offset..offset + 8] == buf[offset..offset + 8];
      h := hs[0];
    }
  }

  /** T_decode reads exactly what DecodeMessageBytes reads from the maxlen bytes. */
  method DecodeMessage(s: Schema, name: string, buf: array<byte>, offset: nat, maxlen: nat) returns (r: int, v: Value)
    requires WellFormed(s) && name in s.structs && offset + maxlen <= buf.Length
    ensures Agrees(DecodeMessageBytes(s, name, buf[offset..offset + maxlen]), buf[offset..offset + maxlen], r, v)
  {
    hide DecodeInt; hide Hash; hide Decode;
    ghost var b := buf[offset..offset + maxlen];
    v := Num(0);
    var pos, thisHash := ReadHash(buf, offset, maxlen);
    if pos < 0 { return pos, v; }
    assert buf[offset..offset + 8] == b[..8];
    if thisHash != Hash(s, name) { return -1, v; }
    var thislen;
    thislen, v := DecodeRec(s, name, buf, offset + 8, maxlen - 8);
    assert buf[offset + 8..offset + 8 + (maxlen - 8)] == b[8..];
    if thislen < 0 { return thislen, v; }
    RestOf(b, 8, thislen);
    return 8 + thislen, v;
  }
}
