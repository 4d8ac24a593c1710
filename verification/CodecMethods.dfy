/** The functions emit_c.c emits for a struct, run by an interpreter over its
    declaration: they write into and read from a message buffer. */
module CodecMethods {
  import opened Buffers
  import opened Bytes
  import opened Schema
  import opened Codec
  import opened CodecPrefix
  import opened CoreTypes
  import opened Wrappers

  // ----- the encoding, put together from the left -----

  lemma {:induction false} ElemsAppend(s: Schema, t: Type, k: nat, a: seq<Value>, b: seq<Value>)
    ensures EncodeElems(s, t, k, a + b) == EncodeElems(s, t, k, a) + EncodeElems(s, t, k, b)
  {
    if a == [] {
      assert a + b == b;
    } else {
      ElemsAppend(s, t, k, a[1..], b);
      assert (a + b)[1..] == a[1..] + b;
      hide EncodeArray;
      Regroup(EncodeArray(s, t, k, a[0]), EncodeElems(s, t, k, a[1..]), EncodeElems(s, t, k, b));
    }
  }

  lemma OneElem(s: Schema, t: Type, k: nat, v: Value)
    ensures EncodeElems(s, t, k, [v]) == EncodeArray(s, t, k, v)
  {
    hide EncodeArray;
    var none: seq<Value> := [];
    assert [v][1..] == none && EncodeElems(s, t, k, none) == [];
  }

  /** Elements i and from i + 1 on. */
  lemma ElemsAt(s: Schema, t: Type, k: nat, vs: seq<Value>, i: nat)
    requires i < |vs|
    ensures EncodeElems(s, t, k, vs[..i + 1]) == EncodeElems(s, t, k, vs[..i]) + EncodeArray(s, t, k, vs[i])
    ensures EncodeElems(s, t, k, vs) == EncodeElems(s, t, k, vs[..i + 1]) + EncodeElems(s, t, k, vs[i + 1..])
  {
    hide *;
    SplitAt(vs, i);
    OneElem(s, t, k, vs[i]);
    ElemsAppend(s, t, k, vs[..i], [vs[i]]);
    ElemsAppend(s, t, k, vs[..i + 1], vs[i + 1..]);
  }

  lemma {:induction false} FieldsAt(s: Schema, ms: seq<Member>, fields: seq<Value>, i: nat)
    requires i < |ms| == |fields|
    ensures EncodeFields(s, ms[..i + 1], fields[..i + 1])
         == EncodeFields(s, ms[..i], fields[..i]) + EncodeArray(s, ms[i].ty, |ms[i].dims|, fields[i])
    ensures EncodeFields(s, ms, fields) == EncodeFields(s, ms[..i + 1], fields[..i + 1]) +
      EncodeFields(s, ms[i + 1..], fields[i + 1..])
    decreases i
  {
    hide EncodeArray;
    if i == 0 {
      assert ms[..1][1..] == [] && fields[..1][1..] == [];
      assert EncodeFields(s, ms[..1][1..], fields[..1][1..]) == [];
    } else {
      FieldsAt(s, ms[1..], fields[1..], i - 1);
      assert ms[..i + 1][1..] == ms[1..][..i] && fields[..i + 1][1..] == fields[1..][..i];
      assert ms[..i][1..] == ms[1..][..i - 1] && fields[..i][1..] == fields[1..][..i - 1];
      assert ms[1..][i..] == ms[i + 1..] && fields[1..][i..] == fields[i + 1..];
      var h := EncodeArray(s, ms[0].ty, |ms[0].dims|, fields[0]);
      Regroup(h, EncodeFields(s, ms[1..][..i - 1], fields[1..][..i - 1]),
        EncodeArray(s, ms[i].ty, |ms[i].dims|, fields[i]));
      Regroup(h, EncodeFields(s, ms[1..][..i], fields[1..][..i]), EncodeFields(s, ms[i + 1..], fields[i + 1..]));
    }
  }

  function Nums(vs: seq<Value>): (r: seq<int>)
    ensures |r| == |vs|
  {
    if vs == [] then [] else [if vs[0].Num? then vs[0].v else 0] + Nums(vs[1..])
  }

  function Strings(vs: seq<Value>): seq<seq<byte>> {
    if vs == [] then [] else [if vs[0].Text? then vs[0].s else []] + Strings(vs[1..])
  }

  lemma {:induction false} LeafCode(s: Schema, t: Type, vs: seq<Value>)
    requires !t.Struct? && forall k :: 0 <= k < |vs| ==> IsValue(s, t, vs[k])
    ensures EncodeElems(s, t, 0, vs) == if t.Str? then Texts(Strings(vs)) else EncodeInts(Nums(vs), Width(t.prim))
  {
    hide EncodeInt;
    if vs != [] {
      LeafCode(s, t, vs[1..]);
      assert EncodeArray(s, t, 0, vs[0]) == Encode(s, t, vs[0]);
      if t.Str? { assert Strings(vs)[1..] == Strings(vs[1..]); } else { assert Nums(vs)[1..] == Nums(vs[1..]); }
    }
  }

  // ----- encoding -----

  /** __T_encode_array of a primitive type. */
  method EncodeLeaf(s: Schema, t: Type, vs: seq<Value>, buf: array<byte>, offset: nat, maxlen: nat) returns (r: int)
    requires !t.Struct? && offset + maxlen <= buf.Length && forall k :: 0 <= k < |vs| ==> IsValue(s, t, vs[k])
    modifies buf
    ensures Wrote(old(buf[..]), buf[..], offset, maxlen, EncodeElems(s, t, 0, vs), r)
  {
    LeafCode(s, t, vs);
    hide Wrote; hide EncodeInts; hide Texts; hide EncodeElems;
    match t
    case Str => r := StringEncodeArray(buf, offset, maxlen, Strings(vs));
    case Scalar(p) =>
      if Width(p) == 1 { r := Int8EncodeArray(buf, offset, maxlen, Nums(vs)); }
      else if Width(p) == 2 { r := Int16EncodeArray(buf, offset, maxlen, Nums(vs)); }
      else if Width(p) == 4 { r := Int32EncodeArray(buf, offset, maxlen, Nums(vs)); }
      else { r := Int64EncodeArray(buf, offset, maxlen, Nums(vs)); }
  }

  lemma StartElems(s: Schema, t: Type, k: nat, vs: seq<Value>, was: seq<byte>, offset: nat, maxlen: nat)
    requires offset + maxlen <= |was|
    ensures Wrote(was, was, offset, maxlen, EncodeElems(s, t, k, vs[..0]), 0)
  {
    WroteNothing(was, offset, maxlen);
  }

  lemma StartFields(s: Schema, ms: seq<Member>, fields: seq<Value>, was: seq<byte>, offset: nat, maxlen: nat)
    requires offset + maxlen <= |was|
    ensures Wrote(was, was, offset, maxlen, EncodeFields(s, ms[..0], fields[..0]), 0)
  {
    WroteNothing(was, offset, maxlen);
  }

  lemma NoDims(s: Schema, t: Type, v: Value)
    ensures EncodeArray(s, t, 0, v) == Encode(s, t, v)
  {}

  lemma EncodeIsFields(s: Schema, name: string, v: Value)
    requires IsValue(s, Struct(name), v)
    ensures name in s.structs && v.Rec? && |v.fields| == |s.structs[name]|
    ensures Encode(s, Struct(name), v) == EncodeFields(s, s.structs[name], v.fields)
  {}

  lemma MemberIsArray(s: Schema, name: string, v: Value, i: nat)
    requires WellFormed(s) && IsValue(s, Struct(name), v) && i < |v.fields|
    ensures var ms := s.structs[name];
      i < |ms| && TypeOk(s, ms[i].ty) && IsArray(s, ms[i].ty, Sizes(ms, v.fields, ms[i].dims), v.fields[i])
  {
    assert MemberOk(s, name, i);
  }

  lemma ElemsOf(s: Schema, t: Type, k: nat, v: Value)
    requires k > 0 && v.Arr?
    ensures EncodeArray(s, t, k, v) == EncodeElems(s, t, k - 1, v.elems)
  {}

  /** The loop body of __T_encode_array for a struct: one member after the other. */
  method EncodeRec(s: Schema, name: string, v: Value, buf: array<byte>, offset: nat, maxlen: nat) returns (r: int)
    requires WellFormed(s) && IsValue(s, Struct(name), v) && offset + maxlen <= buf.Length
    modifies buf
    ensures Wrote(old(buf[..]), buf[..], offset, maxlen, Encode(s, Struct(name), v), r)
    decreases v, 0
  {
    hide *;
    EncodeIsFields(s, name, v);
    var ms := s.structs[name];
    ghost var was := buf[..];
    StartFields(s, ms, v.fields, was, offset, maxlen);
    var pos, i := 0, 0;
    while i < |ms|
      invariant 0 <= i <= |ms| && 0 <= pos <= maxlen
      invariant Wrote(was, buf[..], offset, maxlen, EncodeFields(s, ms[..i], v.fields[..i]), pos)
    {
      MemberIsArray(s, name, v, i);
      FieldsAt(s, ms, v.fields, i);
      ghost var mid, code := buf[..], EncodeArray(s, ms[i].ty, |ms[i].dims|, v.fields[i]);
      var thislen := EncodeArrayAt(s, ms[i].ty, Sizes(ms, v.fields, ms[i].dims), v.fields[i], buf, offset + pos,
        maxlen - pos);
      WroteStep(was, mid, buf[..], offset, maxlen, EncodeFields(s, ms[..i], v.fields[..i]), pos, code, thislen,
        EncodeFields(s, ms[i + 1..], v.fields[i + 1..]));
      if thislen < 0 { return thislen; }
      pos, i := pos + thislen, i + 1;
    }
    assert ms[..i] == ms && v.fields[..i] == v.fields;
    return pos;
  }

  /** __T_encode_array for a struct. */
  method EncodeRecs(s: Schema, name: string, vs: seq<Value>, elements: int, buf: array<byte>, offset: nat,
      maxlen: nat) returns (r: int)
    requires WellFormed(s) && (elements == |vs| || (elements < 0 && vs == [])) && offset + maxlen <= buf.Length
    requires forall k :: 0 <= k < |vs| ==> IsValue(s, Struct(name), vs[k])
    modifies buf
    ensures Wrote(old(buf[..]), buf[..], offset, maxlen, EncodeElems(s, Struct(name), 0, vs), r)
    decreases vs, 0
  {
    hide *;
    ghost var was := buf[..];
    StartElems(s, Struct(name), 0, vs, was, offset, maxlen);
    var pos, element := 0, 0;
    while element < elements
      invariant 0 <= element <= |vs| && 0 <= pos <= maxlen && (elements >= 0 ==> element <= elements)
      invariant Wrote(was, buf[..], offset, maxlen, EncodeElems(s, Struct(name), 0, vs[..element]), pos)
    {
      ElemsAt(s, Struct(name), 0, vs, element);
      NoDims(s, Struct(name), vs[element]);
      ghost var mid := buf[..];
      var thislen := EncodeRec(s, name, vs[element], buf, offset + pos, maxlen - pos);
      WroteStep(was, mid, buf[..], offset, maxlen, EncodeElems(s, Struct(name), 0, vs[..element]), pos,
        EncodeArray(s, Struct(name), 0, vs[element]), thislen, EncodeElems(s, Struct(name), 0, vs[element + 1..]));
      if thislen < 0 { return thislen; }
      pos, element := pos + thislen, element + 1;
    }
    assert vs[..element] == vs;
    return pos;
  }

  /** The loops over all dimensions but the last, around one call for the last. */
  method EncodeArrayAt(s: Schema, t: Type, sizes: seq<int>, v: Value, buf: array<byte>, offset: nat, maxlen: nat)
      returns (r: int)
    requires WellFormed(s) && TypeOk(s, t) && IsArray(s, t, sizes, v) && offset + maxlen <= buf.Length
    modifies buf
    ensures Wrote(old(buf[..]), buf[..], offset, maxlen, EncodeArray(s, t, |sizes|, v), r)
    decreases v, 1
  {
    if |sizes| == 0 {
      OneElem(s, t, 0, v);
      hide Wrote; hide EncodeElems;
      if t.Struct? {
        r := EncodeRec(s, t.name, v, buf, offset, maxlen);
      } else {
        r := EncodeLeaf(s, t, [v], buf, offset, maxlen);
      }
    } else if |sizes| == 1 {
      hide Wrote; hide EncodeElems;
      if t.Struct? {
        r := EncodeRecs(s, t.name, v.elems, sizes[0], buf, offset, maxlen);
      } else {
        r := EncodeLeaf(s, t, v.elems, buf, offset, maxlen);
      }
    } else {
      ElemsOf(s, t, |sizes|, v);
      hide Wrote; hide EncodeElems;
      r := EncodeRows(s, t, sizes[1..], v.elems, sizes[0], buf, offset, maxlen);
    }
  }

  /** for (a = 0; a < n; a++) around the inner loops */
  method EncodeRows(s: Schema, t: Type, sizes: seq<int>, vs: seq<Value>, elements: int, buf: array<byte>,
      offset: nat, maxlen: nat) returns (r: int)
    requires WellFormed(s) && TypeOk(s, t) && offset + maxlen <= buf.Length
    requires elements == |vs| || (elements < 0 && vs == [])
    requires forall k :: 0 <= k < |vs| ==> IsArray(s, t, sizes, vs[k])
    modifies buf
    ensures Wrote(old(buf[..]), buf[..], offset, maxlen, EncodeElems(s, t, |sizes|, vs), r)
    decreases vs, 0
  {
    hide *;
    ghost var was, k := buf[..], |sizes|;
    StartElems(s, t, k, vs, was, offset, maxlen);
    var pos, a := 0, 0;
    while a < elements
      invariant 0 <= a <= |vs| && 0 <= pos <= maxlen && (elements >= 0 ==> a <= elements)
      invariant Wrote(was, buf[..], offset, maxlen, EncodeElems(s, t, k, vs[..a]), pos)
    {
      ElemsAt(s, t, k, vs, a);
      ghost var mid := buf[..];
      var thislen := EncodeArrayAt(s, t, sizes, vs[a], buf, offset + pos, maxlen - pos);
      WroteStep(was, mid, buf[..], offset, maxlen, EncodeElems(s, t, k, vs[..a]), pos, EncodeArray(s, t, k, vs[a]),
        thislen, EncodeElems(s, t, k, vs[a + 1..]));
      if thislen < 0 { return thislen; }
      pos, a := pos + thislen, a + 1;
    }
    assert vs[..a] == vs;
    return pos;
  }

  // ----- decoding -----

  /** Decoding an array of type t by itself. */
  function ArrayOf(s: Schema, t: Type, sizes: seq<int>, b: seq<byte>): Decoded
    requires WellFormed(s) && TypeOk(s, t)
  {
    DecodeArray(s, t, sizes, b, |b|, Depth(s, t) + 1)
  }

  function ElemsOfType(s: Schema, t: Type, sizes: seq<int>, n: nat, b: seq<byte>): Option<(seq<Value>, seq<byte>)>
    requires WellFormed(s) && TypeOk(s, t)
  {
    DecodeElems(s, t, sizes, n, b, |b|, Depth(s, t) + 1)
  }

  lemma ExtendedByNothing(r: Decoded, r': Decoded)
    requires Extended(r, r', []) && Extended(r', r, [])
    ensures r == r'
  {
    forall a: seq<byte> ensures a + [] == a {}
  }

  /** The bounds that make decoding terminate do not change its result. */
  lemma BoundsDoNotMatter(s: Schema, t: Type, sizes: seq<int>, b: seq<byte>, room: nat, deep: nat)
    requires WellFormed(s) && TypeOk(s, t) && |b| <= room && (t.Struct? ==> Depth(s, t) < deep)
    ensures DecodeArray(s, t, sizes, b, room, deep) == ArrayOf(s, t, sizes, b)
  {
    assert b + [] == b;
    ArrayExtends(s, t, sizes, b, room, deep, [], |b|, Depth(s, t) + 1);
    ArrayExtends(s, t, sizes, b, |b|, Depth(s, t) + 1, [], room, deep);
    hide DecodeArray;
    ExtendedByNothing(DecodeArray(s, t, sizes, b, room, deep), ArrayOf(s, t, sizes, b));
  }

  lemma BoundsDoNotMatterElems(s: Schema, t: Type, sizes: seq<int>, n: nat, b: seq<byte>, room: nat, deep: nat)
    requires WellFormed(s) && TypeOk(s, t) && |b| <= room && (t.Struct? ==> Depth(s, t) < deep)
    ensures DecodeElems(s, t, sizes, n, b, room, deep) == ElemsOfType(s, t, sizes, n, b)
  {
    assert b + [] == b;
    ElemsExtend(s, t, sizes, n, b, room, deep, [], |b|, Depth(s, t) + 1);
    ElemsExtend(s, t, sizes, n, b, |b|, Depth(s, t) + 1, [], room, deep);
    hide DecodeElems;
    forall a: seq<byte> ensures a + [] == a {}
  }

  /** One element, then the others. */
  lemma ElemsStep(s: Schema, t: Type, sizes: seq<int>, n: nat, b: seq<byte>)
    requires WellFormed(s) && TypeOk(s, t) && n > 0
    ensures ElemsOfType(s, t, sizes, n, b) ==
      match ArrayOf(s, t, sizes, b)
      case None => None
      case Some((v, rest)) =>
        match ElemsOfType(s, t, sizes, n - 1, rest)
        case None => None
        case Some((vs, rest')) => Some(([v] + vs, rest'))
  {
    var d := ArrayOf(s, t, sizes, b);
    if d.Some? { BoundsDoNotMatterElems(s, t, sizes, n - 1, d.value.1, |b|, Depth(s, t) + 1); }
  }

  /** The next member of a struct. */
  function MemberAt(s: Schema, name: string, fields: seq<Value>, b: seq<byte>): Decoded
    requires WellFormed(s) && name in s.structs && |fields| < |s.structs[name]|
  {
    var m := s.structs[name][|fields|];
    assert MemberOk(s, name, |fields|);
    ArrayOf(s, m.ty, Sizes(s.structs[name], fields, m.dims), b)
  }

  lemma MemberAlone(s: Schema, name: string, fields: seq<Value>, b: seq<byte>, room: nat)
    requires WellFormed(s) && name in s.structs && |fields| < |s.structs[name]|
      && RoomLeft(s.structs[name], |fields|, |b|, room)
    ensures DecodeMember(s, name, fields, b, room) == MemberAt(s, name, fields, b)
  {
    var ms, i := s.structs[name], |fields|;
    assert MemberOk(s, name, i);
    var sizes := Sizes(ms, fields, ms[i].dims);
    if Fixed(ms[i]) {
      BoundsDoNotMatter(s, ms[i].ty, sizes, b, room, Depth(s, Struct(name)));
    } else {
      VarHasRoom(s, name, i, |b|, room);
    }
  }

  /** One member, then the others. */
  lemma MemberStep(s: Schema, name: string, fields: seq<Value>, b: seq<byte>, room: nat)
    requires WellFormed(s) && name in s.structs && |fields| < |s.structs[name]|
      && RoomLeft(s.structs[name], |fields|, |b|, room)
    ensures var d := MemberAt(s, name, fields, b);
      if d.None? then DecodeFields(s, name, fields, b, room) == None
      else RoomLeft(s.structs[name], |fields| + 1, |d.value.1|, room)
    ensures var d := MemberAt(s, name, fields, b);
      d.Some? ==> DecodeFields(s, name, fields, b, room) == DecodeFields(s, name, fields + [d.value.0], d.value.1, room)
  {
    MemberAlone(s, name, fields, b, room);
    hide MemberAt; hide DecodeMember;
  }

  lemma OneNumber(s: Schema, p: Prim, b: seq<byte>, offset: nat, end: nat)
    requires WellFormed(s) && offset + Width(p) <= end <= |b|
    ensures ArrayOf(s, Scalar(p), [], b[offset..end]) == Some((Num(IntFrom(p, b, offset)), b[offset + Width(p)..end]))
  {
    Reslice(b, offset, end, Width(p));
  }

  lemma ReadIntsTail(p: Prim, b: seq<byte>, offset: nat, n: nat, r: seq<int>)
    requires ReadInts(p, b, offset, n, r) && n > 0
    ensures |r| == n
    ensures offset + Width(p) <= |b| && IntFrom(p, b, offset) == r[0]
      && ReadInts(p, b, offset + Width(p), n - 1, r[1..])
    ensures Width(p) * n == Width(p) + Width(p) * (n - 1)
  {
    var w := Width(p);
    hide IntFrom;
    assert w * n == w + w * (n - 1);
    assert IntFrom(p, b, offset + w * 0) == r[0];
    forall k | 0 <= k < n - 1 ensures IntFrom(p, b, offset + w + w * k) == r[1..][k] {
      assert IntFrom(p, b, offset + w * (k + 1)) == r[k + 1];
      assert w * (k + 1) == w + w * k;
    }
  }

  function Numbers(r: seq<int>): seq<Value> {
    if r == [] then [] else [Num(r[0])] + Numbers(r[1..])
  }

  lemma NoElems(s: Schema, p: Prim, b: seq<byte>, offset: nat, end: nat, r: seq<int>)
    requires WellFormed(s) && offset <= end <= |b| && ReadInts(p, b, offset, 0, r)
    ensures ElemsOfType(s, Scalar(p), [], 0, b[offset..end]) == Some((Numbers(r), b[offset..end]))
  {}

  lemma FirstNumber(s: Schema, p: Prim, r: seq<int>)
    requires r != []
    ensures Numbers(r) == [Num(r[0])] + Numbers(r[1..]) && TypeOk(s, Scalar(p))
  {}

  /** A number decoder run n times over. */
  lemma {:induction false} LeafElems(s: Schema, p: Prim, b: seq<byte>, offset: nat, end: nat, n: nat, r: seq<int>)
    requires WellFormed(s) && offset + Width(p) * n <= end <= |b| && ReadInts(p, b, offset, n, r)
    ensures ElemsOfType(s, Scalar(p), [], n, b[offset..end]) == Some((Numbers(r), b[offset + Width(p) * n..end]))
    decreases n
  {
    hide *;
    if n == 0 {
      NoElems(s, p, b, offset, end, r);
    } else {
      ReadIntsTail(p, b, offset, n, r);
      FirstNumber(s, p, r);
      ElemsStep(s, Scalar(p), [], n, b[offset..end]);
      OneNumber(s, p, b, offset, end);
      LeafElems(s, p, b, offset + Width(p), end, n - 1, r[1..]);
    }
  }

  lemma {:induction false} LeafElemsShort(s: Schema, p: Prim, n: nat, b: seq<byte>)
    requires WellFormed(s)
    ensures ElemsOfType(s, Scalar(p), [], n, b).Some? <==> Width(p) * n <= |b|
    decreases n
  {
    if n > 0 {
      ElemsStep(s, Scalar(p), [], n, b);
      if Width(p) <= |b| { LeafElemsShort(s, p, n - 1, b[Width(p)..]); }
      assert Width(p) * n == Width(p) * (n - 1) + Width(p);
    }
  }

  lemma NumbersAgree(s: Schema, p: Prim, b: seq<byte>, offset: nat, maxlen: nat, n: nat, r: int, ints: seq<int>)
    requires WellFormed(s) && offset + maxlen <= |b| && (r >= 0 <==> Width(p) * n <= maxlen)
    requires r >= 0 ==> r == Width(p) * n && ReadInts(p, b, offset, n, ints)
    ensures var c := b[offset..offset + maxlen]; Agrees(ElemsOfType(s, Scalar(p), [], n, c), c, r, Numbers(ints))
  {
    LeafElemsShort(s, p, n, b[offset..offset + maxlen]);
    if r >= 0 {
      LeafElems(s, p, b, offset, offset + maxlen, n, ints);
      Reslice(b, offset, offset + maxlen, r);
    }
    hide ElemsOfType; hide ReadInts; hide Numbers; hide WellFormed;
  }

  /** __T_decode_array of a number type. */
  method DecodeNumbers(s: Schema, p: Prim, elements: int, buf: array<byte>, offset: nat, maxlen: nat)
      returns (r: int, vs: seq<Value>)
    requires WellFormed(s) && offset + maxlen <= buf.Length
    ensures elements < 0 ==> r < 0
    ensures elements >= 0 ==>
      Agrees(ElemsOfType(s, Scalar(p), [], elements, buf[offset..offset + maxlen]), buf[offset..offset + maxlen], r, vs)
  {
    var ints: seq<int>;
    var w := Width(p);
    if w == 1 { r, ints := Int8DecodeArray(p, buf, offset, maxlen, elements); }
    else if w == 2 { r, ints := Int16DecodeArray(buf, offset, maxlen, elements); }
    else if w == 4 { r, ints := Int32DecodeArray(p, buf, offset, maxlen, elements); }
    else { r, ints := Int64DecodeArray(p, buf, offset, maxlen, elements); }
    vs := Numbers(ints);
    if elements >= 0 {
      assert r >= 0 ==> r == w * elements && ReadInts(p, buf[..], offset, elements, ints);
      assert r >= 0 <==> w * elements <= maxlen;
      NumbersAgree(s, p, buf[..], offset, maxlen, elements, r, ints);
      assert buf[..][offset..offset + maxlen] == buf[offset..offset + maxlen];
    }
  }

  /** The elements decoded so far, in front of the rest. */
  function Prepend(vs: seq<Value>, r: Option<(seq<Value>, seq<byte>)>): Option<(seq<Value>, seq<byte>)> {
    if r.Some? then Some((vs + r.value.0, r.value.1)) else None
  }

  /** What is still to do after the elements vs, with c unread. */
  ghost predicate Going(s: Schema, t: Type, sizes: seq<int>, n: nat, b: seq<byte>, vs: seq<Value>, c: seq<byte>)
    requires WellFormed(s) && TypeOk(s, t)
  {
    |vs| <= n && ElemsOfType(s, t, sizes, n, b) == Prepend(vs, ElemsOfType(s, t, sizes, n - |vs|, c))
  }

  lemma GoingStart(s: Schema, t: Type, sizes: seq<int>, n: nat, b: seq<byte>)
    requires WellFormed(s) && TypeOk(s, t)
    ensures Going(s, t, sizes, n, b, [], b)
  {
    hide ElemsOfType;
    var r := ElemsOfType(s, t, sizes, n, b);
    if r.Some? { assert [] + r.value.0 == r.value.0; }
  }

  lemma GoingStep(s: Schema, t: Type, sizes: seq<int>, n: nat, b: seq<byte>, vs: seq<Value>, c: seq<byte>)
    requires WellFormed(s) && TypeOk(s, t) && Going(s, t, sizes, n, b, vs, c) && |vs| < n
    ensures var d := ArrayOf(s, t, sizes, c);
      if d.None? then ElemsOfType(s, t, sizes, n, b) == None else Going(s, t, sizes, n, b, vs + [d.value.0], d.value.1)
  {
    hide ElemsOfType; hide ArrayOf;
    ElemsStep(s, t, sizes, n - |vs|, c);
    var d := ArrayOf(s, t, sizes, c);
    if d.Some? {
      var r := ElemsOfType(s, t, sizes, n - |vs| - 1, d.value.1);
      if r.Some? { assert vs + ([d.value.0] + r.value.0) == vs + [d.value.0] + r.value.0; }
    }
  }

  lemma GoingDone(s: Schema, t: Type, sizes: seq<int>, n: nat, b: seq<byte>, vs: seq<Value>, c: seq<byte>)
    requires WellFormed(s) && TypeOk(s, t) && Going(s, t, sizes, n, b, vs, c) && |vs| == n
    ensures ElemsOfType(s, t, sizes, n, b) == Some((vs, c))
  {
    assert ElemsOfType(s, t, sizes, 0, c) == Some(([], c)) && vs + [] == vs;
  }

  /** What remains of b after more of it was read. */
  lemma RestOf(b: seq<byte>, pos: nat, r: nat)
    requires pos + r <= |b|
    ensures b[pos..][r..] == b[pos + r..]
  {}

  /** What a decoder of an array of t, told to read `elements` of them, should find. */
  function Expected(s: Schema, t: Type, sizes: seq<int>, b: seq<byte>): Option<(seq<Value>, seq<byte>)>
    requires WellFormed(s) && TypeOk(s, t) && sizes != []
  {
    match Rounds(t, sizes) case None => None case Some(n) => ElemsOfType(s, t, sizes[1..], n, b)
  }

  lemma ArrayOfElems(s: Schema, t: Type, sizes: seq<int>, b: seq<byte>)
    requires WellFormed(s) && TypeOk(s, t) && sizes != []
    ensures ArrayOf(s, t, sizes, b) ==
      match Expected(s, t, sizes, b)
      case None => None
      case Some((vs, rest)) => Some((Arr(vs), rest))
  {}

  /** __string_decode_array */
  method DecodeStrings(s: Schema, elements: int, buf: array<byte>, offset: nat, maxlen: nat)
      returns (r: int, vs: seq<Value>)
    requires WellFormed(s) && offset + maxlen <= buf.Length
    ensures Agrees(Expected(s, Str, [elements], buf[offset..offset + maxlen]), buf[offset..offset + maxlen], r, vs)
  {
    ghost var b := buf[offset..offset + maxlen];
    ghost var n: nat := Rounds(Str, [elements]).value;
    var pos, element := 0, 0;
    vs := [];
    assert b[0..] == b && [elements][1..] == [];
    GoingStart(s, Str, [], n, b);
    while element < elements
      invariant 0 <= element == |vs| <= n && 0 <= pos <= maxlen
      invariant Going(s, Str, [], n, b, vs, b[pos..])
    {
      hide Going; hide ElemsOfType; hide DecodeStr;
      GoingStep(s, Str, [], n, b, vs, b[pos..]);
      assert ArrayOf(s, Str, [], b[pos..]) == DecodeStr(b[pos..]);
      var thislen, v := StringDecode(buf, offset + pos, maxlen - pos);
      assert buf[offset + pos..offset + pos + (maxlen - pos)] == b[pos..];
      if thislen < 0 { return thislen, vs; }
      RestOf(b, pos, thislen);
      pos, element, vs := pos + thislen, element + 1, vs + [v];
    }
    GoingDone(s, Str, [], n, b, vs, b[pos..]);
    return pos, vs;
  }

  /** A single number or string: an array of one. */
  method DecodeLeafOne(s: Schema, t: Type, buf: array<byte>, offset: nat, maxlen: nat) returns (r: int, v: Value)
    requires WellFormed(s) && !t.Struct? && offset + maxlen <= buf.Length
    ensures Agrees(ArrayOf(s, t, [], buf[offset..offset + maxlen]), buf[offset..offset + maxlen], r, v)
  {
    ghost var b := buf[offset..offset + maxlen];
    var vs;
    ElemsStep(s, t, [], 1, b);
    ghost var d := ArrayOf(s, t, [], b);
    if d.Some? { assert ElemsOfType(s, t, [], 0, d.value.1) == Some(([], d.value.1)); }
    assert [1][1..] == [];
    hide ArrayOf; hide ElemsOfType;
    match t {
      case Scalar(p) => r, vs := DecodeNumbers(s, p, 1, buf, offset, maxlen);
      case Str => r, vs := DecodeStrings(s, 1, buf, offset, maxlen);
    }
    v := if |vs| > 0 then vs[0] else Num(0);
  }

  /** The loop body of __T_decode_array for a struct: one member after the other, the
      sizes of arrays taken from the members already read. */
  method DecodeRec(s: Schema, name: string, buf: array<byte>, offset: nat, maxlen: nat) returns (r: int, v: Value)
    requires WellFormed(s) && name in s.structs && offset + maxlen <= buf.Length
    ensures Agrees(Decode(s, Struct(name), buf[offset..offset + maxlen]), buf[offset..offset + maxlen], r, v)
    decreases maxlen, Depth(s, Struct(name)), 1, 0
  {
    ghost var b := buf[offset..offset + maxlen];
    var ms := s.structs[name];
    var fields, pos, i := [], 0, 0;
    v := Rec([]);
    assert b[0..] == b;
    while i < |ms|
      invariant 0 <= i == |fields| <= |ms| && 0 <= pos <= maxlen && RoomLeft(ms, i, |b[pos..]|, |b|)
      invariant DecodeFields(s, name, [], b, |b|) == DecodeFields(s, name, fields, b[pos..], |b|)
    {
      hide DecodeFields; hide ArrayOf;
      MemberStep(s, name, fields, b[pos..], |b|);
      assert MemberOk(s, name, i);
      if !Fixed(ms[i]) { VarHasRoom(s, name, i, |b[pos..]|, |b|); }
      var thislen, field := DecodeArrayAt(s, ms[i].ty, Sizes(ms, fields, ms[i].dims), buf, offset + pos, maxlen - pos);
      assert buf[offset + pos..offset + pos + (maxlen - pos)] == b[pos..];
      if thislen < 0 { return thislen, v; }
      RestOf(b, pos, thislen);
      pos, i, fields := pos + thislen, i + 1, fields + [field];
    }
    return pos, Rec(fields);
  }

  /** __T_decode_array for a struct. */
  method DecodeRecs(s: Schema, name: string, elements: int, buf: array<byte>, offset: nat, maxlen: nat)
      returns (r: int, vs: seq<Value>)
    requires WellFormed(s) && name in s.structs && offset + maxlen <= buf.Length
    ensures var b := buf[offset..offset + maxlen]; Agrees(Expected(s, Struct(name), [elements], b), b, r, vs)
    decreases maxlen, Depth(s, Struct(name)), 2, 0
  {
    ghost var b, t := buf[offset..offset + maxlen], Struct(name);
    ghost var n: nat := Rounds(t, [elements]).value;
    var pos, element := 0, 0;
    vs := [];
    assert b[0..] == b && [elements][1..] == [];
    GoingStart(s, t, [], n, b);
    while element < elements
      invariant 0 <= element == |vs| <= n && 0 <= pos <= maxlen
      invariant Going(s, t, [], n, b, vs, b[pos..])
    {
      hide Going; hide ElemsOfType; hide Decode;
      GoingStep(s, t, [], n, b, vs, b[pos..]);
      assert ArrayOf(s, t, [], b[pos..]) == Decode(s, t, b[pos..]);
      var thislen, v := DecodeRec(s, name, buf, offset + pos, maxlen - pos);
      assert buf[offset + pos..offset + pos + (maxlen - pos)] == b[pos..];
      if thislen < 0 { return thislen, vs; }
      RestOf(b, pos, thislen);
      pos, element, vs := pos + thislen, element + 1, vs + [v];
    }
    GoingDone(s, t, [], n, b, vs, b[pos..]);
    return pos, vs;
  }

  /** The loops over all dimensions but the last, around one call for the last. */
  method DecodeArrayAt(s: Schema, t: Type, sizes: seq<int>, buf: array<byte>, offset: nat, maxlen: nat)
      returns (r: int, v: Value)
    requires WellFormed(s) && TypeOk(s, t) && offset + maxlen <= buf.Length
    ensures Agrees(ArrayOf(s, t, sizes, buf[offset..offset + maxlen]), buf[offset..offset + maxlen], r, v)
    decreases maxlen, Depth(s, t), 3, 2 * |sizes|
  {
    ghost var b := buf[offset..offset + maxlen];
    var vs;
    if |sizes| == 0 {
      assert sizes == [];
      if t.Struct? {
        r, v := DecodeRec(s, t.name, buf, offset, maxlen);
      } else {
        r, v := DecodeLeafOne(s, t, buf, offset, maxlen);
      }
    } else if |sizes| == 1 {
      assert sizes == [sizes[0]] && sizes[1..] == [];
      hide ElemsOfType; hide ArrayOf;
      ArrayOfElems(s, t, sizes, b);
      match t {
        case Scalar(p) => r, vs := DecodeNumbers(s, p, sizes[0], buf, offset, maxlen);
        case Str => r, vs := DecodeStrings(s, sizes[0], buf, offset, maxlen);
        case Struct(name) => r, vs := DecodeRecs(s, name, sizes[0], buf, offset, maxlen);
      }
      v := Arr(vs);
    } else {
      hide ElemsOfType; hide ArrayOf;
      ArrayOfElems(s, t, sizes, b);
      r, vs := DecodeRows(s, t, sizes, buf, offset, maxlen);
      v := Arr(vs);
    }
  }

  /** for (a = 0; a < n; a++) around the inner loops */
  method DecodeRows(s: Schema, t: Type, sizes: seq<int>, buf: array<byte>, offset: nat, maxlen: nat)
      returns (r: int, vs: seq<Value>)
    requires WellFormed(s) && TypeOk(s, t) && |sizes| > 1 && offset + maxlen <= buf.Length
    ensures Agrees(Expected(s, t, sizes, buf[offset..offset + maxlen]), buf[offset..offset + maxlen], r, vs)
    decreases maxlen, Depth(s, t), 3, 2 * |sizes| - 1
  {
    hide Going; hide ElemsOfType; hide ArrayOf;
    ghost var b := buf[offset..offset + maxlen];
    ghost var n: nat := Rounds(t, sizes).value;
    var pos, a := 0, 0;
    vs := [];
    assert b[0..] == b;
    GoingStart(s, t, sizes[1..], n, b);
    while a < sizes[0]
      invariant 0 <= a == |vs| <= n && 0 <= pos <= maxlen
      invariant Going(s, t, sizes[1..], n, b, vs, b[pos..])
    {
      GoingStep(s, t, sizes[1..], n, b, vs, b[pos..]);
      var thislen, v := DecodeArrayAt(s, t, sizes[1..], buf, offset + pos, maxlen - pos);
      assert buf[offset + pos..offset + pos + (maxlen - pos)] == b[pos..];
      if thislen < 0 { return thislen, vs; }
      RestOf(b, pos, thislen);
      pos, a, vs := pos + thislen, a + 1, vs + [v];
    }
    GoingDone(s, t, sizes[1..], n, b, vs, b[pos..]);
    return pos, vs;
  }
}
