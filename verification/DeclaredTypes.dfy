/** What a type word in a declaration means: the numbers a member can hold, and their
    bytes in a message. */
module DeclaredTypes {
  import opened Bytes
  import opened Codec
  import opened CodecRoundTrip
  import opened Fingerprint
  import opened Messages
  import opened Parser
  import opened Schema
  import opened Wrappers

  lemma IntegerRanges(env: Env, s: Schema, v: int)
    ensures IsValue(s, TypeOf(env, "int8_t"), Num(v)) <==> -0x80 <= v < 0x80
    ensures IsValue(s, TypeOf(env, "int16_t"), Num(v)) <==> -0x8000 <= v < 0x8000
    ensures IsValue(s, TypeOf(env, "int32_t"), Num(v)) <==> -0x8000_0000 <= v < 0x8000_0000
    ensures IsValue(s, TypeOf(env, "int64_t"), Num(v)) <==> -0x8000_0000_0000_0000 <= v < 0x8000_0000_0000_0000
    ensures IsValue(s, TypeOf(env, "byte"), Num(v)) <==> 0 <= v < 0x100
    ensures IsValue(s, TypeOf(env, "boolean"), Num(v)) <==> -0x80 <= v < 0x80
  {
    Pow256Values();
  }

  /** The bits of a float or double travel as an integer of the same size. */
  lemma FloatRanges(env: Env, s: Schema, v: int)
    ensures IsValue(s, TypeOf(env, "float"), Num(v)) <==> -0x8000_0000 <= v < 0x8000_0000
    ensures IsValue(s, TypeOf(env, "double"), Num(v)) <==> -0x8000_0000_0000_0000 <= v < 0x8000_0000_0000_0000
  {
    Pow256Values();
  }

  lemma OneByte(v: int)
    ensures EncodeInt(v, 1) == [v % 256] && EncodeInt(v, 2) == [v / 256 % 256, v % 256]
  {
    assert EncodeInt(v / 256, 1) == [v / 256 % 256];
  }

  function High32(v: int): int { v / 0x1_0000_0000 }

  function Four(v: int): seq<byte> { [v / 0x100_0000 % 256, v / 0x1_0000 % 256, v / 0x100 % 256, v % 256] }

  lemma EightAsFours(v: int)
    ensures EncodeInt(v, 8) == Four(High32(v)) + Four(v)
  {
    hide EncodeInt;
    EncodeIntSplit(v, 4, 4);
    FourBytes(High32(v));
    FourBytes(v);
  }

  /** Most significant byte first. */
  lemma NumberBytes(env: Env, s: Schema, v: int)
    ensures Encode(s, TypeOf(env, "int8_t"), Num(v)) == [v % 256]
    ensures Encode(s, TypeOf(env, "byte"), Num(v)) == [v % 256]
    ensures Encode(s, TypeOf(env, "boolean"), Num(v)) == [v % 256]
    ensures Encode(s, TypeOf(env, "int16_t"), Num(v)) == [v / 256 % 256, v % 256]
    ensures Encode(s, TypeOf(env, "int32_t"), Num(v)) == Four(v)
    ensures Encode(s, TypeOf(env, "float"), Num(v)) == Four(v)
    ensures Encode(s, TypeOf(env, "int64_t"), Num(v)) == Four(High32(v)) + Four(v)
    ensures Encode(s, TypeOf(env, "double"), Num(v)) == Four(High32(v)) + Four(v)
  {
    hide EncodeInt;
    OneByte(v);
    FourBytes(v);
    EightAsFours(v);
  }

  lemma StringRange(env: Env, s: Schema, v: Value)
    ensures IsValue(s, TypeOf(env, "string"), v) <==> v.Text? && 0 !in v.s && |v.s| <= 0x7FFF_FFFE
  {}

  /** A string is its length with the NUL in four bytes, its bytes, and the NUL. */
  lemma StringBytes(env: Env, s: Schema, text: seq<byte>)
    ensures Encode(s, TypeOf(env, "string"), Text(text)) == Four(|text| + 1) + text + [0]
  {
    FourBytes(|text| + 1);
  }

  /** An array size is a member of one of these four types that is no array. */
  lemma SizeTypes(env: Env, t: Token)
    ensures MayBeSize(TypeOf(env, t)) <==> t in ["int8_t", "int16_t", "int32_t", "int64_t"]
  {}

  /** A message is the 64 bits of its type's fingerprint, most significant byte first, and
      then its members in the order declared. */
  lemma MessageBytes(s: Schema, name: string, v: Value)
    requires WellFormed(s) && name in s.structs && v.Rec?
    ensures Closed(s) && Message(s, name, v) ==
      Four(High32(FingerprintOf(s, name))) + Four(FingerprintOf(s, name)) + EncodeFields(s, s.structs[name], v.fields)
  {
    hide EncodeInt; hide EncodeFields; hide FingerprintOf;
    WellFormedIsClosed(s);
    EightAsFours(FingerprintOf(s, name));
  }

  // ----- an example -----

  /** struct list { int32_t n; int8_t a[n]; }
      struct tree { list keys; int16_t n; tree below[n]; string names[2][n]; } */
  function Example(): Schema {
    Schema(
      map["list" := [Member("n", Scalar(Int32), []), Member("a", Scalar(Int8), [Var("n")])],
          "tree" := [Member("keys", Struct("list"), []), Member("n", Scalar(Int16), []),
                     Member("below", Struct("tree"), [Var("n")]), Member("names", Str, [Const("2", 2), Var("n")])]],
      map["list" := 0, "tree" := 1])
  }

  lemma ExampleList()
    ensures StructOk(Example(), "list")
  {
    var s := Example();
    assert IndexOf(s.structs["list"], "n") == Some(0);
    assert MemberOk(s, "list", 0) && MemberOk(s, "list", 1);
  }

  lemma ExampleTree()
    ensures StructOk(Example(), "tree")
  {
    var s := Example();
    var tree := s.structs["tree"];
    assert IndexOf(tree, "n") == Some(1) by { assert tree[1..][0].name == "n"; }
    assert tree[2].dims[0].Var?;
    assert !Fixed(tree[2]);
    assert MemberOk(s, "tree", 0);
    assert MemberOk(s, "tree", 2);
  }

  /** Nested structs, structs that contain themselves, and arrays of arrays are allowed. */
  lemma ExampleWellFormed()
    ensures WellFormed(Example())
  {
    hide StructOk;
    ExampleList();
    ExampleTree();
  }

  lemma ExampleIsValue()
    ensures IsValue(Example(), Struct("list"), Rec([Num(2), Arr([Num(7), Num(8)])]))
  {
    assert IndexOf(Example().structs["list"], "n") == Some(0);
    Pow256Values();
  }

  lemma ExampleBytes()
    ensures Encode(Example(), Struct("list"), Rec([Num(2), Arr([Num(7), Num(8)])])) == [0, 0, 0, 2, 7, 8]
  {
    hide EncodeInt;
    var s := Example();
    FourBytes(2);
    OneByte(7);
    OneByte(8);
    var elems := [Num(7), Num(8)];
    assert EncodeElems(s, Scalar(Int8), 0, elems) == [7, 8] by { assert elems[1..] == [Num(8)]; }
    assert EncodeFields(s, s.structs["list"][1..], [Arr(elems)]) == [7, 8];
  }

  /** n = 2, a = {7, 8} */
  lemma ExampleValue()
    ensures WellFormed(Example())
    ensures Decode(Example(), Struct("list"), [0, 0, 0, 2, 7, 8]) == Some((Rec([Num(2), Arr([Num(7), Num(8)])]), []))
  {
    hide Encode; hide Decode; hide WellFormed; hide IsValue;
    ExampleWellFormed();
    ExampleIsValue();
    ExampleBytes();
    var v := Rec([Num(2), Arr([Num(7), Num(8)])]);
    RoundTrip(Example(), Struct("list"), v, []);
    assert Encode(Example(), Struct("list"), v) + [] == Encode(Example(), Struct("list"), v);
  }
}
