/** Message types as lcm-gen sees them, and the values they describe. */
module Schema {
  import opened Bytes
  import opened Wrappers

  /** The primitive types of upstream/lcmgen/lcmgen.c, without string. Floats are
      carried as the integers with the same bits. */
  datatype Prim = ByteT | Boolean | Int8 | Int16 | Int32 | Int64 | Float | Double

  datatype Type = Scalar(prim: Prim) | Str | Struct(name: string)

  /** lcm_dimension_t; a constant size keeps the token it was written with. */
  datatype Dim = Const(token: string, size: nat) | Var(member: string)

  datatype Member = Member(name: string, ty: Type, dims: seq<Dim>)

  /** The declared structs, and how deep each one nests structs by value. */
  datatype Schema = Schema(structs: map<string, seq<Member>>, depth: map<string, nat>)

  datatype Value = Num(v: int) | Text(s: seq<byte>) | Rec(fields: seq<Value>) | Arr(elems: seq<Value>)

  function Width(p: Prim): (w: nat)
    ensures 1 <= w <= 8
  {
    match p
    case ByteT => 1
    case Boolean => 1
    case Int8 => 1
    case Int16 => 2
    case Int32 => 4
    case Int64 => 8
    case Float => 4
    case Double => 8
  }

  /** array_dimension_types */
  predicate MayBeSize(t: Type) { t.Scalar? && t.prim in {Int8, Int16, Int32, Int64} }

  function IndexOf(ms: seq<Member>, name: string): (r: Option<nat>)
    ensures r.Some? ==>
      r.value < |ms| && ms[r.value].name == name && forall j :: 0 <= j < r.value ==> ms[j].name != name
    ensures r.None? ==> forall j :: 0 <= j < |ms| ==> ms[j].name != name
  {
    if ms == [] then None
    else if ms[0].name == name then Some(0)
    else match IndexOf(ms[1..], name) case None => None case Some(j) => Some(j + 1)
  }

  // ----- well-formed schemas -----

  /** The size names an earlier scalar integer member. */
  predicate DimOk(ms: seq<Member>, i: nat, d: Dim) {
    d.Const? ||
    match IndexOf(ms, d.member)
    case None => false
    case Some(j) => j < i && ms[j].dims == [] && MayBeSize(ms[j].ty)
  }

  predicate Fixed(m: Member) { forall k :: 0 <= k < |m.dims| ==> m.dims[k].Const? }

  /** 0 for primitive types. */
  function Depth(s: Schema, t: Type): nat {
    if !t.Struct? then 0 else if t.name in s.depth then s.depth[t.name] + 1 else 1
  }

  /** C lays out arrays of constant size in place, so those may not contain the
      struct itself; arrays of variable size are pointers and may. */
  predicate MemberOk(s: Schema, name: string, i: nat)
    requires name in s.structs && i < |s.structs[name]|
  {
    var m := s.structs[name][i];
    && (forall k :: 0 <= k < |m.dims| ==> DimOk(s.structs[name], i, m.dims[k]))
    && (m.ty.Struct? ==> m.ty.name in s.structs && (Fixed(m) ==> Depth(s, m.ty) < Depth(s, Struct(name))))
  }

  predicate StructOk(s: Schema, name: string)
    requires name in s.structs
  {
    forall i :: 0 <= i < |s.structs[name]| ==> MemberOk(s, name, i)
  }

  ghost predicate WellFormed(s: Schema) {
    forall name :: name in s.structs ==> StructOk(s, name)
  }

  predicate TypeOk(s: Schema, t: Type) { t.Struct? ==> t.name in s.structs }

  // ----- values of a type -----

  function DimSize(ms: seq<Member>, fields: seq<Value>, d: Dim): int {
    if d.Const? then d.size
    else
      match IndexOf(ms, d.member)
      case None => 0
      case Some(j) => if j < |fields| && fields[j].Num? then fields[j].v else 0
  }

  function Sizes(ms: seq<Member>, fields: seq<Value>, dims: seq<Dim>): (r: seq<int>)
    ensures |r| == |dims|
  {
    seq(|dims|, k requires 0 <= k < |dims| => DimSize(ms, fields, dims[k]))
  }

  predicate IntFits(v: int, w: nat)
    requires w > 0
  {
    Fits(v, w)
  }

  predicate InRange(p: Prim, v: int) {
    if p == ByteT then 0 <= v < 256 else IntFits(v, Width(p))
  }

  /** How often the loop over the first dimension runs. A negative size runs it not
      at all, except that the loops over numbers return the negative length. */
  function Rounds(t: Type, sizes: seq<int>): Option<nat>
    requires sizes != []
  {
    if sizes[0] >= 0 then Some(sizes[0]) else if t.Scalar? && |sizes| == 1 then None else Some(0)
  }

  /** v is a value of type t whose arrays have the lengths their sizes say. */
  predicate IsValue(s: Schema, t: Type, v: Value)
    decreases v, 0
  {
    match t
    case Scalar(p) => v.Num? && InRange(p, v.v)
    case Str => v.Text? && 0 !in v.s && |v.s| + 1 < 0x8000_0000
    case Struct(n) =>
      && n in s.structs && v.Rec? && |v.fields| == |s.structs[n]|
      && forall i :: 0 <= i < |v.fields| ==>
           IsArray(s, s.structs[n][i].ty, Sizes(s.structs[n], v.fields, s.structs[n][i].dims), v.fields[i])
  }

  predicate IsArray(s: Schema, t: Type, sizes: seq<int>, v: Value)
    decreases v, 1
  {
    if sizes == [] then IsValue(s, t, v)
    else
      && v.Arr? && Rounds(t, sizes) == Some(|v.elems|)
      && forall k :: 0 <= k < |v.elems| ==> IsArray(s, t, sizes[1..], v.elems[k])
  }

  /** Sizes read from the members before i do not change as later members are added. */
  lemma SizesOfPrefix(ms: seq<Member>, fields: seq<Value>, i: nat, dims: seq<Dim>)
    requires i <= |fields| && i < |ms| && forall k :: 0 <= k < |dims| ==> DimOk(ms, i, dims[k])
    ensures Sizes(ms, fields[..i], dims) == Sizes(ms, fields, dims)
  {
    forall k | 0 <= k < |dims| ensures DimSize(ms, fields[..i], dims[k]) == DimSize(ms, fields, dims[k]) {}
  }
}
