/** Struct declarations in upstream/lcmgen/lcmgen.c: from tokens to members and
    constants. */
module Parser {
  import opened Schema
  import opened Fingerprint
  import opened Wrappers

  /** Tokens are not empty. */
  type Token = s: string | s != "" witness "x"

  datatype Constant = Constant(ty: string, name: string, value: string)

  /** lcm_struct_t under construction. */
  datatype Decl = Decl(members: seq<Member>, constants: seq<Constant>)

  /** The last package directive, strtol, and whether a token is a value of a const type. */
  datatype Env = Env(package: string, strtol: string -> int, isValue: (string, string) -> bool)

  predicate IsDigit(c: char) { '0' <= c <= '9' }

  predicate IsAlpha(c: char) { 'a' <= c <= 'z' || 'A' <= c <= 'Z' }

  /** lcm_is_legal_member_name, also asked of type names */
  predicate LegalName(t: Token) { IsAlpha(t[0]) || t[0] == '_' }

  /** lcm_is_legal_const_type */
  predicate ConstType(t: string) { t in ["int8_t", "int16_t", "int32_t", "int64_t", "float", "double"] }

  /** lcm_typename_create: a primitive type, or a struct with its package. */
  function TypeOf(env: Env, t: Token): Type {
    if t == "int8_t" then Scalar(Int8) else if t == "int16_t" then Scalar(Int16)
    else if t == "int32_t" then Scalar(Int32) else if t == "int64_t" then Scalar(Int64)
    else if t == "byte" then Scalar(ByteT) else if t == "float" then Scalar(Float)
    else if t == "double" then Scalar(Double) else if t == "string" then Str
    else if t == "boolean" then Scalar(Boolean)
    else if '.' in t || env.package == "" then Struct(t)
    else Struct(env.package + "." + t)
  }

  const PRIMITIVES := ["int8_t", "int16_t", "int32_t", "int64_t", "byte", "float", "double", "string", "boolean"]

  /** The word a primitive type is hashed with is the one it is declared with. */
  lemma PrimitiveDeclared(env: Env, t: Type)
    requires !t.Struct?
    ensures PrimName(t) in PRIMITIVES && TypeOf(env, PrimName(t)) == t
  {}

  /** Every other word is a struct: as it stands if it has a package or there is none, and
      else of the package at hand. */
  lemma StructDeclared(env: Env, t: Token)
    requires t !in PRIMITIVES
    ensures '.' in t || env.package == "" ==> TypeOf(env, t) == Struct(t)
    ensures '.' !in t && env.package != "" ==> TypeOf(env, t) == Struct(env.package + ['.'] + t)
  {}

  lemma OneType(env: Env, t: Token)
    ensures TypeOf(env, t).Struct? <==> t !in PRIMITIVES
    ensures !TypeOf(env, t).Struct? ==> PrimName(TypeOf(env, t)) == t
  {}

  predicate Taken(d: Decl, name: string) {
    (exists i :: 0 <= i < |d.members| && d.members[i].name == name)
    || (exists i :: 0 <= i < |d.constants| && d.constants[i].name == name)
  }

  // ----- the grammar as functions of the tokens left -----

  type Parsed = Option<(Decl, seq<Token>)>

  function AddMember(d: Decl, m: Member): Decl { d.(members := d.members + [m]) }

  /** One more dimension for the last member. */
  function AddDim(d: Decl, dim: Dim): Decl
    requires d.members != []
  {
    var n := |d.members| - 1;
    d.(members := d.members[n := d.members[n].(dims := d.members[n].dims + [dim])])
  }

  /** A size token: a positive number, or a declared scalar of integer type. */
  function DimOf(env: Env, d: Decl, t: Token): Option<Dim> {
    if IsDigit(t[0]) then (if env.strtol(t) <= 0 then None else Some(Const(t, env.strtol(t))))
    else if !LegalName(t) then None
    else match IndexOf(d.members, t)
      case None => None
      case Some(i) => if d.members[i].dims != [] || !MayBeSize(d.members[i].ty) then None else Some(Var(t))
  }

  /** The dimensions of the last member. */
  function ParseDims(env: Env, d: Decl, ts: seq<Token>): (r: Parsed)
    requires d.members != []
    ensures r.Some? ==> |r.value.1| <= |ts| && r.value.1 != [] && |r.value.0.members| == |d.members|
    decreases |ts|
  {
    if ts == [] then None
    else if ts[0] != "[" then Some((d, ts))
    else if |ts| < 2 then None
    else match DimOf(env, d, ts[1])
      case None => None
      case Some(dim) => if |ts| < 3 || ts[2] != "]" then None else ParseDims(env, AddDim(d, dim), ts[3..])
  }

  /** Members of one type up to the semicolon. */
  function ParseDeclarators(env: Env, d: Decl, ty: Type, ts: seq<Token>): (r: Parsed)
    ensures r.Some? ==> |r.value.1| < |ts|
    decreases |ts|
  {
    if ts == [] || !LegalName(ts[0]) || Taken(d, ts[0]) then None
    else match ParseDims(env, AddMember(d, Member(ts[0], ty, [])), ts[1..])
      case None => None
      case Some((d', rest)) =>
        if rest[0] == "," then ParseDeclarators(env, d', ty, rest[1..])
        else if rest[0] == ";" then Some((d', rest[1..]))
        else None
  }

  /** Constants of one type up to the semicolon. */
  function ParseConstants(env: Env, d: Decl, ty: Token, ts: seq<Token>): (r: Parsed)
    ensures r.Some? ==> |r.value.1| < |ts|
    decreases |ts|
  {
    if ts == [] || !LegalName(ts[0]) || Taken(d, ts[0]) then None
    else if |ts| < 3 || ts[1] != "=" || !env.isValue(ty, ts[2]) then None
    else
      var d' := d.(constants := d.constants + [Constant(ty, ts[0], ts[2])]);
      if |ts| < 4 then None
      else if ts[3] == "," then ParseConstants(env, d', ty, ts[4..])
      else if ts[3] == ";" then Some((d', ts[4..]))
      else None
  }

  /** parse_member */
  function ParseMember(env: Env, d: Decl, ts: seq<Token>): (r: Parsed)
    ensures r.Some? ==> |r.value.1| < |ts|
  {
    if ts == [] || ts[0] == "struct" || ts[0] == "enum" || ts[0] == "union" then None
    else if ts[0] == "const" then
      if |ts| < 2 || !ConstType(ts[1]) then None else ParseConstants(env, d, ts[1], ts[2..])
    else if !LegalName(ts[0]) then None
    else ParseDeclarators(env, d, TypeOf(env, ts[0]), ts[1..])
  }

  function ParseMembers(env: Env, d: Decl, ts: seq<Token>): (r: Parsed)
    ensures r.Some? ==> |r.value.1| < |ts|
    decreases |ts|
  {
    if ts == [] then None
    else if ts[0] == "}" then Some((d, ts[1..]))
    else match ParseMember(env, d, ts)
      case None => None
      case Some((d', rest)) => ParseMembers(env, d', rest)
  }

  /** parse_struct, the token "struct" already consumed. */
  function ParseStruct(env: Env, ts: seq<Token>): Parsed {
    if |ts| < 2 || ts[1] != "{" then None else ParseMembers(env, Decl([], []), ts[2..])
  }

  // ----- what is accepted -----

  predicate DistinctNames(d: Decl) {
    && (forall i, j :: 0 <= i < j < |d.members| ==> d.members[i].name != d.members[j].name)
    && (forall i, j :: 0 <= i < j < |d.constants| ==> d.constants[i].name != d.constants[j].name)
    && (forall i, j :: 0 <= i < |d.members| && 0 <= j < |d.constants| ==> d.members[i].name != d.constants[j].name)
  }

  /** A constant size is positive. A variable one is an integer member that comes
      before and is no array, or, for a first dimension, the member itself. */
  predicate DimAccepted(ms: seq<Member>, i: nat, k: nat)
    requires i < |ms| && k < |ms[i].dims|
  {
    match ms[i].dims[k]
    case Const(_, size) => size > 0
    case Var(name) =>
      match IndexOf(ms, name)
      case None => false
      case Some(j) => MayBeSize(ms[j].ty) && ((j < i && ms[j].dims == []) || (j == i && k == 0))
  }

  predicate DimsAccepted(ms: seq<Member>, i: nat)
    requires i < |ms|
  {
    forall k :: 0 <= k < |ms[i].dims| ==> DimAccepted(ms, i, k)
  }

  ghost predicate Accepted(d: Decl) {
    DistinctNames(d) && forall i :: 0 <= i < |d.members| ==> DimsAccepted(d.members, i)
  }

  lemma {:induction false} IndexOfAppend(ms: seq<Member>, m: Member, name: string)
    ensures IndexOf(ms, name).Some? ==> IndexOf(ms + [m], name) == IndexOf(ms, name)
    ensures IndexOf(ms, name) == None ==> IndexOf(ms + [m], name) == if m.name == name then Some(|ms|) else None
  {
    if ms == [] {
      assert [m][1..] == [];
      assert ms + [m] == [m];
    } else {
      assert (ms + [m])[1..] == ms[1..] + [m];
      IndexOfAppend(ms[1..], m, name);
    }
  }

  /** Positions depend on the names only. */
  lemma {:induction false} IndexOfSameNames(ms: seq<Member>, ms': seq<Member>, name: string)
    requires |ms| == |ms'| && forall i :: 0 <= i < |ms| ==> ms[i].name == ms'[i].name
    ensures IndexOf(ms, name) == IndexOf(ms', name)
  {
    if ms != [] { IndexOfSameNames(ms[1..], ms'[1..], name); }
  }

  lemma AddMemberAccepted(d: Decl, name: string, ty: Type)
    requires Accepted(d) && !Taken(d, name)
    ensures Accepted(AddMember(d, Member(name, ty, [])))
  {
    var m := Member(name, ty, []);
    var ms := d.members + [m];
    forall i | 0 <= i < |ms| ensures DimsAccepted(ms, i) {
      forall k | 0 <= k < |ms[i].dims| ensures DimAccepted(ms, i, k) {
        assert i < |d.members| && DimsAccepted(d.members, i) && DimAccepted(d.members, i, k);
        if ms[i].dims[k].Var? { IndexOfAppend(d.members, m, ms[i].dims[k].member); }
      }
    }
  }

  lemma AddDimAccepted(env: Env, d: Decl, t: Token)
    requires Accepted(d) && d.members != [] && DimOf(env, d, t).Some?
    ensures Accepted(AddDim(d, DimOf(env, d, t).value))
  {
    var dim, n := DimOf(env, d, t).value, |d.members| - 1;
    var ms, ms' := d.members, AddDim(d, dim).members;
    forall i | 0 <= i < |ms'| ensures DimsAccepted(ms', i) {
      forall k | 0 <= k < |ms'[i].dims| ensures DimAccepted(ms', i, k) {
        if ms'[i].dims[k].Var? { IndexOfSameNames(ms, ms', ms'[i].dims[k].member); }
        if k < |ms[i].dims| {
          assert DimsAccepted(ms, i) && DimAccepted(ms, i, k) && ms'[i].dims[k] == ms[i].dims[k];
        }
      }
    }
  }

  lemma {:induction false} DimsParsed(env: Env, d: Decl, ts: seq<Token>)
    requires d.members != [] && Accepted(d) && ParseDims(env, d, ts).Some?
    ensures Accepted(ParseDims(env, d, ts).value.0)
    decreases |ts|
  {
    if ts[0] == "[" {
      AddDimAccepted(env, d, ts[1]);
      DimsParsed(env, AddDim(d, DimOf(env, d, ts[1]).value), ts[3..]);
    }
  }

  lemma {:induction false} DeclaratorsParsed(env: Env, d: Decl, ty: Type, ts: seq<Token>)
    requires Accepted(d) && ParseDeclarators(env, d, ty, ts).Some?
    ensures Accepted(ParseDeclarators(env, d, ty, ts).value.0)
    decreases |ts|
  {
    AddMemberAccepted(d, ts[0], ty);
    var d1 := AddMember(d, Member(ts[0], ty, []));
    DimsParsed(env, d1, ts[1..]);
    var (d', rest) := ParseDims(env, d1, ts[1..]).value;
    if rest[0] == "," { DeclaratorsParsed(env, d', ty, rest[1..]); }
  }

  lemma {:induction false} ConstantsParsed(env: Env, d: Decl, ty: Token, ts: seq<Token>)
    requires Accepted(d) && ParseConstants(env, d, ty, ts).Some?
    ensures Accepted(ParseConstants(env, d, ty, ts).value.0)
    decreases |ts|
  {
    var d' := d.(constants := d.constants + [Constant(ty, ts[0], ts[2])]);
    assert Accepted(d');
    if ts[3] == "," { ConstantsParsed(env, d', ty, ts[4..]); }
  }

  lemma {:induction false} MembersParsed(env: Env, d: Decl, ts: seq<Token>)
    requires Accepted(d) && ParseMembers(env, d, ts).Some?
    ensures Accepted(ParseMembers(env, d, ts).value.0)
    decreases |ts|
  {
    if ts[0] != "}" {
      var r := ParseMember(env, d, ts).value;
      if ts[0] == "const" {
        ConstantsParsed(env, d, ts[1], ts[2..]);
      } else {
        DeclaratorsParsed(env, d, TypeOf(env, ts[0]), ts[1..]);
      }
      MembersParsed(env, r.0, r.1);
    }
  }

  /** Every struct the parser accepts has distinct names, and sizes that mean
      something. */
  lemma StructParsed(env: Env, ts: seq<Token>)
    requires ParseStruct(env, ts).Some?
    ensures Accepted(ParseStruct(env, ts).value.0)
  {
    MembersParsed(env, Decl([], []), ts[2..]);
  }

  /** int32_t n[n]; */
  predicate SizesItself(ms: seq<Member>, i: nat)
    requires i < |ms|
  {
    ms[i].dims != [] && ms[i].dims[0] == Var(ms[i].name)
  }

  /** An accepted struct has the sizes the codec needs exactly when no member is its
      own size. */
  lemma CodecReadyExactly(d: Decl)
    requires Accepted(d)
    ensures (forall i, k :: 0 <= i < |d.members| && 0 <= k < |d.members[i].dims| ==>
      DimOk(d.members, i, d.members[i].dims[k]))
       <==> forall i :: 0 <= i < |d.members| ==> !SizesItself(d.members, i)
  {
    var ms := d.members;
    forall i | 0 <= i < |ms|
      ensures SizesItself(ms, i) ==> !DimOk(ms, i, ms[i].dims[0])
      ensures !SizesItself(ms, i) ==> forall k :: 0 <= k < |ms[i].dims| ==> DimOk(ms, i, ms[i].dims[k])
    {
      assert DimsAccepted(ms, i);
      forall k | 0 <= k < |ms[i].dims| && !SizesItself(ms, i) ensures DimOk(ms, i, ms[i].dims[k]) {
        assert DimAccepted(ms, i, k);
      }
    }
  }

  lemma {:induction false} IndexOfPrefix(ms: seq<Member>, i: nat, name: string)
    requires i <= |ms|
    ensures IndexOf(ms, name).Some? && IndexOf(ms, name).value < i ==> IndexOf(ms[..i], name) == IndexOf(ms, name)
    ensures IndexOf(ms, name) == None || IndexOf(ms, name).value >= i ==> IndexOf(ms[..i], name) == None
  {
    if i > 0 {
      IndexOfPrefix(ms[1..], i - 1, name);
      assert ms[..i][1..] == ms[1..][..i - 1];
    }
  }
}
