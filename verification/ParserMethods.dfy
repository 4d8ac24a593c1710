/** The parsing functions of upstream/lcmgen/lcmgen.c as they run: a tokenizer that
    moves on, and a struct whose lists grow. False stands for the error exits. */
module ParserMethods {
  import opened Schema
  import opened Wrappers
  import P = Parser

  type Token = P.Token

  class Tokenizer {
    const tokens: seq<Token>
    var pos: nat

    ghost predicate Valid()
      reads this
    {
      pos <= |tokens|
    }

    ghost function Left(): seq<Token>
      requires Valid()
      reads this
    {
      tokens[pos..]
    }

    constructor (tokens: seq<Token>)
      ensures Valid() && Left() == tokens
    {
      this.tokens, pos := tokens, 0;
    }

    /** tokenize_next; None at the end of the file. */
    method Next() returns (r: Option<Token>)
      requires Valid()
      modifies this
      ensures Valid()
      ensures if old(Left()) == [] then r == None && Left() == []
        else r == Some(old(Left())[0]) && Left() == old(Left())[1..]
    {
      if pos == |tokens| { return None; }
      r := Some(tokens[pos]);
      pos := pos + 1;
    }

    /** parse_try_consume; None at the end of the file. */
    method TryConsume(tok: Token) returns (r: Option<bool>)
      requires Valid()
      modifies this
      ensures Valid() && (r == None <==> old(Left()) == [])
      ensures r.Some? ==>
        r.value == (old(Left())[0] == tok) && Left() == if r.value then old(Left())[1..] else old(Left())
    {
      if pos == |tokens| { return None; }
      if tokens[pos] != tok { return Some(false); }
      pos := pos + 1;
      return Some(true);
    }

    /** parse_require */
    method Require(tok: Token) returns (ok: bool)
      requires Valid()
      modifies this
      ensures Valid() && (ok <==> old(Left()) != [] && old(Left())[0] == tok)
      ensures ok ==> Left() == old(Left())[1..]
    {
      if pos == |tokens| || tokens[pos] != tok { return false; }
      pos := pos + 1;
      return true;
    }
  }

  /** What a parsing method did: its function's result, or an error. */
  predicate Did(r: P.Parsed, ok: bool, d: P.Decl, left: seq<Token>) {
    if ok then r == Some((d, left)) else r == None
  }

  class LcmStruct {
    var members: seq<Member>
    var constants: seq<P.Constant>

    ghost function View(): P.Decl
      reads this
    {
      P.Decl(members, constants)
    }

    constructor ()
      ensures View() == P.Decl([], [])
    {
      members, constants := [], [];
    }

    /** lcm_find_member or lcm_find_const finds the name. */
    method IsTaken(name: Token) returns (r: bool)
      ensures r == P.Taken(View(), name)
    {
      var i := 0;
      while i < |members|
        invariant 0 <= i <= |members| && forall k :: 0 <= k < i ==> members[k].name != name
      {
        if members[i].name == name { return true; }
        i := i + 1;
      }
      i := 0;
      while i < |constants|
        invariant 0 <= i <= |constants| && forall k :: 0 <= k < i ==> constants[k].name != name
      {
        if constants[i].name == name { return true; }
        i := i + 1;
      }
      return false;
    }

    /** The size token between the brackets, checked against the members so far. */
    method CheckDim(env: P.Env, t: Token) returns (r: Option<Dim>)
      ensures r == P.DimOf(env, View(), t)
    {
      if P.IsDigit(t[0]) {
        var sz := env.strtol(t);
        return if sz <= 0 then None else Some(Const(t, sz));
      }
      if !P.LegalName(t) { return None; }
      var i := 0;
      while i < |members|
        invariant 0 <= i <= |members| && forall k :: 0 <= k < i ==> members[k].name != t
      {
        if members[i].name == t {
          return if members[i].dims != [] || !MayBeSize(members[i].ty) then None else Some(Var(t));
        }
        i := i + 1;
      }
      return None;
    }

    /** while (parse_try_consume(t, "[")) */
    method Dims(env: P.Env, t: Tokenizer) returns (ok: bool)
      requires t.Valid() && members != []
      modifies this, t
      ensures t.Valid() && Did(P.ParseDims(env, old(View()), old(t.Left())), ok, View(), t.Left())
    {
      hide P.DimOf;
      while true
        invariant t.Valid() && members != []
        invariant P.ParseDims(env, View(), t.Left()) == P.ParseDims(env, old(View()), old(t.Left()))
        decreases |t.tokens| - t.pos
      {
        ghost var left := t.Left();
        var open := t.TryConsume("[");
        if open == None { return false; }
        if !open.value { return true; }
        var size := t.Next();
        if size == None { return false; }
        var dim := CheckDim(env, size.value);
        if dim == None { return false; }
        var n := |members| - 1;
        ghost var before := View();
        members := members[n := members[n].(dims := members[n].dims + [dim.value])];
        assert View() == P.AddDim(before, dim.value);
        var close := t.Require("]");
        if !close { return false; }
        assert t.Left() == left[3..];
      }
    }

    method Declarators(env: P.Env, ty: Type, t: Tokenizer) returns (ok: bool)
      requires t.Valid()
      modifies this, t
      ensures t.Valid() && Did(P.ParseDeclarators(env, old(View()), ty, old(t.Left())), ok, View(), t.Left())
    {
      hide P.ParseDims; hide P.Taken;
      while true
        invariant t.Valid()
        invariant P.ParseDeclarators(env, View(), ty, t.Left()) ==
          P.ParseDeclarators(env, old(View()), ty, old(t.Left()))
        decreases |t.tokens| - t.pos
      {
        var name := t.Next();
        if name == None { return false; }
        if !P.LegalName(name.value) { return false; }
        var taken := IsTaken(name.value);
        if taken { return false; }
        ghost var before := View();
        members := members + [Member(name.value, ty, [])];
        assert View() == P.AddMember(before, Member(name.value, ty, []));
        var dims := Dims(env, t);
        if !dims { return false; }
        var comma := t.TryConsume(",");
        if comma == None { return false; }
        if !comma.value { break; }
      }
      ok := t.Require(";");
    }

    /** another_constant: */
    method Constants(env: P.Env, ty: Token, t: Tokenizer) returns (ok: bool)
      requires t.Valid()
      modifies this, t
      ensures t.Valid() && Did(P.ParseConstants(env, old(View()), ty, old(t.Left())), ok, View(), t.Left())
    {
      hide P.Taken;
      while true
        invariant t.Valid()
        invariant P.ParseConstants(env, View(), ty, t.Left()) == P.ParseConstants(env, old(View()), ty, old(t.Left()))
        decreases |t.tokens| - t.pos
      {
        ghost var left := t.Left();
        var name := t.Next();
        if name == None { return false; }
        if !P.LegalName(name.value) { return false; }
        var taken := IsTaken(name.value);
        if taken { return false; }
        var equals := t.Require("=");
        if !equals { return false; }
        var value := t.Next();
        if value == None { return false; }
        if !env.isValue(ty, value.value) { return false; }
        constants := constants + [P.Constant(ty, name.value, value.value)];
        assert t.Left() == left[3..];
        var comma := t.TryConsume(",");
        if comma == None { return false; }
        if !comma.value { break; }
        assert t.Left() == left[4..];
      }
      ok := t.Require(";");
    }

    /** parse_member */
    method ParseMember(env: P.Env, t: Tokenizer) returns (ok: bool)
      requires t.Valid()
      modifies this, t
      ensures t.Valid() && Did(P.ParseMember(env, old(View()), old(t.Left())), ok, View(), t.Left())
    {
      hide P.ParseDeclarators; hide P.ParseConstants;
      var c := t.TryConsume("struct");
      if c == None || c.value { return false; }
      c := t.TryConsume("enum");
      if c == None || c.value { return false; }
      c := t.TryConsume("union");
      if c == None || c.value { return false; }
      c := t.TryConsume("const");
      if c == None { return false; }
      var ty := t.Next();
      if ty == None { return false; }
      if c.value {
        if !P.ConstType(ty.value) { return false; }
        ok := Constants(env, ty.value, t);
      } else {
        if !P.LegalName(ty.value) { return false; }
        ok := Declarators(env, P.TypeOf(env, ty.value), t);
      }
    }

    /** parse_struct: everything behind the struct keyword goes into a new struct. */
    method ParseBody(env: P.Env, t: Tokenizer) returns (ok: bool)
      requires t.Valid()
      modifies this, t
      ensures t.Valid() && Did(P.ParseMembers(env, old(View()), old(t.Left())), ok, View(), t.Left())
    {
      hide P.ParseMember;
      while true
        invariant t.Valid()
        invariant P.ParseMembers(env, View(), t.Left()) == P.ParseMembers(env, old(View()), old(t.Left()))
        decreases |t.tokens| - t.pos
      {
        ghost var left := t.Left();
        var close := t.TryConsume("}");
        if close == None { return false; }
        if close.value { return true; }
        var member := ParseMember(env, t);
        if !member { return false; }
        assert |t.Left()| < |left|;
      }
    }
  }

  method ParseStruct(env: P.Env, t: Tokenizer) returns (ok: bool, lr: LcmStruct)
    requires t.Valid()
    modifies t
    ensures fresh(lr) && t.Valid() && Did(P.ParseStruct(env, old(t.Left())), ok, lr.View(), t.Left())
  {
    lr := new LcmStruct();
    ghost var left := t.Left();
    hide P.ParseMembers;
    var name := t.Next();
    if name == None { return false, lr; }
    var open := t.Require("{");
    if !open { return false, lr; }
    assert t.Left() == left[2..];
    ok := lr.ParseBody(env, t);
  }
}
