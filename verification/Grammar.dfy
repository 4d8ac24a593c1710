/** Struct declarations as text, and what they mean: the parser takes exactly these. */
module Grammar {
  import opened Fingerprint
  import opened Parser
  import opened Schema
  import opened Wrappers

  // ----- the text -----

  datatype Declarator = Declarator(name: Token, sizes: seq<Token>)

  datatype Constdef = Constdef(name: Token, value: Token)

  /** A line of a struct: int32_t a, b[2][a]; or const int32_t A = 1, B = 2; */
  datatype Item = MemberItem(ty: Token, ds: seq<Declarator>) | ConstItem(ty: Token, cs: seq<Constdef>)

  function SizeTokens(sizes: seq<Token>): seq<Token> {
    if sizes == [] then [] else ["[", sizes[0], "]"] + SizeTokens(sizes[1..])
  }

  function DeclaratorTokens(ds: seq<Declarator>): seq<Token>
    requires ds != []
  {
    [ds[0].name] + SizeTokens(ds[0].sizes) + if |ds| == 1 then [";"] else [","] + DeclaratorTokens(ds[1..])
  }

  function ConstHead(x: Constdef): seq<Token> { [x.name, "=", x.value] }

  function ConstTokens(cs: seq<Constdef>): seq<Token>
    requires cs != []
  {
    ConstHead(cs[0]) + if |cs| == 1 then [";"] else [","] + ConstTokens(cs[1..])
  }

  function ItemTokens(it: Item): seq<Token> {
    match it
    case MemberItem(ty, ds) => if ds == [] then [] else [ty] + DeclaratorTokens(ds)
    case ConstItem(ty, cs) => if cs == [] then [] else ["const", ty] + ConstTokens(cs)
  }

  function BodyTokens(items: seq<Item>): seq<Token> {
    if items == [] then [] else ItemTokens(items[0]) + BodyTokens(items[1..])
  }

  // ----- what it means -----

  function SizeMeant(env: Env, t: Token): Dim {
    if '0' <= t[0] <= '9' then Const(t, if env.strtol(t) > 0 then env.strtol(t) else 0) else Var(t)
  }

  function SizesMeant(env: Env, sizes: seq<Token>): (r: seq<Dim>)
    ensures |r| == |sizes|
  {
    if sizes == [] then [] else [SizeMeant(env, sizes[0])] + SizesMeant(env, sizes[1..])
  }

  function MembersMeant(env: Env, ty: Type, ds: seq<Declarator>): seq<Member> {
    if ds == [] then []
    else [Member(ds[0].name, ty, SizesMeant(env, ds[0].sizes))] + MembersMeant(env, ty, ds[1..])
  }

  function ConstsMeant(ty: Token, cs: seq<Constdef>): seq<Constant> {
    if cs == [] then [] else [Constant(ty, cs[0].name, cs[0].value)] + ConstsMeant(ty, cs[1..])
  }

  function With(env: Env, d: Decl, it: Item): Decl {
    match it
    case MemberItem(ty, ds) => d.(members := d.members + MembersMeant(env, TypeOf(env, ty), ds))
    case ConstItem(ty, cs) => d.(constants := d.constants + ConstsMeant(ty, cs))
  }

  /** The members and constants of the items, behind those of d. */
  function Meaning(env: Env, d: Decl, items: seq<Item>): Decl
    decreases |items|
  {
    if items == [] then d else Meaning(env, With(env, d, items[0]), items[1..])
  }

  // ----- which words may stand where -----

  predicate Word(t: Token) { 'a' <= t[0] <= 'z' || 'A' <= t[0] <= 'Z' || t[0] == '_' }

  predicate SizeFine(env: Env, t: Token) { ('0' <= t[0] <= '9' && env.strtol(t) > 0) || Word(t) }

  predicate SizesFine(env: Env, sizes: seq<Token>) { forall k :: 0 <= k < |sizes| ==> SizeFine(env, sizes[k]) }

  predicate ItemFine(env: Env, it: Item) {
    match it
    case MemberItem(ty, ds) =>
      && ds != [] && Word(ty) && ty !in ["struct", "enum", "union", "const"]
      && forall k :: 0 <= k < |ds| ==> Word(ds[k].name) && SizesFine(env, ds[k].sizes)
    case ConstItem(ty, cs) =>
      && cs != [] && ty in ["int8_t", "int16_t", "int32_t", "int64_t", "float", "double"]
      && forall k :: 0 <= k < |cs| ==> Word(cs[k].name) && env.isValue(ty, cs[k].value)
  }

  predicate ItemsFine(env: Env, items: seq<Item>) { forall k :: 0 <= k < |items| ==> ItemFine(env, items[k]) }

  // ----- what is parsed is such a text -----

  /** The last member with more dimensions. */
  function WithSizes(env: Env, d: Decl, sizes: seq<Token>): Decl
    requires d.members != []
  {
    var n := |d.members| - 1;
    d.(members := d.members[n := d.members[n].(dims := d.members[n].dims + SizesMeant(env, sizes))])
  }

  lemma WithSizesStep(env: Env, d: Decl, sizes: seq<Token>)
    requires d.members != [] && sizes != []
    ensures WithSizes(env, d, sizes) == WithSizes(env, AddDim(d, SizeMeant(env, sizes[0])), sizes[1..])
  {
    var n := |d.members| - 1;
    var dims := d.members[n].dims;
    assert dims + SizesMeant(env, sizes) == dims + [SizeMeant(env, sizes[0])] + SizesMeant(env, sizes[1..]);
  }

  lemma SizeIs(env: Env, d: Decl, t: Token)
    requires DimOf(env, d, t).Some?
    ensures DimOf(env, d, t) == Some(SizeMeant(env, t)) && SizeFine(env, t)
  {
    hide IndexOf;
  }

  lemma SizesFineStep(env: Env, t: Token, more: seq<Token>)
    requires SizeFine(env, t) && SizesFine(env, more)
    ensures SizesFine(env, [t] + more)
  {
    hide SizeFine;
  }

  lemma FirstSize(env: Env, d: Decl, ts: seq<Token>)
    requires d.members != [] && ParseDims(env, d, ts).Some?
    ensures ts != []
    ensures ts[0] != "[" ==> ParseDims(env, d, ts) == Some((d, ts))
    ensures ts[0] == "[" ==> |ts| >= 3 && ts == ["[", ts[1], "]"] + ts[3..] && DimOf(env, d, ts[1]).Some?
    ensures ts[0] == "[" ==> ParseDims(env, d, ts) == ParseDims(env, AddDim(d, DimOf(env, d, ts[1]).value), ts[3..])
  {
    hide DimOf; hide AddDim;
  }

  lemma NoSizes(env: Env, d: Decl, ts: seq<Token>)
    requires d.members != []
    ensures WithSizes(env, d, []) == d && SizesFine(env, []) && SizeTokens([]) + ts == ts
  {
    assert d.members[|d.members| - 1].dims + [] == d.members[|d.members| - 1].dims;
  }

  lemma {:induction false} SizesFound(env: Env, d: Decl, ts: seq<Token>) returns (sizes: seq<Token>)
    requires d.members != [] && ParseDims(env, d, ts).Some?
    ensures var (r, rest) := ParseDims(env, d, ts).value;
      ts == SizeTokens(sizes) + rest && r == WithSizes(env, d, sizes) && SizesFine(env, sizes)
    decreases |ts|
  {
    hide ParseDims; hide DimOf; hide SizeMeant; hide SizeFine; hide SizesFine; hide WithSizes;
    FirstSize(env, d, ts);
    if ts[0] != "[" {
      sizes := [];
      NoSizes(env, d, ts);
    } else {
      var t := ts[1];
      SizeIs(env, d, t);
      var more := SizesFound(env, AddDim(d, SizeMeant(env, t)), ts[3..]);
      sizes := [t] + more;
      assert sizes[1..] == more;
      WithSizesStep(env, d, sizes);
      SizesFineStep(env, t, more);
      assert SizeTokens(sizes) + ParseDims(env, d, ts).value.1
          == ["[", t, "]"] + (SizeTokens(more) + ParseDims(env, d, ts).value.1);
    }
  }

  lemma WithDeclarator(env: Env, d: Decl, ty: Type, x: Declarator)
    ensures WithSizes(env, AddMember(d, Member(x.name, ty, [])), x.sizes) ==
      d.(members := d.members + [Member(x.name, ty, SizesMeant(env, x.sizes))])
  {
    assert [] + SizesMeant(env, x.sizes) == SizesMeant(env, x.sizes);
  }

  function AfterFirst(ds: seq<Declarator>, tail: seq<Token>): seq<Token>
    requires ds != []
  {
    if |ds| == 1 then [";"] + tail else [","] + (DeclaratorTokens(ds[1..]) + tail)
  }

  lemma FourParts(a: seq<Token>, b: seq<Token>, c: seq<Token>, d: seq<Token>, tail: seq<Token>)
    ensures a + b + (c + d) + tail == a + (b + (c + (d + tail))) && a + b + c + tail == a + (b + (c + tail))
  {}

  lemma DeclaratorShape(ds: seq<Declarator>, tail: seq<Token>)
    requires ds != []
    ensures DeclaratorTokens(ds) + tail == [ds[0].name] + (SizeTokens(ds[0].sizes) + AfterFirst(ds, tail))
    ensures AfterFirst(ds, tail)[1..] == if |ds| == 1 then tail else DeclaratorTokens(ds[1..]) + tail
    ensures AfterFirst(ds, tail)[0] == if |ds| == 1 then ";" else ","
  {
    hide SizeTokens;
    if |ds| == 1 { FourParts([ds[0].name], SizeTokens(ds[0].sizes), [";"], [], tail); }
    else { FourParts([ds[0].name], SizeTokens(ds[0].sizes), [","], DeclaratorTokens(ds[1..]), tail); }
  }

  lemma MeantStep(env: Env, ty: Type, ds: seq<Declarator>)
    requires ds != []
    ensures MembersMeant(env, ty, ds) ==
      [Member(ds[0].name, ty, SizesMeant(env, ds[0].sizes))] + MembersMeant(env, ty, ds[1..])
    ensures |ds| == 1 ==> MembersMeant(env, ty, ds[1..]) == []
  {}

  /** The first declarator, and what is left behind it. */
  lemma FirstDeclarator(env: Env, d: Decl, ty: Type, ts: seq<Token>)
    requires ParseDeclarators(env, d, ty, ts).Some?
    ensures ts != [] && Word(ts[0]) && ParseDims(env, AddMember(d, Member(ts[0], ty, [])), ts[1..]).Some?
    ensures var (d', rest) := ParseDims(env, AddMember(d, Member(ts[0], ty, [])), ts[1..]).value;
      && (rest[0] == "," || rest[0] == ";") && |rest| <= |ts[1..]|
      && ParseDeclarators(env, d, ty, ts) ==
        if rest[0] == "," then ParseDeclarators(env, d', ty, rest[1..]) else Some((d', rest[1..]))
  {
    hide ParseDims; hide Taken;
  }

  lemma DeclaratorsShape(x: Declarator, more: seq<Declarator>, rest: seq<Token>, tail: seq<Token>)
    requires rest != [] && rest[0] == if more == [] then ";" else ","
    requires rest[1..] == if more == [] then tail else DeclaratorTokens(more) + tail
    ensures [x.name] + (SizeTokens(x.sizes) + rest) == DeclaratorTokens([x] + more) + tail
  {
    hide SizeTokens;
    assert ([x] + more)[1..] == more && rest == [rest[0]] + rest[1..];
    DeclaratorShape([x] + more, tail);
  }

  lemma {:induction false} DeclaratorsFound(env: Env, d: Decl, ty: Type, ts: seq<Token>) returns (ds: seq<Declarator>)
    requires ParseDeclarators(env, d, ty, ts).Some?
    ensures var (r, rest) := ParseDeclarators(env, d, ty, ts).value;
      && ds != [] && ts == DeclaratorTokens(ds) + rest
      && r == d.(members := d.members + MembersMeant(env, ty, ds))
    ensures forall k :: 0 <= k < |ds| ==> Word(ds[k].name) && SizesFine(env, ds[k].sizes)
    decreases |ts|
  {
    hide ParseDims; hide WithSizes; hide SizesFine; hide ParseDeclarators; hide DeclaratorTokens; hide SizesMeant;
    hide MembersMeant; hide Word;
    FirstDeclarator(env, d, ty, ts);
    var d1 := AddMember(d, Member(ts[0], ty, []));
    var sizes := SizesFound(env, d1, ts[1..]);
    var x := Declarator(ts[0], sizes);
    WithDeclarator(env, d, ty, x);
    var (d', rest) := ParseDims(env, d1, ts[1..]).value;
    var tail := ParseDeclarators(env, d, ty, ts).value.1;
    assert ts == [ts[0]] + ts[1..];
    var more := [];
    if rest[0] == "," { more := DeclaratorsFound(env, d', ty, rest[1..]); }
    ds := [x] + more;
    assert ds[1..] == more;
    DeclaratorsShape(x, more, rest, tail);
    MeantStep(env, ty, ds);
    assert d.members + [Member(x.name, ty, SizesMeant(env, sizes))] + MembersMeant(env, ty, more)
        == d.members + ([Member(x.name, ty, SizesMeant(env, sizes))] + MembersMeant(env, ty, more));
    if more == [] { assert d'.members + [] == d'.members; }
  }

  lemma {:induction false} ConstsFound(env: Env, d: Decl, ty: Token, ts: seq<Token>) returns (cs: seq<Constdef>)
    requires ParseConstants(env, d, ty, ts).Some?
    ensures var (r, rest) := ParseConstants(env, d, ty, ts).value;
      && cs != [] && ts == ConstTokens(cs) + rest
      && r == d.(constants := d.constants + ConstsMeant(ty, cs))
    ensures forall k :: 0 <= k < |cs| ==> Word(cs[k].name) && env.isValue(ty, cs[k].value)
    decreases |ts|
  {
    hide Taken;
    var x := Constdef(ts[0], ts[2]);
    var d' := d.(constants := d.constants + [Constant(ty, ts[0], ts[2])]);
    assert ts == [ts[0], "=", ts[2]] + [ts[3]] + ts[4..];
    if ts[3] == "," {
      var more := ConstsFound(env, d', ty, ts[4..]);
      cs := [x] + more;
      assert cs[1..] == more;
    } else {
      cs := [x];
    }
  }

  lemma ItemFound(env: Env, d: Decl, ts: seq<Token>) returns (it: Item)
    requires ParseMember(env, d, ts).Some?
    ensures var (r, rest) := ParseMember(env, d, ts).value;
      ts == ItemTokens(it) + rest && r == With(env, d, it) && ItemFine(env, it)
  {
    hide ParseDeclarators; hide ParseConstants; hide SizesFine; hide TypeOf; hide ConstTokens; hide DeclaratorTokens;
    hide MembersMeant; hide ConstsMeant;
    var rest := ParseMember(env, d, ts).value.1;
    if ts[0] == "const" {
      var cs := ConstsFound(env, d, ts[1], ts[2..]);
      it := ConstItem(ts[1], cs);
      assert ts == ["const", ts[1]] + (ConstTokens(cs) + rest);
    } else {
      var ds := DeclaratorsFound(env, d, TypeOf(env, ts[0]), ts[1..]);
      it := MemberItem(ts[0], ds);
      assert ts == [ts[0]] + (DeclaratorTokens(ds) + rest);
    }
  }

  lemma {:induction false} BodyFound(env: Env, d: Decl, ts: seq<Token>) returns (items: seq<Item>)
    requires ParseMembers(env, d, ts).Some?
    ensures var (r, rest) := ParseMembers(env, d, ts).value;
      ts == BodyTokens(items) + ["}"] + rest && r == Meaning(env, d, items) && ItemsFine(env, items)
    decreases |ts|
  {
    hide ParseMember; hide ItemTokens; hide With; hide ItemFine;
    if ts[0] == "}" {
      items := [];
      assert ts == ["}"] + ts[1..];
    } else {
      var it := ItemFound(env, d, ts);
      var (d', rest) := ParseMember(env, d, ts).value;
      var more := BodyFound(env, d', rest);
      items := [it] + more;
      assert items[1..] == more;
      assert ItemTokens(it) + (BodyTokens(more) + ["}"] + ParseMembers(env, d', rest).value.1)
          == ItemTokens(it) + BodyTokens(more) + ["}"] + ParseMembers(env, d', rest).value.1;
    }
  }

  // ----- every such text is parsed -----

  /** The names and sizes of all are in order in f, of which d is a part. */
  ghost predicate Part(d: Decl, f: Decl) { Accepted(f) && d.members <= f.members && d.constants <= f.constants }

  /** The last member of d has the first dimensions of its counterpart in f. */
  ghost predicate PartWithSizes(d: Decl, f: Decl, k: nat) {
    && Accepted(f) && d.members != [] && |d.members| <= |f.members|
    && var n := |d.members| - 1;
      d.members[..n] == f.members[..n] && k <= |f.members[n].dims|
        && d.members[n] == f.members[n].(dims := f.members[n].dims[..k])
  }

  /** What PartWithSizes says of the names. */
  lemma SameNames(d: Decl, f: Decl, k: nat)
    requires PartWithSizes(d, f, k)
    ensures var n := |d.members| - 1;
      n < |f.members| && (forall i :: 0 <= i <= n ==> f.members[..n + 1][i].name == d.members[i].name)
      && (forall i :: 0 <= i < n ==> d.members[i] == f.members[i])
      && d.members[n].ty == f.members[n].ty && |d.members[n].dims| == k <= |f.members[n].dims|
      && DimsAccepted(f.members, n)
  {
    var n := |d.members| - 1;
    forall i | 0 <= i < n ensures d.members[i] == f.members[i] {
      assert d.members[..n][i] == d.members[i] && f.members[..n][i] == f.members[i];
    }
  }

  /** A size that names a member before. */
  lemma NamedSizeTaken(env: Env, f: Decl, d: Decl, t: Token, k: nat)
    requires PartWithSizes(d, f, k) && Word(t)
    requires var n := |d.members| - 1; k < |f.members[n].dims| && f.members[n].dims[k] == Var(t)
    ensures DimOf(env, d, t) == Some(Var(t))
  {
    hide PartWithSizes; hide MayBeSize; hide IndexOf;
    var ms, n := f.members, |d.members| - 1;
    SameNames(d, f, k);
    assert DimAccepted(ms, n, k);
    var j := IndexOf(ms, t).value;
    IndexOfPrefix(ms, n + 1, t);
    IndexOfSameNames(ms[..n + 1], d.members, t);
    assert d.members[j].dims == [] && d.members[j].ty == ms[j].ty;
  }

  lemma SizeTaken(env: Env, f: Decl, d: Decl, t: Token, k: nat)
    requires PartWithSizes(d, f, k) && SizeFine(env, t)
    requires var n := |d.members| - 1; k < |f.members[n].dims| && f.members[n].dims[k] == SizeMeant(env, t)
    ensures DimOf(env, d, t) == Some(SizeMeant(env, t)) && PartWithSizes(AddDim(d, SizeMeant(env, t)), f, k + 1)
  {
    hide Accepted; hide IndexOf; hide MayBeSize;
    var ms, n := f.members, |d.members| - 1;
    assert ms[n].dims[..k] + [ms[n].dims[k]] == ms[n].dims[..k + 1];
    if !('0' <= t[0] <= '9') { NamedSizeTaken(env, f, d, t, k); }
  }

  lemma BracketStep(env: Env, d: Decl, t: Token, rest: seq<Token>)
    requires d.members != [] && DimOf(env, d, t).Some?
    ensures ParseDims(env, d, ["[", t, "]"] + rest) == ParseDims(env, AddDim(d, DimOf(env, d, t).value), rest)
  {
    hide DimOf; hide AddDim;
    var ts: seq<Token> := ["[", t, "]"] + rest;
    assert ts[3..] == rest;
  }

  lemma TwoParts(a: seq<Token>, b: seq<Token>, c: seq<Token>, tail: seq<Token>)
    ensures a + (b + c) + tail == a + (b + (c + tail)) && a + b + tail == a + (b + tail)
  {}

  lemma SizeShape(sizes: seq<Token>, tail: seq<Token>)
    requires sizes != []
    ensures SizeTokens(sizes) + tail == ["[", sizes[0], "]"] + (SizeTokens(sizes[1..]) + tail)
  {
    TwoParts(["[", sizes[0], "]"], SizeTokens(sizes[1..]), [], tail);
  }

  lemma {:induction false} SizesTaken(env: Env, f: Decl, d: Decl, sizes: seq<Token>, k: nat, tail: seq<Token>)
    requires PartWithSizes(d, f, k) && SizesFine(env, sizes) && tail != [] && tail[0] != "["
    requires f.members[|d.members| - 1].dims[k..] == SizesMeant(env, sizes)
    ensures var n := |d.members| - 1;
      ParseDims(env, d, SizeTokens(sizes) + tail) == Some((d.(members := f.members[..n + 1]), tail))
    decreases |sizes|
  {
    var n := |d.members| - 1;
    var dims := f.members[n].dims;
    if sizes == [] {
      assert dims[..k] == dims && [] + tail == tail;
      assert d.members == f.members[..n] + [f.members[n]] == f.members[..n + 1];
    } else {
      assert dims[k] == dims[k..][0] && dims[k..][1..] == dims[k + 1..];
      hide ParseDims; hide PartWithSizes; hide DimOf; hide SizeTokens; hide SizeMeant; hide SizeFine;
      SizeTaken(env, f, d, sizes[0], k);
      SizeShape(sizes, tail);
      BracketStep(env, d, sizes[0], SizeTokens(sizes[1..]) + tail);
      SizesTaken(env, f, AddDim(d, SizeMeant(env, sizes[0])), sizes[1..], k + 1, tail);
    }
  }

  lemma NameFree(f: Decl, d: Decl, m: Member)
    requires Part(d, f) && d.members + [m] <= f.members
    ensures !Taken(d, m.name) && PartWithSizes(AddMember(d, Member(m.name, m.ty, [])), f, 0)
  {
    var n := |d.members|;
    assert (d.members + [m])[n] == f.members[n];
    assert f.members[..n] == d.members;
  }

  lemma MemberPart(f: Decl, d: Decl, m: Member, more: seq<Member>)
    requires Part(d, f) && d.members + ([m] + more) <= f.members
    ensures d.members + [m] <= f.members && f.members[|d.members|] == m
      && f.members[..|d.members| + 1] == d.members + [m]
    ensures Part(d.(members := d.members + [m]), f) && d.members + [m] + more <= f.members
  {
    var all := d.members + ([m] + more);
    assert all == d.members + [m] + more;
    assert all[|d.members|] == m && f.members[..|all|] == all;
    assert f.members[..|d.members| + 1] == all[..|d.members| + 1];
  }

  lemma DeclaratorStep(env: Env, d: Decl, d': Decl, ty: Type, x: Declarator, after: seq<Token>)
    requires after != [] && Word(x.name) && !Taken(d, x.name)
    requires ParseDims(env, AddMember(d, Member(x.name, ty, [])), SizeTokens(x.sizes) + after) == Some((d', after))
    ensures ParseDeclarators(env, d, ty, [x.name] + (SizeTokens(x.sizes) + after)) ==
      if after[0] == "," then ParseDeclarators(env, d', ty, after[1..])
      else if after[0] == ";" then Some((d', after[1..]))
      else None
  {
    hide ParseDims; hide Taken; hide SizeTokens; hide AddMember;
    var ts := [x.name] + (SizeTokens(x.sizes) + after);
    assert ts[1..] == SizeTokens(x.sizes) + after;
  }

  lemma {:induction false} DeclaratorsTaken(env: Env, f: Decl, d: Decl, ty: Type, ds: seq<Declarator>, tail: seq<Token>)
    requires Part(d, f) && ds != [] && d.members + MembersMeant(env, ty, ds) <= f.members
    requires forall k :: 0 <= k < |ds| ==> Word(ds[k].name) && SizesFine(env, ds[k].sizes)
    ensures ParseDeclarators(env, d, ty, DeclaratorTokens(ds) + tail)
         == Some((d.(members := d.members + MembersMeant(env, ty, ds)), tail))
    decreases |ds|
  {
    hide ParseDims; hide Part; hide PartWithSizes; hide Taken; hide SizesFine; hide SizeTokens; hide Accepted;
    hide ParseDeclarators; hide DeclaratorTokens; hide MembersMeant; hide SizesMeant; hide Word;
    var x := ds[0];
    var m, rest := Member(x.name, ty, SizesMeant(env, x.sizes)), MembersMeant(env, ty, ds[1..]);
    MeantStep(env, ty, ds);
    MemberPart(f, d, m, rest);
    NameFree(f, d, m);
    DeclaratorShape(ds, tail);
    var d' := d.(members := d.members + [m]);
    assert m.dims[0..] == m.dims;
    SizesTaken(env, f, AddMember(d, Member(x.name, ty, [])), x.sizes, 0, AfterFirst(ds, tail));
    DeclaratorStep(env, d, d', ty, x, AfterFirst(ds, tail));
    assert d.members + [m] + rest == d.members + ([m] + rest) && [m] + [] == [m];
    if |ds| > 1 { DeclaratorsTaken(env, f, d', ty, ds[1..], tail); }
  }

  // ----- constants, items, and all of it -----

  lemma ConstantPart(f: Decl, d: Decl, c: Constant, more: seq<Constant>)
    requires Part(d, f) && d.constants + ([c] + more) <= f.constants
    ensures !Taken(d, c.name) && Part(d.(constants := d.constants + [c]), f) && d.constants + [c] + more <= f.constants
  {
    var all := d.constants + ([c] + more);
    assert all == d.constants + [c] + more;
    assert all[|d.constants|] == c && f.constants[|d.constants|] == c;
    assert d.constants + [c] <= all;
  }

  lemma ConstStep(env: Env, d: Decl, ty: Token, x: Constdef, after: seq<Token>)
    requires after != [] && Word(x.name) && !Taken(d, x.name) && env.isValue(ty, x.value)
    ensures var d' := d.(constants := d.constants + [Constant(ty, x.name, x.value)]);
      ParseConstants(env, d, ty, [x.name, "=", x.value] + after) ==
      if after[0] == "," then ParseConstants(env, d', ty, after[1..])
      else if after[0] == ";" then Some((d', after[1..]))
      else None
  {
    hide Taken;
    var ts: seq<Token> := [x.name, "=", x.value] + after;
    assert ts[4..] == after[1..] && ts[3] == after[0];
  }

  function AfterConst(cs: seq<Constdef>, tail: seq<Token>): seq<Token>
    requires cs != []
  {
    if |cs| == 1 then [";"] + tail else [","] + (ConstTokens(cs[1..]) + tail)
  }

  lemma ConstShape(cs: seq<Constdef>, tail: seq<Token>)
    requires cs != []
    ensures ConstTokens(cs) + tail == ConstHead(cs[0]) + AfterConst(cs, tail)
    ensures AfterConst(cs, tail)[1..] == if |cs| == 1 then tail else ConstTokens(cs[1..]) + tail
    ensures AfterConst(cs, tail)[0] == if |cs| == 1 then ";" else ","
  {
    hide ConstHead;
    var head := ConstHead(cs[0]);
    if |cs| == 1 { TwoParts(head, [";"], [], tail); } else { TwoParts(head, [","], ConstTokens(cs[1..]), tail); }
  }

  lemma ConstsMeantStep(ty: Token, cs: seq<Constdef>)
    requires cs != []
    ensures ConstsMeant(ty, cs) == [Constant(ty, cs[0].name, cs[0].value)] + ConstsMeant(ty, cs[1..])
    ensures |cs| == 1 ==> ConstsMeant(ty, cs[1..]) == []
  {}

  lemma {:induction false} ConstsTaken(env: Env, f: Decl, d: Decl, ty: Token, cs: seq<Constdef>, tail: seq<Token>)
    requires Part(d, f) && cs != [] && d.constants + ConstsMeant(ty, cs) <= f.constants
    requires forall k :: 0 <= k < |cs| ==> Word(cs[k].name) && env.isValue(ty, cs[k].value)
    ensures ParseConstants(env, d, ty, ConstTokens(cs) + tail)
         == Some((d.(constants := d.constants + ConstsMeant(ty, cs)), tail))
    decreases |cs|
  {
    hide Part; hide Taken; hide ParseConstants; hide ConstTokens; hide ConstsMeant; hide Word;
    var c, rest := Constant(ty, cs[0].name, cs[0].value), ConstsMeant(ty, cs[1..]);
    ConstsMeantStep(ty, cs);
    ConstantPart(f, d, c, rest);
    ConstShape(cs, tail);
    ConstStep(env, d, ty, cs[0], AfterConst(cs, tail));
    assert d.constants + [c] + rest == d.constants + ([c] + rest) && [c] + [] == [c];
    if |cs| > 1 { ConstsTaken(env, f, d.(constants := d.constants + [c]), ty, cs[1..], tail); }
  }

  lemma WithGrows(env: Env, d: Decl, it: Item)
    ensures d.members <= With(env, d, it).members && d.constants <= With(env, d, it).constants
  {}

  lemma {:induction false} MeaningGrows(env: Env, d: Decl, items: seq<Item>)
    ensures d.members <= Meaning(env, d, items).members && d.constants <= Meaning(env, d, items).constants
    decreases |items|
  {
    if items != [] {
      WithGrows(env, d, items[0]);
      MeaningGrows(env, With(env, d, items[0]), items[1..]);
    }
  }

  lemma PartMeans(d: Decl, f: Decl)
    requires Part(d, f)
    ensures d.members <= f.members && d.constants <= f.constants
  {}

  lemma MemberItemTaken(env: Env, f: Decl, d: Decl, ty: Token, ds: seq<Declarator>, tail: seq<Token>)
    requires Part(d, f) && Part(With(env, d, MemberItem(ty, ds)), f) && ItemFine(env, MemberItem(ty, ds))
    ensures ParseMember(env, d, [ty] + (DeclaratorTokens(ds) + tail)) == Some((With(env, d, MemberItem(ty, ds)), tail))
  {
    hide Part; hide ParseDeclarators; hide ParseConstants; hide SizesFine; hide TypeOf; hide DeclaratorTokens;
    hide MembersMeant;
    PartMeans(With(env, d, MemberItem(ty, ds)), f);
    DeclaratorsTaken(env, f, d, TypeOf(env, ty), ds, tail);
    assert ([ty] + (DeclaratorTokens(ds) + tail))[1..] == DeclaratorTokens(ds) + tail;
  }

  lemma ConstItemTaken(env: Env, f: Decl, d: Decl, ty: Token, cs: seq<Constdef>, tail: seq<Token>)
    requires Part(d, f) && Part(With(env, d, ConstItem(ty, cs)), f) && ItemFine(env, ConstItem(ty, cs))
    ensures ParseMember(env, d, ["const", ty] + (ConstTokens(cs) + tail)) ==
      Some((With(env, d, ConstItem(ty, cs)), tail))
  {
    hide Part; hide ParseDeclarators; hide ParseConstants; hide TypeOf; hide ConstTokens; hide ConstsMeant;
    PartMeans(With(env, d, ConstItem(ty, cs)), f);
    ConstsTaken(env, f, d, ty, cs, tail);
    assert (["const", ty] + (ConstTokens(cs) + tail))[2..] == ConstTokens(cs) + tail;
  }

  lemma ItemShape(it: Item, tail: seq<Token>)
    ensures it.MemberItem? && it.ds != [] ==> ItemTokens(it) + tail == [it.ty] + (DeclaratorTokens(it.ds) + tail)
    ensures it.ConstItem? && it.cs != [] ==> ItemTokens(it) + tail == ["const", it.ty] + (ConstTokens(it.cs) + tail)
  {
    hide DeclaratorTokens; hide ConstTokens;
  }

  lemma ItemTaken(env: Env, f: Decl, d: Decl, it: Item, tail: seq<Token>)
    requires Part(d, f) && Part(With(env, d, it), f) && ItemFine(env, it)
    ensures var ts := ItemTokens(it) + tail;
      ts != [] && ts[0] != "}" && ParseMember(env, d, ts) == Some((With(env, d, it), tail))
  {
    hide Part; hide ParseMember; hide SizesFine; hide DeclaratorTokens; hide ConstTokens; hide ItemTokens; hide With;
    ItemShape(it, tail);
    match it
    case MemberItem(ty, ds) => MemberItemTaken(env, f, d, ty, ds, tail);
    case ConstItem(ty, cs) => ConstItemTaken(env, f, d, ty, cs, tail);
  }

  lemma BodyEnd(env: Env, d: Decl, tail: seq<Token>)
    ensures ParseMembers(env, d, BodyTokens([]) + ["}"] + tail) == Some((d, tail))
  {
    var ts: seq<Token> := ["}"] + tail;
    assert BodyTokens([]) + ["}"] + tail == ts && ts[1..] == tail;
  }

  lemma BodyShape(items: seq<Item>, tail: seq<Token>)
    requires items != []
    ensures BodyTokens(items) + ["}"] + tail == ItemTokens(items[0]) + (BodyTokens(items[1..]) + ["}"] + tail)
  {
    hide ItemTokens;
  }

  lemma BodyStep(env: Env, d: Decl, ts: seq<Token>, d': Decl, rest: seq<Token>)
    requires ts != [] && ts[0] != "}" && ParseMember(env, d, ts) == Some((d', rest))
    ensures ParseMembers(env, d, ts) == ParseMembers(env, d', rest)
  {}

  lemma {:induction false} BodyTaken(env: Env, d: Decl, items: seq<Item>, tail: seq<Token>)
    requires Accepted(Meaning(env, d, items)) && ItemsFine(env, items)
    ensures ParseMembers(env, d, BodyTokens(items) + ["}"] + tail) == Some((Meaning(env, d, items), tail))
    decreases |items|
  {
    hide ParseMembers; hide ParseMember; hide ItemTokens; hide BodyTokens; hide With; hide Accepted; hide ItemFine;
    if items == [] {
      BodyEnd(env, d, tail);
    } else {
      var d', rest := With(env, d, items[0]), BodyTokens(items[1..]) + ["}"] + tail;
      MeaningGrows(env, d, items);
      MeaningGrows(env, d', items[1..]);
      ItemTaken(env, Meaning(env, d, items), d, items[0], rest);
      BodyShape(items, tail);
      BodyStep(env, d, ItemTokens(items[0]) + rest, d', rest);
      BodyTaken(env, d', items[1..], tail);
    }
  }

  const NOTHING := Decl([], [])

  /** The text of a struct behind the keyword. */
  predicate IsStructText(env: Env, ts: seq<Token>, items: seq<Item>, rest: seq<Token>) {
    ItemsFine(env, items) && |ts| >= 2 && ts[1] == "{" && ts[2..] == BodyTokens(items) + ["}"] + rest
  }

  /** parse_struct takes exactly the texts made of such items, whose meaning has distinct
      names and proper sizes, and gives that meaning. */
  lemma ParsedExactly(env: Env, ts: seq<Token>, d: Decl, rest: seq<Token>)
    ensures ParseStruct(env, ts) == Some((d, rest)) <==>
      exists items :: IsStructText(env, ts, items, rest) && d == Meaning(env, NOTHING, items) && Accepted(d)
  {
    hide ParseMembers; hide BodyTokens; hide Meaning; hide ItemsFine; hide Accepted;
    if ParseStruct(env, ts) == Some((d, rest)) {
      var items := BodyFound(env, NOTHING, ts[2..]);
      StructParsed(env, ts);
      assert IsStructText(env, ts, items, rest);
    }
    if items :| IsStructText(env, ts, items, rest) && d == Meaning(env, NOTHING, items) && Accepted(d) {
      BodyTaken(env, NOTHING, items, rest);
    }
  }

  // ----- every acceptable struct can be written down -----

  function TypeToken(t: Type): string { if t.Struct? then t.name else PrimName(t) }

  function Tok(s: string): Token { if s == "" then "x" else s }

  function SizeTokensOf(dims: seq<Dim>): (r: seq<Token>)
    ensures |r| == |dims|
  {
    seq(|dims|, k requires 0 <= k < |dims| => Tok(if dims[k].Const? then dims[k].token else dims[k].member))
  }

  function MemberLine(m: Member): Item {
    MemberItem(Tok(TypeToken(m.ty)), [Declarator(Tok(m.name), SizeTokensOf(m.dims))])
  }

  function ConstLine(c: Constant): Item { ConstItem(Tok(c.ty), [Constdef(Tok(c.name), Tok(c.value))]) }

  /** A line for each member. */
  function MemberLines(ms: seq<Member>): (r: seq<Item>)
    ensures |r| == |ms| && forall k :: 0 <= k < |ms| ==> r[k] == MemberLine(ms[k])
  {
    seq(|ms|, k requires 0 <= k < |ms| => MemberLine(ms[k]))
  }

  function ConstLines(cs: seq<Constant>): (r: seq<Item>)
    ensures |r| == |cs| && forall k :: 0 <= k < |cs| ==> r[k] == ConstLine(cs[k])
  {
    seq(|cs|, k requires 0 <= k < |cs| => ConstLine(cs[k]))
  }

  function Print(name: Token, d: Decl): seq<Token> {
    [name, "{"] + (BodyTokens(MemberLines(d.members) + ConstLines(d.constants)) + ["}"])
  }

  predicate Name(s: string) { s != "" && Word(s) }

  /** Written with its token, the size is read back. */
  predicate DimWritable(env: Env, d: Dim) {
    match d
    case Const(token, size) => token != "" && '0' <= token[0] <= '9' && env.strtol(token) == size
    case Var(name) => Name(name)
  }

  /** A struct type that the name stands for, and no keyword. */
  predicate StructWritable(env: Env, name: string) {
    && Name(name) && ('.' in name || env.package == "") && name !in PRIMITIVES
    && name !in ["struct", "enum", "union", "const"]
  }

  predicate MemberWritable(env: Env, m: Member) {
    && Name(m.name) && (m.ty.Struct? ==> StructWritable(env, m.ty.name))
    && forall k :: 0 <= k < |m.dims| ==> DimWritable(env, m.dims[k])
  }

  predicate ConstantWritable(env: Env, c: Constant) {
    c.ty in ["int8_t", "int16_t", "int32_t", "int64_t", "float", "double"] && Name(c.name) && c.value != ""
      && env.isValue(c.ty, c.value)
  }

  ghost predicate Writable(env: Env, d: Decl) {
    && Accepted(d)
    && (forall i :: 0 <= i < |d.members| ==> MemberWritable(env, d.members[i]))
    && (forall i :: 0 <= i < |d.constants| ==> ConstantWritable(env, d.constants[i]))
  }

  predicate SizesPositive(m: Member) { forall k :: 0 <= k < |m.dims| && m.dims[k].Const? ==> m.dims[k].size > 0 }

  lemma TypeReadBack(env: Env, m: Member)
    requires MemberWritable(env, m)
    ensures var t := TypeToken(m.ty);
      t != "" && Word(t) && TypeOf(env, t) == m.ty && t !in ["struct", "enum", "union", "const"]
  {
    hide TypeOf;
    if m.ty.Struct? { StructDeclared(env, m.ty.name); } else { PrimitiveDeclared(env, m.ty); }
  }

  lemma {:induction false} SizesReadBack(env: Env, dims: seq<Dim>)
    requires forall k :: 0 <= k < |dims| ==> DimWritable(env, dims[k]) && (dims[k].Const? ==> dims[k].size > 0)
    ensures SizesFine(env, SizeTokensOf(dims)) && SizesMeant(env, SizeTokensOf(dims)) == dims
  {
    if dims != [] {
      SizesReadBack(env, dims[1..]);
      assert SizeTokensOf(dims)[1..] == SizeTokensOf(dims[1..]);
      assert SizesFine(env, SizeTokensOf(dims[1..])) && SizeFine(env, SizeTokensOf(dims)[0]);
      forall k | 0 <= k < |dims| ensures SizeFine(env, SizeTokensOf(dims)[k]) {
        if k > 0 { assert SizeTokensOf(dims)[k] == SizeTokensOf(dims[1..])[k - 1]; }
      }
    }
  }

  lemma MemberLineRead(env: Env, d: Decl, m: Member)
    requires MemberWritable(env, m) && SizesPositive(m)
    ensures ItemFine(env, MemberLine(m)) && With(env, d, MemberLine(m)) == d.(members := d.members + [m])
  {
    hide TypeOf; hide SizesFine; hide SizesMeant;
    TypeReadBack(env, m);
    SizesReadBack(env, m.dims);
    MeantStep(env, m.ty, [Declarator(m.name, SizeTokensOf(m.dims))]);
  }

  lemma {:induction false} MeaningConcat(env: Env, d: Decl, a: seq<Item>, b: seq<Item>)
    ensures Meaning(env, d, a + b) == Meaning(env, Meaning(env, d, a), b)
    decreases |a|
  {
    if a == [] {
      assert a + b == b;
    } else {
      assert (a + b)[1..] == a[1..] + b;
      hide With;
      MeaningConcat(env, With(env, d, a[0]), a[1..], b);
    }
  }

  lemma {:induction false} MemberLinesRead(env: Env, d: Decl, ms: seq<Member>)
    requires forall i :: 0 <= i < |ms| ==> MemberWritable(env, ms[i]) && SizesPositive(ms[i])
    ensures ItemsFine(env, MemberLines(ms)) && Meaning(env, d, MemberLines(ms)) == d.(members := d.members + ms)
    decreases |ms|
  {
    hide MemberWritable; hide ItemFine; hide With; hide MemberLine;
    forall k | 0 <= k < |ms| ensures ItemFine(env, MemberLines(ms)[k]) { MemberLineRead(env, d, ms[k]); }
    if ms == [] {
      assert d.members + ms == d.members;
    } else {
      MemberLineRead(env, d, ms[0]);
      assert MemberLines(ms)[1..] == MemberLines(ms[1..]);
      MemberLinesRead(env, d.(members := d.members + [ms[0]]), ms[1..]);
      assert d.members + [ms[0]] + ms[1..] == d.members + ms;
    }
  }

  lemma ConstLineRead(env: Env, d: Decl, c: Constant)
    requires ConstantWritable(env, c)
    ensures ItemFine(env, ConstLine(c)) && With(env, d, ConstLine(c)) == d.(constants := d.constants + [c])
  {
    ConstsMeantStep(c.ty, [Constdef(c.name, c.value)]);
  }

  lemma {:induction false} ConstLinesRead(env: Env, d: Decl, cs: seq<Constant>)
    requires forall i :: 0 <= i < |cs| ==> ConstantWritable(env, cs[i])
    ensures ItemsFine(env, ConstLines(cs)) && Meaning(env, d, ConstLines(cs)) == d.(constants := d.constants + cs)
    decreases |cs|
  {
    hide ConstantWritable; hide ItemFine; hide With; hide ConstLine;
    forall k | 0 <= k < |cs| ensures ItemFine(env, ConstLines(cs)[k]) { ConstLineRead(env, d, cs[k]); }
    if cs == [] {
      assert d.constants + cs == d.constants;
    } else {
      ConstLineRead(env, d, cs[0]);
      assert ConstLines(cs)[1..] == ConstLines(cs[1..]);
      ConstLinesRead(env, d.(constants := d.constants + [cs[0]]), cs[1..]);
      assert d.constants + [cs[0]] + cs[1..] == d.constants + cs;
    }
  }

  lemma SizesArePositive(d: Decl)
    requires Accepted(d)
    ensures forall i :: 0 <= i < |d.members| ==> SizesPositive(d.members[i])
  {
    forall i | 0 <= i < |d.members| ensures SizesPositive(d.members[i]) {
      assert DimsAccepted(d.members, i);
      forall k | 0 <= k < |d.members[i].dims| && d.members[i].dims[k].Const? ensures d.members[i].dims[k].size > 0 {
        assert DimAccepted(d.members, i, k);
      }
    }
  }

  /** Parsing what was printed gives the struct back. */
  lemma ParsePrint(env: Env, name: Token, d: Decl)
    requires Writable(env, d)
    ensures ParseStruct(env, Print(name, d)) == Some((d, []))
  {
    hide MemberWritable; hide ConstantWritable; hide ItemFine; hide Accepted; hide Meaning; hide BodyTokens;
    hide ParseStruct; hide MemberLines; hide ConstLines; hide SizesPositive;
    var a, b := MemberLines(d.members), ConstLines(d.constants);
    SizesArePositive(d);
    MemberLinesRead(env, NOTHING, d.members);
    ConstLinesRead(env, Decl(d.members, []), d.constants);
    MeaningConcat(env, NOTHING, a, b);
    assert [] + d.members == d.members && [] + d.constants == d.constants;
    var ts := Print(name, d);
    assert ts[2..] == BodyTokens(a + b) + ["}"] == BodyTokens(a + b) + ["}"] + [];
    assert IsStructText(env, ts, a + b, []);
    ParsedExactly(env, ts, d, []);
  }

  /** The parser does accept a member as its own size: int32_t n[n]; */
  lemma SelfSizeAccepted(env: Env)
    ensures var d := Decl([Member("n", Scalar(Int32), [Var("n")])], []);
      ParseStruct(env, Print("t", d)) == Some((d, [])) && SizesItself(d.members, 0)
  {
    var d := Decl([Member("n", Scalar(Int32), [Var("n")])], []);
    assert IndexOf(d.members, "n") == Some(0);
    assert DimAccepted(d.members, 0, 0);
    assert Writable(env, d);
    ParsePrint(env, "t", d);
  }
}
