/** The type fingerprint that begins every message: the base hash of a struct from
    lcmgen.c, and the recursion over member types as C, Java and Python emit it. */
module Fingerprint {
  import opened Schema

  // ----- the base hash -----

  /** b if c has the bit k. */
  function Bit(c: int, k: int, b: bv64): bv64
    requires k != 0
  {
    if c / k % 2 == 1 then b else 0
  }

  /** char as the compiler widens it: eight bits, the last one a sign */
  function ByteBits(u: int): bv64 {
    Bit(u, 1, 1) | Bit(u, 2, 2) | Bit(u, 4, 4) | Bit(u, 8, 8) | Bit(u, 0x10, 0x10) | Bit(u, 0x20, 0x20)
    | Bit(u, 0x40, 0x40) | Bit(u, 0x80, 0xFFFF_FFFF_FFFF_FF80)
  }

  function CharBits(c: int): bv64 { ByteBits(c % 256) }

  /** v >> 55 on a signed value */
  function Shifted(v: bv64): bv64 {
    if v & 0x8000_0000_0000_0000 == 0 then v >> 55 else (v >> 55) | 0xFFFF_FFFF_FFFF_FE00
  }

  function Mixed(v: bv64): bv64 { (v << 8) ^ Shifted(v) }

  function Minus64(x: bv64, y: bv64): bv64 { x - y }

  lemma MinusPlus(x: bv64, y: bv64)
    ensures Minus64(x + y, x) == y
  {}

  lemma PlusMinus(x: bv64, y: bv64)
    ensures Minus64(x + y, y) == x
  {}

  function Plus64(x: bv64, y: bv64): (r: bv64)
    ensures Minus64(r, x) == y
    ensures Minus64(r, y) == x
  {
    MinusPlus(x, y);
    PlusMinus(x, y);
    x + y
  }

  /** hash_update */
  function HashUpdate(v: bv64, c: int): bv64 { Plus64(Mixed(v), CharBits(c)) }

  function HashChars(v: bv64, s: string): bv64
    decreases |s|
  {
    if s == [] then v else HashChars(HashUpdate(v, s[0] as int), s[1..])
  }

  function HashString(v: bv64, s: string): bv64 { HashChars(HashUpdate(v, |s|), s) }

  function PrimName(t: Type): string
    requires !t.Struct?
  {
    match t
    case Str => "string"
    case Scalar(p) =>
      match p
      case ByteT => "byte"
      case Boolean => "boolean"
      case Int8 => "int8_t"
      case Int16 => "int16_t"
      case Int32 => "int32_t"
      case Int64 => "int64_t"
      case Float => "float"
      case Double => "double"
  }

  function HashDim(v: bv64, d: Dim): bv64 {
    if d.Const? then HashString(HashUpdate(v, 0), d.token) else HashString(HashUpdate(v, 1), d.member)
  }

  function HashDims(v: bv64, dims: seq<Dim>): bv64
    decreases |dims|
  {
    if dims == [] then v else HashDims(HashDim(v, dims[0]), dims[1..])
  }

  /** The member's name, its type if primitive, and its dimensions. */
  function HashMember(v: bv64, m: Member): bv64 {
    var v1 := HashString(v, m.name);
    var v2 := if m.ty.Struct? then v1 else HashString(v1, PrimName(m.ty));
    HashDims(HashUpdate(v2, |m.dims|), m.dims)
  }

  function HashMembers(v: bv64, ms: seq<Member>): bv64
    decreases |ms|
  {
    if ms == [] then v else HashMembers(HashMember(v, ms[0]), ms[1..])
  }

  function BaseHash(ms: seq<Member>): bv64 { HashMembers(0x12345678, ms) }

  function BitValue(v: bv64, b: bv64, n: nat): nat { if v & b == 0 then 0 else n }

  function LowByte(v: bv64): (r: nat)
    ensures r < 256
  {
    BitValue(v, 1, 1) + BitValue(v, 2, 2) + BitValue(v, 4, 4) + BitValue(v, 8, 8) + BitValue(v, 0x10, 0x10)
    + BitValue(v, 0x20, 0x20) + BitValue(v, 0x40, 0x40) + BitValue(v, 0x80, 0x80)
  }

  /** The low n bytes as a number. */
  function NumberOf(v: bv64, n: nat): nat { if n == 0 then 0 else NumberOf(v >> 8, n - 1) * 256 + LowByte(v) }

  /** The 64 bits as a number. */
  function BaseInt(ms: seq<Member>): nat { NumberOf(BaseHash(ms), 8) }

  method HashStringLoop(v: bv64, s: string) returns (r: bv64)
    ensures r == HashString(v, s)
  {
    r := HashUpdate(v, |s|);
    var i := 0;
    hide HashUpdate;
    while i < |s|
      invariant 0 <= i <= |s| && HashChars(r, s[i..]) == HashString(v, s)
    {
      r := HashUpdate(r, s[i] as int);
      i := i + 1;
    }
  }

  method HashDimsLoop(v: bv64, dims: seq<Dim>) returns (r: bv64)
    ensures r == HashDims(v, dims)
  {
    hide HashUpdate; hide HashString;
    r := v;
    var j := 0;
    while j < |dims|
      invariant 0 <= j <= |dims| && HashDims(r, dims[j..]) == HashDims(v, dims)
    {
      var d := dims[j];
      r := HashUpdate(r, if d.Const? then 0 else 1);
      r := HashStringLoop(r, if d.Const? then d.token else d.member);
      j := j + 1;
    }
  }

  /** lcm_struct_hash */
  method StructHash(ms: seq<Member>) returns (v: bv64)
    ensures v == BaseHash(ms)
  {
    hide HashUpdate; hide HashString; hide HashDims;
    v := 0x12345678;
    var i := 0;
    while i < |ms|
      invariant 0 <= i <= |ms| && HashMembers(v, ms[i..]) == BaseHash(ms)
    {
      var m := ms[i];
      v := HashStringLoop(v, m.name);
      if !m.ty.Struct? { v := HashStringLoop(v, PrimName(m.ty)); }
      v := HashUpdate(v, |m.dims|);
      v := HashDimsLoop(v, m.dims);
      i := i + 1;
    }
  }

  // ----- the recursion in C -----

  const TWO64 := 0x1_0000_0000_0000_0000
  const TWO63 := 0x8000_0000_0000_0000

  /** The 64 bits of a number, read without sign. */
  function Residue(x: int): nat { x % TWO64 }

  /** int64_t arithmetic */
  function Wrap(x: int): int {
    var u := x % TWO64;
    if u < TWO63 then u else u - TWO64
  }

  /** A member type that is a struct is declared. */
  ghost predicate Closed(s: Schema) {
    forall name, i :: name in s.structs && 0 <= i < |s.structs[name]| ==> TypeOk(s, s.structs[name][i].ty)
  }

  /** __lcm_hash_ptr: the types whose hash is being computed, innermost first. */
  datatype HashPtr = Null | Ptr(parent: HashPtr, v: string)

  function Chain(p: HashPtr): set<string> { if p.Null? then {} else Chain(p.parent) + {p.v} }

  /** for (fp = p; fp != NULL; fp = fp->parent) */
  predicate OnChain(p: HashPtr, name: string) { p.Ptr? && (p.v == name || OnChain(p.parent, name)) }

  lemma {:induction false} OnChainIs(p: HashPtr, name: string)
    ensures OnChain(p, name) <==> name in Chain(p)
  {
    if p.Ptr? { OnChainIs(p.parent, name); }
  }

  /** Types not yet among the parents. */
  function Unvisited(s: Schema, parents: set<string>): nat { |s.structs.Keys - parents| }

  lemma FewerUnvisited(s: Schema, parents: set<string>, name: string)
    requires name in s.structs && name !in parents
    ensures Unvisited(s, parents + {name}) < Unvisited(s, parents)
  {
    assert s.structs.Keys - (parents + {name}) == s.structs.Keys - parents - {name};
  }

  /** (hash<<1) + ((hash>>63)&1) on int64_t */
  function Rotate(h: int): int { Wrap(Wrap(h * 2) + if h < 0 then 1 else 0) }

  /** __T_hash_recursive. It ends on every schema, cyclic ones included: each level
      of recursion has one more type among the parents. */
  function CHash(s: Schema, name: string, p: HashPtr): int
    requires Closed(s) && name in s.structs
    decreases Unvisited(s, Chain(p)), 0, 0
  {
    if OnChain(p, name) then 0
    else
      OnChainIs(p, name);
      FewerUnvisited(s, Chain(p), name);
      Rotate(Wrap(BaseInt(s.structs[name]) + SumOfMembers(s, name, 0, Ptr(p, name))))
  }

  /** + __T_hash_recursive(&cp) for the members from i on; primitive types give 0. */
  function SumOfMembers(s: Schema, name: string, i: nat, cp: HashPtr): int
    requires Closed(s) && name in s.structs && i <= |s.structs[name]|
    decreases Unvisited(s, Chain(cp)), 1, |s.structs[name]| - i
  {
    if i == |s.structs[name]| then 0
    else
      var t := s.structs[name][i].ty;
      assert TypeOk(s, t);
      (if t.Struct? then CHash(s, t.name, cp) else 0) + SumOfMembers(s, name, i + 1, cp)
  }

  // ----- Java: one list, pushed and popped -----

  class ClassList {
    var classes: seq<string>

    constructor ()
      ensures classes == []
    {
      classes := [];
    }

    method Add(c: string)
      modifies this
      ensures classes == old(classes) + [c]
    {
      classes := classes + [c];
    }

    method RemoveLast()
      requires classes != []
      modifies this
      ensures classes == old(classes)[..|old(classes)| - 1]
    {
      classes := classes[..|classes| - 1];
    }
  }

  /** The same parents as a chain. */
  function AsChain(l: seq<string>): HashPtr {
    if l == [] then Null else Ptr(AsChain(l[..|l| - 1]), l[|l| - 1])
  }

  lemma {:induction false} AsChainHas(l: seq<string>, name: string)
    ensures name in Chain(AsChain(l)) <==> name in l
  {
    if l != [] { AsChainHas(l[..|l| - 1], name); }
  }

  lemma PushedChain(l: seq<string>, name: string)
    ensures AsChain(l + [name]) == Ptr(AsChain(l), name)
  {
    assert (l + [name])[..|l|] == l;
  }

  lemma SumUnfolds(s: Schema, name: string, i: nat, cp: HashPtr)
    requires Closed(s) && name in s.structs && i <= |s.structs[name]|
    ensures i == |s.structs[name]| ==> SumOfMembers(s, name, i, cp) == 0
    ensures i < |s.structs[name]| ==>
      var t := s.structs[name][i].ty;
      && (t.Struct? ==> t.name in s.structs)
      && SumOfMembers(s, name, i, cp) == (if t.Struct? then CHash(s, t.name, cp) else 0) +
        SumOfMembers(s, name, i + 1, cp)
  {
    hide CHash;
    if i < |s.structs[name]| { assert TypeOk(s, s.structs[name][i].ty); }
  }

  lemma CUnfolds(s: Schema, name: string, p: HashPtr)
    requires Closed(s) && name in s.structs && name !in Chain(p)
    ensures CHash(s, name, p) == Rotate(Wrap(BaseInt(s.structs[name]) + SumOfMembers(s, name, 0, Ptr(p, name))))
  {
    OnChainIs(p, name);
    hide Rotate; hide Wrap; hide BaseInt; hide SumOfMembers; hide Unvisited; hide Chain;
  }

  lemma ChainGrows(s: Schema, name: string, p: HashPtr)
    requires name in s.structs && name !in Chain(p)
    ensures Unvisited(s, Chain(Ptr(p, name))) < Unvisited(s, Chain(p))
  {
    FewerUnvisited(s, Chain(p), name);
  }

  lemma OnChainIsZero(s: Schema, name: string, p: HashPtr)
    requires Closed(s) && name in s.structs && OnChain(p, name)
    ensures CHash(s, name, p) == 0
  {}

  /** _hashRecursive leaves the list as it found it and computes what C computes. */
  method JavaHash(s: Schema, name: string, classes: ClassList) returns (hash: int)
    requires Closed(s) && name in s.structs
    modifies classes
    ensures classes.classes == old(classes.classes)
    ensures hash == CHash(s, name, AsChain(old(classes.classes)))
    decreases Unvisited(s, Chain(AsChain(classes.classes))), 0
  {
    hide *;
    ghost var before := classes.classes;
    AsChainHas(before, name);
    OnChainIs(AsChain(before), name);
    if name in classes.classes {
      OnChainIsZero(s, name, AsChain(before));
      return 0;
    }
    CUnfolds(s, name, AsChain(before));
    ChainGrows(s, name, AsChain(before));
    PushedChain(before, name);
    classes.Add(name);
    var sum: int := BaseInt(s.structs[name]);
    var i := 0;
    while i < |s.structs[name]|
      invariant 0 <= i <= |s.structs[name]| && classes.classes == before + [name]
      invariant sum + SumOfMembers(s, name, i, Ptr(AsChain(before), name))
             == BaseInt(s.structs[name]) + SumOfMembers(s, name, 0, Ptr(AsChain(before), name))
    {
      var t := s.structs[name][i].ty;
      SumUnfolds(s, name, i, Ptr(AsChain(before), name));
      if t.Struct? {
        var h := JavaHash(s, t.name, classes);
        sum := sum + h;
      }
      i := i + 1;
    }
    SumUnfolds(s, name, i, Ptr(AsChain(before), name));
    classes.RemoveLast();
    return Rotate(Wrap(sum));
  }

  // ----- Python: a new list at each level, and unsigned numbers -----

  /** The masks and shifts on a long */
  function PyRotate(sum: nat): nat {
    var tmphash := sum % TWO64;
    ((tmphash * 2) % TWO64 + tmphash / TWO63) % TWO64
  }

  function PyHash(s: Schema, name: string, parents: seq<string>): nat
    requires Closed(s) && name in s.structs
    decreases Unvisited(s, Chain(AsChain(parents))), 0, 0
  {
    if name in parents then 0
    else
      AsChainHas(parents, name);
      FewerUnvisited(s, Chain(AsChain(parents)), name);
      PushedChain(parents, name);
      PyRotate(BaseInt(s.structs[name]) + PySum(s, name, 0, parents + [name]))
  }

  function PySum(s: Schema, name: string, i: nat, newparents: seq<string>): nat
    requires Closed(s) && name in s.structs && i <= |s.structs[name]|
    decreases Unvisited(s, Chain(AsChain(newparents))), 1, |s.structs[name]| - i
  {
    if i == |s.structs[name]| then 0
    else
      var t := s.structs[name][i].ty;
      assert TypeOk(s, t);
      (if t.Struct? then PyHash(s, t.name, newparents) else 0) + PySum(s, name, i + 1, newparents)
  }

  lemma WrapResidue(x: int)
    ensures Residue(Wrap(x)) == Residue(x)
  {}

  lemma ShiftedTop(x: int)
    ensures var w, t := Wrap(x), Residue(x);
      && t / TWO63 == (if w < 0 then 1 else 0) && Residue(w * 2) == Residue(t * 2)
  {}

  lemma SumsAgree(a: int, b: int, c: int, d: int)
    requires Residue(a) == Residue(c) && Residue(b) == Residue(d)
    ensures Residue(a + b) == Residue(c + d)
  {}

  lemma ModAgain(x: int)
    ensures Residue(Residue(x)) == Residue(x)
  {}

  /** The signed and the unsigned rotation agree. */
  lemma RotationsAgree(x: int, y: nat)
    requires Residue(x) == Residue(y)
    ensures PyRotate(y) == Residue(Rotate(Wrap(x)))
  {
    ShiftedTop(x);
    var w, t := Wrap(x), Residue(x);
    var b := if w < 0 then 1 else 0;
    WrapResidue(w * 2);
    WrapResidue(Wrap(w * 2) + b);
    ModAgain(t * 2);
    SumsAgree(Wrap(w * 2), b, Residue(t * 2), b);
    assert PyRotate(y) == Residue(Residue(t * 2) + b);
    hide Residue; hide Wrap; hide PyRotate;
  }

  lemma PyUnfolds(s: Schema, name: string, parents: seq<string>)
    requires Closed(s) && name in s.structs && name !in parents
    ensures PyHash(s, name, parents) == PyRotate(BaseInt(s.structs[name]) + PySum(s, name, 0, parents + [name]))
  {
    hide PyRotate; hide BaseInt; hide PySum;
  }

  lemma Visited(s: Schema, name: string, parents: seq<string>)
    requires Closed(s) && name in s.structs && name in parents
    ensures PyHash(s, name, parents) == 0 && Residue(CHash(s, name, AsChain(parents))) == 0
  {
    AsChainHas(parents, name);
    OnChainIs(AsChain(parents), name);
  }

  lemma PySumUnfolds(s: Schema, name: string, i: nat, parents: seq<string>)
    requires Closed(s) && name in s.structs && i <= |s.structs[name]|
    ensures i == |s.structs[name]| ==> PySum(s, name, i, parents) == 0
    ensures i < |s.structs[name]| ==>
      var t := s.structs[name][i].ty;
      && (t.Struct? ==> t.name in s.structs)
      && PySum(s, name, i, parents) == (if t.Struct? then PyHash(s, t.name, parents) else 0) +
        PySum(s, name, i + 1, parents)
  {
    hide PyHash;
    if i < |s.structs[name]| { assert TypeOk(s, s.structs[name][i].ty); }
  }

  /** C, and so Java, and Python give every type the same 64 bits. */
  lemma {:induction false} PythonAgrees(s: Schema, name: string, parents: seq<string>)
    requires Closed(s) && name in s.structs
    ensures PyHash(s, name, parents) == Residue(CHash(s, name, AsChain(parents)))
    decreases Unvisited(s, Chain(AsChain(parents))), 0, 0
  {
    hide *;
    AsChainHas(parents, name);
    if name in parents {
      Visited(s, name, parents);
    } else {
      CUnfolds(s, name, AsChain(parents));
      ChainGrows(s, name, AsChain(parents));
      PyUnfolds(s, name, parents);
      PushedChain(parents, name);
      PythonSumAgrees(s, name, 0, parents + [name]);
      var base, cs, ps := BaseInt(s.structs[name]), SumOfMembers(s, name, 0, AsChain(parents + [name])),
        PySum(s, name, 0, parents + [name]);
      SumsAgree(base, cs, base, ps);
      RotationsAgree(base + cs, base + ps);
    }
  }

  lemma {:induction false} PythonSumAgrees(s: Schema, name: string, i: nat, parents: seq<string>)
    requires Closed(s) && name in s.structs && i <= |s.structs[name]|
    ensures Residue(PySum(s, name, i, parents)) == Residue(SumOfMembers(s, name, i, AsChain(parents)))
    decreases Unvisited(s, Chain(AsChain(parents))), 1, |s.structs[name]| - i
  {
    hide *;
    SumUnfolds(s, name, i, AsChain(parents));
    PySumUnfolds(s, name, i, parents);
    if i < |s.structs[name]| {
      var t := s.structs[name][i].ty;
      PythonSumAgrees(s, name, i + 1, parents);
      var c, p := 0, 0;
      if t.Struct? {
        PythonAgrees(s, t.name, parents);
        c, p := CHash(s, t.name, AsChain(parents)), PyHash(s, t.name, parents);
        ModAgain(c);
      }
      SumsAgree(p, PySum(s, name, i + 1, parents), c, SumOfMembers(s, name, i + 1, AsChain(parents)));
    }
  }

  // ----- renaming -----

  function RenameType(t: Type, f: map<string, string>): Type {
    if t.Struct? && t.name in f then Struct(f[t.name]) else t
  }

  predicate Injective(f: map<string, string>) {
    forall n, k :: n in f && k in f && f[n] == f[k] ==> n == k
  }

  predicate SameMembers(ms: seq<Member>, ms': seq<Member>, f: map<string, string>) {
    |ms| == |ms'| && forall i :: 0 <= i < |ms| ==> ms'[i] == ms[i].(ty := RenameType(ms[i].ty, f))
  }

  /** s' is s with its structs renamed by f, no two to the same name. */
  ghost predicate Renamed(s: Schema, s': Schema, f: map<string, string>) {
    && Injective(f)
    && (forall n :: n in s.structs ==> n in f && f[n] in s'.structs && SameMembers(s.structs[n], s'.structs[f[n]], f))
  }

  lemma {:induction false} BaseHashIgnoresStructNames(v: bv64, ms: seq<Member>, ms': seq<Member>,
      f: map<string, string>)
    requires SameMembers(ms, ms', f)
    ensures HashMembers(v, ms) == HashMembers(v, ms')
    decreases |ms|
  {
    if ms != [] {
      assert HashMember(v, ms[0]) == HashMember(v, ms'[0]);
      BaseHashIgnoresStructNames(HashMember(v, ms[0]), ms[1..], ms'[1..], f);
    }
  }

  /** The chains name the same types before and after renaming. */
  predicate SameChain(p: HashPtr, p': HashPtr, f: map<string, string>) {
    if p.Null? then p'.Null? else p'.Ptr? && p.v in f && p'.v == f[p.v] && SameChain(p.parent, p'.parent, f)
  }

  lemma {:induction false} SameChainOn(p: HashPtr, p': HashPtr, f: map<string, string>, name: string)
    requires SameChain(p, p', f) && name in f && Injective(f)
    ensures OnChain(p, name) <==> OnChain(p', f[name])
  {
    if p.Ptr? { SameChainOn(p.parent, p'.parent, f, name); }
  }

  lemma SameChainPush(p: HashPtr, p': HashPtr, f: map<string, string>, name: string)
    requires SameChain(p, p', f) && name in f
    ensures SameChain(Ptr(p, name), Ptr(p', f[name]), f)
  {}

  lemma RenamedBase(s: Schema, s': Schema, f: map<string, string>, name: string)
    requires Renamed(s, s', f) && name in s.structs
    ensures Injective(f) && name in f && f[name] in s'.structs
      && BaseInt(s'.structs[f[name]]) == BaseInt(s.structs[name])
  {
    BaseHashIgnoresStructNames(0x12345678, s.structs[name], s'.structs[f[name]], f);
  }

  /** Renaming struct types leaves every fingerprint unchanged. */
  lemma {:induction false} RenamingKeepsHash(s: Schema, s': Schema, f: map<string, string>, name: string, p: HashPtr,
      p': HashPtr)
    requires Closed(s) && Closed(s') && Renamed(s, s', f) && name in s.structs && SameChain(p, p', f)
    ensures CHash(s', f[name], p') == CHash(s, name, p)
    decreases Unvisited(s, Chain(p)), 0, 0
  {
    hide *;
    RenamedBase(s, s', f, name);
    SameChainOn(p, p', f, name);
    OnChainIs(p, name);
    OnChainIs(p', f[name]);
    if OnChain(p, name) {
      OnChainIsZero(s, name, p);
      OnChainIsZero(s', f[name], p');
    } else {
      var q, q' := Ptr(p, name), Ptr(p', f[name]);
      SameChainPush(p, p', f, name);
      CUnfolds(s, name, p);
      CUnfolds(s', f[name], p');
      ChainGrows(s, name, p);
      RenamingKeepsSum(s, s', f, name, 0, q, q');
    }
  }

  lemma {:induction false} RenamingKeepsSum(s: Schema, s': Schema, f: map<string, string>, name: string, i: nat,
      p: HashPtr, p': HashPtr)
    requires Closed(s) && Closed(s') && Renamed(s, s', f) && name in s.structs && SameChain(p, p', f)
      && i <= |s.structs[name]|
    ensures SumOfMembers(s', f[name], i, p') == SumOfMembers(s, name, i, p)
    decreases Unvisited(s, Chain(p)), 1, |s.structs[name]| - i
  {
    if i < |s.structs[name]| {
      var t := s.structs[name][i].ty;
      assert TypeOk(s, t) && s'.structs[f[name]][i].ty == RenameType(t, f);
      if t.Struct? { RenamingKeepsHash(s, s', f, t.name, p, p'); }
      RenamingKeepsSum(s, s', f, name, i + 1, p, p');
    }
  }

  /** T_get_hash, the fingerprint of a type. */
  function FingerprintOf(s: Schema, name: string): int
    requires Closed(s) && name in s.structs
  {
    CHash(s, name, Null)
  }

  /** T_get_hash, LCM_FINGERPRINT and _get_packed_fingerprint are one number, and it
      does not depend on what the structs are called. */
  lemma FingerprintsAgree(s: Schema, s': Schema, f: map<string, string>, name: string)
    requires Closed(s) && Closed(s') && Renamed(s, s', f) && name in s.structs
    ensures PyHash(s, name, []) == Residue(FingerprintOf(s, name))
    ensures FingerprintOf(s', f[name]) == FingerprintOf(s, name)
  {
    PythonAgrees(s, name, []);
    RenamingKeepsHash(s, s', f, name, Null, Null);
  }
}
