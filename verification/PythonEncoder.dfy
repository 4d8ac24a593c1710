/** The Python encoder emitted by upstream/lcmgen/emit_python.c: runs of scalar
    members are packed in one call. The emitted text is kept as a small program. */
module PythonEncoder {
  import opened Buffers
  import opened Bytes
  import opened Schema
  import opened Codec
  import opened Wrappers

  /** The statements _encode_one is made of; indentation is nesting. */
  datatype Stmt =
    | Pack(formats: seq<char>, members: seq<string>)      // buf.write(struct.pack(">...", self.a, self.b))
    | EncodeOne(member: string, ty: Type)                 // the writes for self.m[i0]...[ik]
    | EncodeList(member: string, format: char, len: Dim)  // struct.pack('>%d.', *self.m[i0]...[:n])
    | ForRange(dim: Dim, body: Stmt)                      // for ik in range(n):

  // ----- what the statements write -----

  /** One value under a format character of the struct module, big-endian. */
  function PackOne(format: char, v: Value): seq<byte> {
    if !v.Num? then []
    else if format == 'b' || format == 'B' then EncodeInt(v.v, 1)
    else if format == 'h' then EncodeInt(v.v, 2)
    else if format == 'i' || format == 'f' then EncodeInt(v.v, 4)
    else EncodeInt(v.v, 8)
  }

  /** self.name */
  function Attribute(ms: seq<Member>, v: Value, name: string): Value {
    match IndexOf(ms, name)
    case None => Num(0)
    case Some(j) => if v.Rec? && j < |v.fields| then v.fields[j] else Num(0)
  }

  /** v[i0][i1]... */
  function Subscript(v: Value, idx: seq<nat>): Value {
    if idx == [] then v
    else if v.Arr? && idx[0] < |v.elems| then Subscript(v.elems[idx[0]], idx[1..])
    else Num(0)
  }

  function PackAll(ms: seq<Member>, v: Value, formats: seq<char>, members: seq<string>): seq<byte> {
    if formats == [] || members == [] then []
    else PackOne(formats[0], Attribute(ms, v, members[0])) + PackAll(ms, v, formats[1..], members[1..])
  }

  function PackList(format: char, vs: seq<Value>): seq<byte> {
    if vs == [] then [] else PackOne(format, vs[0]) + PackList(format, vs[1..])
  }

  /** vs[:n] */
  function Slice(vs: seq<Value>, n: int): seq<Value> {
    if n < 0 then (if -n <= |vs| then vs[..|vs| + n] else []) else if n <= |vs| then vs[..n] else vs
  }

  /** A dimension's size as the record says: a literal or self.n. */
  function SizeIn(ms: seq<Member>, v: Value, d: Dim): int {
    if v.Rec? then DimSize(ms, v.fields, d) else 0
  }

  lemma {:induction false} SubscriptWithin(v: Value, idx: seq<nat>)
    ensures var r := Subscript(v, idx); r == v || r == Num(0) || r < v
    decreases |idx|
  {
    if idx != [] && v.Arr? && idx[0] < |v.elems| { SubscriptWithin(v.elems[idx[0]], idx[1..]); }
  }

  lemma AttributeWithin(ms: seq<Member>, v: Value, name: string, idx: seq<nat>)
    ensures var r := Subscript(Attribute(ms, v, name), idx); r == Num(0) || r < v
  {
    SubscriptWithin(Attribute(ms, v, name), idx);
    if idx != [] && Attribute(ms, v, name) == Num(0) { assert Subscript(Num(0), idx) == Num(0); }
  }

  /** _struct_format; None for 0 */
  function StructFormat(t: Type): Option<char> {
    if !t.Scalar? then None
    else match t.prim
      case ByteT => Some('B')
      case Boolean => Some('b')
      case Int8 => Some('b')
      case Int16 => Some('h')
      case Int32 => Some('i')
      case Int64 => Some('q')
      case Float => Some('f')
      case Double => Some('d')
  }

  /** _flush_write_struct_fmt */
  function Flush(formats: seq<char>, members: seq<string>): seq<Stmt> {
    if formats == [] then [] else [Pack(formats, members)]
  }

  /** The loops over the dimensions from k on. */
  function ArrayStmt(m: Member, k: nat): Stmt
    requires k < |m.dims|
    decreases |m.dims| - k
  {
    if k < |m.dims| - 1 then ForRange(m.dims[k], ArrayStmt(m, k + 1))
    else match StructFormat(m.ty)
      case Some(format) => EncodeList(m.name, format, m.dims[k])
      case None => ForRange(m.dims[k], EncodeOne(m.name, m.ty))
  }

  /** The statement for a member that is not queued. */
  function StmtOf(m: Member): Stmt { if m.dims == [] then EncodeOne(m.name, m.ty) else ArrayStmt(m, 0) }

  /** The rest of the program, with scalars queued. */
  function ProgramFrom(formats: seq<char>, members: seq<string>, ms: seq<Member>): seq<Stmt>
    decreases |ms|
  {
    if ms == [] then Flush(formats, members)
    else
      var m := ms[0];
      if m.dims == [] && m.ty.Scalar? then
        ProgramFrom(formats + [StructFormat(m.ty).value], members + [m.name], ms[1..])
      else
        Flush(formats, members) + [StmtOf(m)] + ProgramFrom([], [], ms[1..])
  }

  function Program(ms: seq<Member>): seq<Stmt> { ProgramFrom([], [], ms) }

  /** v._encode_one(buf) for an object v of struct type `name`. */
  function RunRecord(s: Schema, name: string, v: Value): seq<byte>
    decreases v, 2, 0, 0
  {
    if name in s.structs then RunAll(s, s.structs[name], v, Program(s.structs[name])) else []
  }

  function RunAll(s: Schema, ms: seq<Member>, v: Value, program: seq<Stmt>): seq<byte>
    decreases v, 1, |program|, 0
  {
    if program == [] then [] else Run(s, ms, v, [], program[0]) + RunAll(s, ms, v, program[1..])
  }

  /** One statement inside loops with indices idx. */
  function Run(s: Schema, ms: seq<Member>, v: Value, idx: seq<nat>, st: Stmt): seq<byte>
    decreases v, 0, st, 0
  {
    match st
    case Pack(formats, members) => PackAll(ms, v, formats, members)
    case EncodeOne(member, ty) =>
      AttributeWithin(ms, v, member, idx);
      var x := Subscript(Attribute(ms, v, member), idx);
      if ty.Struct? then (if x == Num(0) then [] else RunRecord(s, ty.name, x))
      else if ty.Str? && x.Text? then EncodeInt(|x.s| + 1, 4) + x.s + [0]
      else []
    case EncodeList(member, format, len) =>
      var x := Subscript(Attribute(ms, v, member), idx);
      if x.Arr? then PackList(format, Slice(x.elems, SizeIn(ms, v, len))) else []
    case ForRange(dim, body) =>
      var n := SizeIn(ms, v, dim);
      RunLoop(s, ms, v, idx, body, 0, if n < 0 then 0 else n)
  }

  function RunLoop(s: Schema, ms: seq<Member>, v: Value, idx: seq<nat>, body: Stmt, i: nat, n: nat): seq<byte>
    decreases v, 0, body, if i < n then n - i else 0, 0
  {
    if i >= n then [] else Run(s, ms, v, idx + [i], body) + RunLoop(s, ms, v, idx, body, i + 1, n)
  }

  // ----- what the emitter puts out -----

  function Names(ms: seq<Member>): (r: seq<string>)
    ensures |r| == |ms|
  {
    if ms == [] then [] else [ms[0].name] + Names(ms[1..])
  }

  lemma {:induction false} NamesSnoc(ms: seq<Member>, m: Member)
    ensures Names(ms + [m]) == Names(ms) + [m.name]
  {
    if ms != [] {
      assert (ms + [m])[1..] == ms[1..] + [m];
      NamesSnoc(ms[1..], m);
    }
  }

  /** Pops both queues empty. */
  method FlushWriteStructFmt(formats: seq<char>, members: seq<Member>) returns (out: seq<Stmt>)
    requires |formats| == |members|
    ensures out == Flush(formats, Names(members))
  {
    if formats == [] { return []; }
    var fs, ms, format, args := formats, members, [], [];
    while fs != []
      invariant format + fs == formats
      decreases |fs|
    {
      format, fs := format + [fs[0]], fs[1..];
    }
    while ms != []
      invariant args + Names(ms) == Names(members)
      decreases |ms|
    {
      args, ms := args + [ms[0].name], ms[1..];
    }
    assert format + fs == format && args + Names(ms) == args;
    return [Pack(format, args)];
  }

  /** The statement for an array member, built from the inside out. */
  method EmitArray(m: Member) returns (st: Stmt)
    requires m.dims != []
    ensures st == ArrayStmt(m, 0)
  {
    var n := |m.dims| - 1;
    var format := StructFormat(m.ty);
    if format.Some? {
      st := EncodeList(m.name, format.value, m.dims[n]);
    } else {
      st := ForRange(m.dims[n], EncodeOne(m.name, m.ty));
    }
    while n > 0
      invariant 0 <= n < |m.dims| && st == ArrayStmt(m, n)
    {
      n := n - 1;
      st := ForRange(m.dims[n], st);
    }
  }

  /** emit_python_encode_one with its two queues. */
  method EmitEncodeOne(ms: seq<Member>) returns (program: seq<Stmt>)
    ensures program == Program(ms)
  {
    program := [];
    var structFmt: seq<char>, structMembers: seq<Member> := [], [];
    var i := 0;
    while i < |ms|
      invariant 0 <= i <= |ms| && |structFmt| == |structMembers|
      invariant program + ProgramFrom(structFmt, Names(structMembers), ms[i..]) == Program(ms)
    {
      var m := ms[i];
      var fmt := StructFormat(m.ty);
      if |m.dims| == 0 && fmt.Some? {
        NamesSnoc(structMembers, m);
        structFmt, structMembers := structFmt + [fmt.value], structMembers + [m];
      } else {
        var flushed := FlushWriteStructFmt(structFmt, structMembers);
        var st;
        if |m.dims| == 0 { st := EncodeOne(m.name, m.ty); } else { st := EmitArray(m); }
        ghost var rest := ProgramFrom([], [], ms[i + 1..]);
        assert ms[i..][1..] == ms[i + 1..];
        assert program + (flushed + [st] + rest) == program + flushed + [st] + rest;
        program := program + flushed + [st];
        structFmt, structMembers := [], [];
      }
      i := i + 1;
    }
    var last := FlushWriteStructFmt(structFmt, structMembers);
    program := program + last;
  }

  // ----- the same bytes as in C -----

  predicate DistinctNames(ms: seq<Member>) {
    forall i, j :: 0 <= i < j < |ms| ==> ms[i].name != ms[j].name
  }

  ghost predicate AllDistinct(s: Schema) {
    forall name :: name in s.structs ==> DistinctNames(s.structs[name])
  }

  lemma NameFindsMember(ms: seq<Member>, i: nat)
    requires DistinctNames(ms) && i < |ms|
    ensures IndexOf(ms, ms[i].name) == Some(i)
  {
    var r := IndexOf(ms, ms[i].name);
    assert r.Some?;
  }

  lemma PackOneSame(s: Schema, t: Type, v: Value)
    requires t.Scalar? && v.Num?
    ensures PackOne(StructFormat(t).value, v) == Encode(s, t, v)
  {}

  lemma {:induction false} PackListSame(s: Schema, t: Type, vs: seq<Value>)
    requires t.Scalar? && forall k :: 0 <= k < |vs| ==> IsValue(s, t, vs[k])
    ensures PackList(StructFormat(t).value, vs) == EncodeElems(s, t, 0, vs)
  {
    hide PackOne; hide EncodeInt;
    if vs != [] {
      PackOneSame(s, t, vs[0]);
      PackListSame(s, t, vs[1..]);
    }
  }

  lemma {:induction false} PackAllSnoc(ms: seq<Member>, v: Value, formats: seq<char>, members: seq<string>, c: char,
      n: string)
    requires |formats| == |members|
    ensures PackAll(ms, v, formats + [c], members + [n]) == PackAll(ms, v, formats, members) +
      PackOne(c, Attribute(ms, v, n))
    decreases |formats|
  {
    hide PackOne; hide Attribute;
    if formats == [] {
      assert (formats + [c])[1..] == [] && (members + [n])[1..] == [];
      assert PackAll(ms, v, (formats + [c])[1..], (members + [n])[1..]) == [];
    } else {
      assert (formats + [c])[1..] == formats[1..] + [c] && (members + [n])[1..] == members[1..] + [n];
      PackAllSnoc(ms, v, formats[1..], members[1..], c, n);
      Regroup(PackOne(formats[0], Attribute(ms, v, members[0])), PackAll(ms, v, formats[1..], members[1..]),
        PackOne(c, Attribute(ms, v, n)));
    }
  }

  lemma {:induction false} RunAllAppend(s: Schema, ms: seq<Member>, v: Value, p: seq<Stmt>, q: seq<Stmt>)
    ensures RunAll(s, ms, v, p + q) == RunAll(s, ms, v, p) + RunAll(s, ms, v, q)
    decreases |p|
  {
    hide Run;
    if p == [] {
      assert p + q == q;
    } else {
      assert (p + q)[1..] == p[1..] + q && (p + q)[0] == p[0];
      RunAllAppend(s, ms, v, p[1..], q);
      Regroup(Run(s, ms, v, [], p[0]), RunAll(s, ms, v, p[1..]), RunAll(s, ms, v, q));
    }
  }

  lemma RunOne(s: Schema, ms: seq<Member>, v: Value, st: Stmt)
    ensures RunAll(s, ms, v, [st]) == Run(s, ms, v, [], st)
  {
    hide Run;
    var none: seq<Stmt> := [];
    assert [st][1..] == none && RunAll(s, ms, v, none) == [];
  }

  lemma FlushSame(s: Schema, ms: seq<Member>, v: Value, formats: seq<char>, members: seq<string>)
    ensures RunAll(s, ms, v, Flush(formats, members)) == PackAll(ms, v, formats, members)
  {
    if formats != [] {
      RunOne(s, ms, v, Pack(formats, members));
    }
  }

  lemma {:induction false} SubscriptSnoc(v: Value, idx: seq<nat>, i: nat)
    ensures Subscript(v, idx + [i]) ==
      (var x := Subscript(v, idx); if x.Arr? && i < |x.elems| then x.elems[i] else Num(0))
    decreases |idx|
  {
    if idx == [] {
      assert [] + [i] == [i] && [i][1..] == [];
    } else {
      assert (idx + [i])[1..] == idx[1..] + [i] && (idx + [i])[0] == idx[0];
      if v.Arr? && idx[0] < |v.elems| { SubscriptSnoc(v.elems[idx[0]], idx[1..], i); }
    }
  }

  lemma ValueShape(s: Schema, name: string, v: Value)
    requires IsValue(s, Struct(name), v)
    ensures v.Rec? && name in s.structs && |v.fields| == |s.structs[name]|
  {}

  lemma NothingPacked(ms: seq<Member>, v: Value)
    ensures PackAll(ms, v, [], []) == [] && forall x: seq<byte> :: [] + x == x
  {}

  lemma ProgramEnd(s: Schema, ms: seq<Member>, v: Value, formats: seq<char>, members: seq<string>)
    requires v.Rec? && |v.fields| == |ms|
    ensures RunAll(s, ms, v, ProgramFrom(formats, members, ms[|ms|..]))
         == PackAll(ms, v, formats, members) + EncodeFields(s, ms[|ms|..], v.fields[|ms|..])
  {
    FlushSame(s, ms, v, formats, members);
    assert EncodeFields(s, ms[|ms|..], v.fields[|ms|..]) == [];
  }

  lemma FieldsUnfold(s: Schema, ms: seq<Member>, fields: seq<Value>, i: nat)
    requires i < |ms| == |fields|
    ensures EncodeFields(s, ms[i..], fields[i..]) == EncodeArray(s, ms[i].ty, |ms[i].dims|, fields[i]) +
      EncodeFields(s, ms[i + 1..], fields[i + 1..])
  {
    hide EncodeArray;
    assert ms[i..][1..] == ms[i + 1..] && fields[i..][1..] == fields[i + 1..];
  }

  lemma ProgramQueues(formats: seq<char>, members: seq<string>, ms: seq<Member>, i: nat)
    requires i < |ms| && |ms[i].dims| == 0 && ms[i].ty.Scalar?
    ensures StructFormat(ms[i].ty).Some?
    ensures ProgramFrom(formats, members, ms[i..]) ==
      ProgramFrom(formats + [StructFormat(ms[i].ty).value], members + [ms[i].name], ms[i + 1..])
  {
    assert ms[i..][1..] == ms[i + 1..] && ms[i].dims == [];
  }

  lemma ProgramFlushes(s: Schema, ms: seq<Member>, v: Value, formats: seq<char>, members: seq<string>, i: nat)
    requires i < |ms| && !(|ms[i].dims| == 0 && ms[i].ty.Scalar?)
    ensures RunAll(s, ms, v, ProgramFrom(formats, members, ms[i..]))
         == PackAll(ms, v, formats, members) + Run(s, ms, v, [], StmtOf(ms[i])) +
           RunAll(s, ms, v, ProgramFrom([], [], ms[i + 1..]))
  {
    assert ms[i..][1..] == ms[i + 1..];
    var f, st, rest := Flush(formats, members), StmtOf(ms[i]), ProgramFrom([], [], ms[i + 1..]);
    assert ProgramFrom(formats, members, ms[i..]) == f + [st] + rest;
    hide *;
    RunAllAppend(s, ms, v, f + [st], rest);
    RunAllAppend(s, ms, v, f, [st]);
    RunOne(s, ms, v, st);
    FlushSame(s, ms, v, formats, members);
  }

  lemma MemberValue(s: Schema, name: string, v: Value, i: nat)
    requires WellFormed(s) && AllDistinct(s) && IsValue(s, Struct(name), v) && i < |v.fields|
    ensures var ms := s.structs[name];
      && i < |ms| && Attribute(ms, v, ms[i].name) == v.fields[i] && TypeOk(s, ms[i].ty)
      && IsArray(s, ms[i].ty, Sizes(ms, v.fields, ms[i].dims), v.fields[i])
  {
    var ms := s.structs[name];
    assert MemberOk(s, name, i) && DistinctNames(ms);
    NameFindsMember(ms, i);
  }

  lemma ScalarSame(s: Schema, name: string, v: Value, i: nat)
    requires WellFormed(s) && AllDistinct(s) && IsValue(s, Struct(name), v) && i < |v.fields|
    requires var m := s.structs[name][i]; |m.dims| == 0 && m.ty.Scalar?
    ensures var ms := s.structs[name];
      PackOne(StructFormat(ms[i].ty).value, Attribute(ms, v, ms[i].name)) ==
        EncodeArray(s, ms[i].ty, |ms[i].dims|, v.fields[i])
    ensures StructFormat(s.structs[name][i].ty).Some?
  {
    MemberValue(s, name, v, i);
    PackOneSame(s, s.structs[name][i].ty, v.fields[i]);
  }

  /** _encode_one writes what __T_encode_array writes. */
  lemma {:induction false} RecordSame(s: Schema, name: string, v: Value)
    requires WellFormed(s) && AllDistinct(s) && IsValue(s, Struct(name), v)
    ensures RunRecord(s, name, v) == Encode(s, Struct(name), v)
    decreases v, 4, 0
  {
    var ms := s.structs[name];
    assert ms[0..] == ms && v.fields[0..] == v.fields;
    FromSame(s, name, v, 0, [], []);
    assert PackAll(ms, v, [], []) == [];
  }

  /** The queued scalars, then the members from i on. */
  lemma {:induction false} FromSame(s: Schema, name: string, v: Value, i: nat, formats: seq<char>, members: seq<string>)
    requires WellFormed(s) && AllDistinct(s) && IsValue(s, Struct(name), v) && i <= |v.fields| && |formats| == |members|
    ensures var ms := s.structs[name];
      RunAll(s, ms, v, ProgramFrom(formats, members, ms[i..])) == PackAll(ms, v, formats, members) +
        EncodeFields(s, ms[i..], v.fields[i..])
    decreases v, 3, |v.fields| - i
  {
    var ms := s.structs[name];
    ValueShape(s, name, v);
    hide *;
    if i == |ms| {
      ProgramEnd(s, ms, v, formats, members);
    } else {
      var m := ms[i];
      var rest, code := EncodeFields(s, ms[i + 1..], v.fields[i + 1..]), EncodeArray(s, m.ty, |m.dims|, v.fields[i]);
      FieldsUnfold(s, ms, v.fields, i);
      if |m.dims| == 0 && m.ty.Scalar? {
        ProgramQueues(formats, members, ms, i);
        var c := StructFormat(m.ty).value;
        FromSame(s, name, v, i + 1, formats + [c], members + [m.name]);
        PackAllSnoc(ms, v, formats, members, c, m.name);
        ScalarSame(s, name, v, i);
      } else {
        ProgramFlushes(s, ms, v, formats, members, i);
        FromSame(s, name, v, i + 1, [], []);
        StmtSame(s, name, v, i);
        NothingPacked(ms, v);
      }
      Regroup(PackAll(ms, v, formats, members), code, rest);
    }
  }

  /** A string, struct or array member. */
  lemma {:induction false} StmtSame(s: Schema, name: string, v: Value, i: nat)
    requires WellFormed(s) && AllDistinct(s) && IsValue(s, Struct(name), v) && i < |v.fields|
    requires var m := s.structs[name][i]; |m.dims| > 0 || !m.ty.Scalar?
    ensures var ms := s.structs[name];
      Run(s, ms, v, [], StmtOf(ms[i])) == EncodeArray(s, ms[i].ty, |ms[i].dims|, v.fields[i])
    decreases v, 2, 0
  {
    var ms := s.structs[name];
    MemberValue(s, name, v, i);
    var sizes := Sizes(ms, v.fields, ms[i].dims);
    if ms[i].dims == [] {
      OneSame(s, name, v, i, []);
    } else {
      assert sizes[0..] == sizes;
      ArraySame(s, name, v, i, 0, []);
    }
  }

  /** self.m[i0][i1]... as one string or struct */
  lemma {:induction false} OneSame(s: Schema, name: string, v: Value, i: nat, idx: seq<nat>)
    requires WellFormed(s) && AllDistinct(s) && IsValue(s, Struct(name), v) && i < |v.fields|
    requires var m := s.structs[name][i]; !m.ty.Scalar? && IsValue(s, m.ty, Subscript(v.fields[i], idx))
    ensures var ms := s.structs[name];
      Run(s, ms, v, idx, EncodeOne(ms[i].name, ms[i].ty)) == Encode(s, ms[i].ty, Subscript(v.fields[i], idx))
    decreases v, 0, 0
  {
    var ms := s.structs[name];
    MemberValue(s, name, v, i);
    AttributeWithin(ms, v, ms[i].name, idx);
    if ms[i].ty.Struct? { RecordSame(s, ms[i].ty.name, Subscript(v.fields[i], idx)); }
  }

  lemma {:induction false} ArraySame(s: Schema, name: string, v: Value, i: nat, k: nat, idx: seq<nat>)
    requires WellFormed(s) && AllDistinct(s) && IsValue(s, Struct(name), v) && i < |v.fields|
    requires k < |s.structs[name][i].dims|
    requires var ms := s.structs[name];
      IsArray(s, ms[i].ty, Sizes(ms, v.fields, ms[i].dims)[k..], Subscript(v.fields[i], idx))
    ensures var ms := s.structs[name];
      Run(s, ms, v, idx, ArrayStmt(ms[i], k)) == EncodeArray(s, ms[i].ty, |ms[i].dims| - k, Subscript(v.fields[i], idx))
    decreases v, 1, 2 * (|s.structs[name][i].dims| - k)
  {
    var ms := s.structs[name];
    var m, x := ms[i], Subscript(v.fields[i], idx);
    var sizes := Sizes(ms, v.fields, m.dims)[k..];
    MemberValue(s, name, v, i);
    assert sizes[0] == SizeIn(ms, v, m.dims[k]) && sizes[1..] == Sizes(ms, v.fields, m.dims)[k + 1..];
    if k == |m.dims| - 1 && m.ty.Scalar? {
      assert Slice(x.elems, sizes[0]) == x.elems;
      assert forall j :: 0 <= j < |x.elems| ==> IsArray(s, m.ty, sizes[1..], x.elems[j]) && sizes[1..] == [];
      PackListSame(s, m.ty, x.elems);
    } else {
      assert x.elems[0..] == x.elems;
      LoopSame(s, name, v, i, k, idx, 0);
    }
  }

  /** The loop over dimension k from index j on. */
  lemma {:induction false} LoopSame(s: Schema, name: string, v: Value, i: nat, k: nat, idx: seq<nat>, j: nat)
    requires WellFormed(s) && AllDistinct(s) && IsValue(s, Struct(name), v) && i < |v.fields|
    requires k < |s.structs[name][i].dims| && (k == |s.structs[name][i].dims| - 1 ==> !s.structs[name][i].ty.Scalar?)
    requires var ms := s.structs[name];
      IsArray(s, ms[i].ty, Sizes(ms, v.fields, ms[i].dims)[k..], Subscript(v.fields[i], idx))
    requires j <= |Subscript(v.fields[i], idx).elems|
    ensures var ms := s.structs[name]; var x := Subscript(v.fields[i], idx);
      var body := if k == |ms[i].dims| - 1 then EncodeOne(ms[i].name, ms[i].ty) else ArrayStmt(ms[i], k + 1);
      RunLoop(s, ms, v, idx, body, j, |x.elems|) == EncodeElems(s, ms[i].ty, |ms[i].dims| - k - 1, x.elems[j..])
    decreases v, 1, 2 * (|s.structs[name][i].dims| - k) - 1, |Subscript(v.fields[i], idx).elems| - j
  {
    var ms, x := s.structs[name], Subscript(v.fields[i], idx);
    if j < |x.elems| {
      LoopSame(s, name, v, i, k, idx, j + 1);
      SubscriptSnoc(v.fields[i], idx, j);
      var sizes := Sizes(ms, v.fields, ms[i].dims);
      assert sizes[k..][1..] == sizes[k + 1..];
      assert IsArray(s, ms[i].ty, sizes[k + 1..], x.elems[j]);
      if k == |ms[i].dims| - 1 {
        OneSame(s, name, v, i, idx + [j]);
      } else {
        ArraySame(s, name, v, i, k + 1, idx + [j]);
      }
      assert x.elems[j..][1..] == x.elems[j + 1..];
    }
  }

  /** The program emitted for a struct writes, for every value, exactly the bytes of
      the C encoder. */
  method EmitStruct(s: Schema, name: string) returns (program: seq<Stmt>)
    requires WellFormed(s) && AllDistinct(s) && name in s.structs
    ensures forall v {:trigger RunAll(s, s.structs[name], v, program)} ::
      IsValue(s, Struct(name), v) ==> RunAll(s, s.structs[name], v, program) == Encode(s, Struct(name), v)
  {
    program := EmitEncodeOne(s.structs[name]);
    forall v | IsValue(s, Struct(name), v)
      ensures RunAll(s, s.structs[name], v, program) == Encode(s, Struct(name), v)
    {
      RecordSame(s, name, v);
    }
  }
}
