/** How many elements the arrays of a value have, said by the members it is made of. */
module ArrayLengths {
  import opened Bytes
  import opened Codec
  import opened CodecPrefix
  import opened Schema
  import opened Wrappers

  /** The element at these positions, outermost dimension first. */
  function At(v: Value, path: seq<nat>): Option<Value>
    decreases |path|
  {
    if path == [] then Some(v)
    else if v.Arr? && path[0] < |v.elems| then At(v.elems[path[0]], path[1..])
    else None
  }

  /** ms[j] is the first member called that. */
  predicate FirstNamed(ms: seq<Member>, j: nat, name: string) {
    j < |ms| && ms[j].name == name && forall l :: 0 <= l < j ==> ms[l].name != name
  }

  /** n elements along a dimension of this size. A negative size member stands for no
      elements, and for no value at all if the elements are numbers. */
  ghost predicate HasLength(ms: seq<Member>, fields: seq<Value>, d: Dim, ofNumbers: bool, n: nat) {
    match d
    case Const(_, size) => n == size
    case Var(name) =>
      exists j: nat :: FirstNamed(ms, j, name) && j < |fields| && fields[j].Num?
        && (fields[j].v == n || (fields[j].v < 0 && n == 0 && !ofNumbers))
  }

  /** Each dimension of the member has its length, and what is inside is of its type. */
  ghost predicate ElementAt(s: Schema, ms: seq<Member>, fields: seq<Value>, m: Member, path: seq<nat>, x: Value) {
    if |path| < |m.dims| then
      x.Arr? && HasLength(ms, fields, m.dims[|path|], m.ty.Scalar? && |path| + 1 == |m.dims|, |x.elems|)
    else IsValue(s, m.ty, x)
  }

  ghost predicate MemberIs(s: Schema, ms: seq<Member>, fields: seq<Value>, m: Member, v: Value) {
    forall path: seq<nat> :: |path| <= |m.dims| && At(v, path).Some? ==>
      ElementAt(s, ms, fields, m, path, At(v, path).value)
  }

  /** What IsArray says of an element. */
  predicate SizedAt(s: Schema, t: Type, sizes: seq<int>, depth: nat, x: Value)
    requires depth <= |sizes|
  {
    if depth < |sizes| then x.Arr? && Rounds(t, sizes[depth..]) == Some(|x.elems|) else IsValue(s, t, x)
  }

  lemma {:induction false} ArrayAt(s: Schema, t: Type, sizes: seq<int>, v: Value, path: seq<nat>)
    requires IsArray(s, t, sizes, v) && |path| <= |sizes| && At(v, path).Some?
    ensures SizedAt(s, t, sizes, |path|, At(v, path).value)
    decreases |path|
  {
    assert sizes[0..] == sizes;
    if path != [] {
      ArrayAt(s, t, sizes[1..], v.elems[path[0]], path[1..]);
      assert sizes[1..][|path| - 1..] == sizes[|path|..];
    }
  }

  lemma {:induction false} ArrayFromElements(s: Schema, t: Type, sizes: seq<int>, v: Value)
    requires forall path: seq<nat> :: |path| <= |sizes| && At(v, path).Some? ==>
      SizedAt(s, t, sizes, |path|, At(v, path).value)
    ensures IsArray(s, t, sizes, v)
    decreases |sizes|
  {
    assert At(v, []) == Some(v) && sizes[0..] == sizes;
    if sizes != [] {
      forall k: nat | k < |v.elems| ensures IsArray(s, t, sizes[1..], v.elems[k]) {
        forall path: seq<nat> | |path| <= |sizes| - 1 && At(v.elems[k], path).Some?
          ensures SizedAt(s, t, sizes[1..], |path|, At(v.elems[k], path).value)
        {
          assert ([k] + path)[1..] == path;
          assert At(v, [k] + path) == At(v.elems[k], path);
          assert sizes[1..][|path|..] == sizes[|path| + 1..];
        }
        ArrayFromElements(s, t, sizes[1..], v.elems[k]);
      }
    }
  }

  lemma OnlyOneFirst(ms: seq<Member>, j: nat, k: nat, name: string)
    requires FirstNamed(ms, j, name) && FirstNamed(ms, k, name)
    ensures j == k
  {}

  /** The loop bounds of the codec are the lengths. */
  lemma RoundsAreLengths(s: Schema, ms: seq<Member>, fields: seq<Value>, i: nat, depth: nat, n: nat)
    requires i < |ms| == |fields| && depth < |ms[i].dims|
    requires DimOk(ms, i, ms[i].dims[depth])
    requires forall j :: 0 <= j < i && ms[j].dims == [] && ms[j].ty.Scalar? ==> fields[j].Num?
    ensures Rounds(ms[i].ty, Sizes(ms, fields, ms[i].dims)[depth..]) == Some(n)
       <==> HasLength(ms, fields, ms[i].dims[depth], ms[i].ty.Scalar? && depth + 1 == |ms[i].dims|, n)
  {
    var d := ms[i].dims[depth];
    if d.Var? {
      var j := IndexOf(ms, d.member).value;
      assert FirstNamed(ms, j, d.member);
      forall k: nat | FirstNamed(ms, k, d.member) ensures k == j { OnlyOneFirst(ms, j, k, d.member); }
    }
  }

  lemma MemberFromArray(s: Schema, name: string, v: Value, i: nat)
    requires WellFormed(s) && name in s.structs && IsValue(s, Struct(name), v) && i < |v.fields|
    ensures MemberIs(s, s.structs[name], v.fields, s.structs[name][i], v.fields[i])
  {
    var ms := s.structs[name];
    var m, sizes := ms[i], Sizes(ms, v.fields, ms[i].dims);
    assert MemberOk(s, name, i);
    forall j | 0 <= j < i && ms[j].dims == [] && ms[j].ty.Scalar? ensures v.fields[j].Num? {
      assert IsArray(s, ms[j].ty, Sizes(ms, v.fields, ms[j].dims), v.fields[j]);
    }
    forall path: seq<nat> | |path| <= |m.dims| && At(v.fields[i], path).Some?
      ensures ElementAt(s, ms, v.fields, m, path, At(v.fields[i], path).value)
    {
      var x := At(v.fields[i], path).value;
      ArrayAt(s, m.ty, sizes, v.fields[i], path);
      if |path| < |m.dims| { RoundsAreLengths(s, ms, v.fields, i, |path|, |x.elems|); }
    }
  }

  lemma ArrayFromMember(s: Schema, name: string, v: Value, i: nat)
    requires WellFormed(s) && name in s.structs && v.Rec? && |v.fields| == |s.structs[name]| && i < |v.fields|
    requires forall k :: 0 <= k < |v.fields| ==> MemberIs(s, s.structs[name], v.fields, s.structs[name][k], v.fields[k])
    ensures var ms := s.structs[name]; IsArray(s, ms[i].ty, Sizes(ms, v.fields, ms[i].dims), v.fields[i])
  {
    var ms := s.structs[name];
    var m, sizes := ms[i], Sizes(ms, v.fields, ms[i].dims);
    assert MemberOk(s, name, i);
    forall j | 0 <= j < i && ms[j].dims == [] && ms[j].ty.Scalar? ensures v.fields[j].Num? {
      assert At(v.fields[j], []) == Some(v.fields[j]) && ElementAt(s, ms, v.fields, ms[j], [], v.fields[j]);
    }
    forall path: seq<nat> | |path| <= |sizes| && At(v.fields[i], path).Some?
      ensures SizedAt(s, m.ty, sizes, |path|, At(v.fields[i], path).value)
    {
      var x := At(v.fields[i], path).value;
      assert ElementAt(s, ms, v.fields, m, path, x);
      if |path| < |m.dims| { RoundsAreLengths(s, ms, v.fields, i, |path|, |x.elems|); }
    }
    ArrayFromElements(s, m.ty, sizes, v.fields[i]);
  }

  /** A record is a value exactly if it has its members, each array dimension is as long
      as its constant size or the value of the member it names, and the elements are of
      the member's type. */
  lemma ValueExactly(s: Schema, name: string, v: Value)
    requires WellFormed(s) && name in s.structs
    ensures var ms := s.structs[name];
      IsValue(s, Struct(name), v) <==>
      v.Rec? && |v.fields| == |ms| && forall i :: 0 <= i < |ms| ==> MemberIs(s, ms, v.fields, ms[i], v.fields[i])
  {
    var ms := s.structs[name];
    if v.Rec? && |v.fields| == |ms| {
      if IsValue(s, Struct(name), v) {
        forall i | 0 <= i < |ms| ensures MemberIs(s, ms, v.fields, ms[i],
          v.fields[i]) { MemberFromArray(s, name, v, i); }
      } else if forall i :: 0 <= i < |ms| ==> MemberIs(s, ms, v.fields, ms[i], v.fields[i]) {
        forall i | 0 <= i < |ms|
          ensures IsArray(s, ms[i].ty, Sizes(ms, v.fields, ms[i].dims), v.fields[i])
        {
          ArrayFromMember(s, name, v, i);
        }
      }
    }
  }

  /** The plain case: t a[n] has n elements. */
  lemma LengthIsSizeMember(s: Schema, name: string, v: Value, i: nat, j: nat)
    requires WellFormed(s) && name in s.structs && IsValue(s, Struct(name), v)
    requires i < |s.structs[name]| && j < |s.structs[name]|
    requires var ms := s.structs[name]; FirstNamed(ms, j, ms[j].name) && ms[i].dims == [Var(ms[j].name)]
    ensures v.fields[j].Num? && v.fields[i].Arr?
    ensures 0 <= v.fields[j].v ==> |v.fields[i].elems| == v.fields[j].v
  {
    var ms := s.structs[name];
    ValueExactly(s, name, v);
    assert MemberIs(s, ms, v.fields, ms[i], v.fields[i]) && At(v.fields[i], []) == Some(v.fields[i]);
    assert ElementAt(s, ms, v.fields, ms[i], [], v.fields[i]);
    forall k: nat | FirstNamed(ms, k, ms[j].name) ensures k == j { OnlyOneFirst(ms, j, k, ms[j].name); }
  }

  /** Whatever bytes come in: the arrays decoded are as long as the sizes decoded. */
  lemma DecodedLengths(s: Schema, name: string, b: seq<byte>)
    requires WellFormed(s) && name in s.structs && Decode(s, Struct(name), b).Some?
    ensures var ms, v := s.structs[name], Decode(s, Struct(name), b).value.0;
      v.Rec? && |v.fields| == |ms| && forall i :: 0 <= i < |ms| ==> MemberIs(s, ms, v.fields, ms[i], v.fields[i])
  {
    DecodedIsValue(s, Struct(name), b);
    ValueExactly(s, name, Decode(s, Struct(name), b).value.0);
  }
}
