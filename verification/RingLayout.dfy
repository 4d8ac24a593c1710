/** The geometry of the ring allocator of upstream/lcm/ringbuffer.c: where the
    live chunks are, and what alloc, shrink and dealloc do to them. The class in
    RingBuffer.dfy is proved to follow these functions through its links. */
module RingLayout {
  import opened Bytes
  import opened Wrappers

  const ALIGNMENT := 32
  const HEADER_SIZE := 32   // sizeof (lcm_ringbuf_rec_t), 64-bit target
  const BUF_OFFSET := 28    // offsetof (lcm_ringbuf_rec_t, buf), 64-bit target

  /** One record, header included: the bytes [off, End()) of the ring. */
  datatype Chunk = Chunk(off: nat, len: nat) {
    function End(): nat { off + len }
  }

  /** The live chunks, oldest first, split where allocation last wrapped to
      offset 0. While `newer` is empty the ring is not wrapped. */
  datatype Layout = Layout(older: seq<Chunk>, newer: seq<Chunk>) {
    function Chunks(): seq<Chunk> { older + newer }
  }

  /** Record length for a request, in the C code's 32-bit unsigned arithmetic. */
  function RecordLength(len: nat): nat {
    (len + HEADER_SIZE + ALIGNMENT - 1) % UINT32 / ALIGNMENT * ALIGNMENT
  }

  /** The record has room for the request exactly when rounding does not wrap. */
  lemma RecordLengthCovers(len: nat)
    requires len < UINT32
    ensures RecordLength(len) % ALIGNMENT == 0
    ensures RecordLength(len) >= HEADER_SIZE + len <==> len + HEADER_SIZE + ALIGNMENT - 1 < UINT32
    ensures len + HEADER_SIZE + ALIGNMENT - 1 < UINT32 ==> RecordLength(len) < len + HEADER_SIZE + ALIGNMENT
  {
    var up := len + HEADER_SIZE + ALIGNMENT - 1;
    if up >= UINT32 {
      assert up % UINT32 == up - UINT32;
      assert RecordLength(len) <= up - UINT32 < HEADER_SIZE + len;
    } else {
      assert up % UINT32 == up;
      assert RecordLength(len) == up - up % ALIGNMENT;
    }
  }

  function Total(s: seq<Chunk>): nat {
    if s == [] then 0 else s[0].len + Total(s[1..])
  }

  ghost predicate Follows(s: seq<Chunk>, i: nat)
    requires 0 < i < |s|
  {
    s[i].off == s[i - 1].End()
  }

  ghost predicate Run(s: seq<Chunk>) {
    forall i :: 0 < i < |s| ==> Follows(s, i)
  }

  ghost predicate Disjoint(a: Chunk, b: Chunk) {
    a.End() <= b.off || b.End() <= a.off
  }

  ghost predicate Sized(s: seq<Chunk>, size: nat) {
    forall i {:trigger s[i]} :: 0 <= i < |s| ==>
      HEADER_SIZE <= s[i].len && s[i].off % ALIGNMENT == 0 && s[i].len % ALIGNMENT == 0 && s[i].End() <= size
  }

  /** The intended invariant: aligned chunks inside the buffer, contiguous in at
      most two runs, the second of which starts at 0 and stays below the first. */
  ghost predicate WellPlaced(l: Layout, size: nat) {
    && Sized(l.older, size) && Sized(l.newer, size)
    && Run(l.older) && Run(l.newer)
    && (l.newer != [] ==> l.older != [] && l.newer[0].off == 0 && l.newer[|l.newer| - 1].End() <= l.older[0].off)
  }

  function Newest(l: Layout): Chunk
    requires l.older != []
  {
    if l.newer != [] then l.newer[|l.newer| - 1] else l.older[|l.older| - 1]
  }

  // ----- the three operations -----

  /** lcm_ringbuf_alloc for a record of n bytes. */
  function Alloc(l: Layout, size: nat, n: nat): (r: Option<Layout>)
    ensures r.Some? ==> r.value.older != []
  {
    if l.older == [] then
      if n > size then None else Some(Layout([Chunk(0, n)], []))
    else
      var at := Newest(l).End();
      if l.newer != [] then
        if at + n <= l.older[0].off then Some(Layout(l.older, l.newer + [Chunk(at, n)])) else None
      else if at + n <= size then Some(Layout(l.older + [Chunk(at, n)], []))
      else if n < l.older[0].off then Some(Layout(l.older, [Chunk(0, n)]))
      else None
  }

  /** lcm_ringbuf_shrink_last to a record of n bytes. */
  function ShrinkLast(l: Layout, n: nat): Layout
    requires l.older != []
  {
    var last := Chunk(Newest(l).off, n);
    if l.newer != [] then Layout(l.older, l.newer[|l.newer| - 1 := last])
    else Layout(l.older[|l.older| - 1 := last], [])
  }

  /** lcm_ringbuf_dealloc of the head record. */
  function DeallocOldest(l: Layout): Layout
    requires l.older != []
  {
    if |l.older| == 1 then Layout(l.newer, []) else Layout(l.older[1..], l.newer)
  }

  /** lcm_ringbuf_dealloc of the tail record. */
  function DeallocNewest(l: Layout): Layout
    requires l.older != []
  {
    if l.newer != [] then Layout(l.older, l.newer[..|l.newer| - 1]) else Layout(l.older[..|l.older| - 1], [])
  }

  // ----- what the invariant gives -----

  lemma {:induction false} RunOrdered(s: seq<Chunk>, size: nat, i: nat, j: nat)
    requires Run(s) && Sized(s, size) && i < j < |s|
    ensures s[i].End() <= s[j].off
  {
    assert Follows(s, j);
    if i + 1 < j { RunOrdered(s, size, i, j - 1); }
  }

  lemma RunTail(s: seq<Chunk>)
    requires Run(s) && s != []
    ensures Run(s[1..])
  {
    var t := s[1..];
    forall i | 0 < i < |t| ensures Follows(t, i) { assert Follows(s, i + 1); }
  }

  lemma RunFront(s: seq<Chunk>)
    requires Run(s) && s != []
    ensures Run(s[..|s| - 1])
  {
    var t := s[..|s| - 1];
    forall i | 0 < i < |t| ensures Follows(t, i) { assert Follows(s, i); }
  }

  lemma RunShrunk(s: seq<Chunk>, n: nat)
    requires Run(s) && s != []
    ensures Run(s[|s| - 1 := Chunk(s[|s| - 1].off, n)])
  {
    var t := s[|s| - 1 := Chunk(s[|s| - 1].off, n)];
    forall i | 0 < i < |t| ensures Follows(t, i) { assert Follows(s, i); }
  }

  lemma {:induction false} RunTotal(s: seq<Chunk>, size: nat)
    requires Run(s) && Sized(s, size) && s != []
    ensures Total(s) == s[|s| - 1].End() - s[0].off
  {
    if |s| > 1 {
      RunTail(s);
      assert Follows(s, 1);
      RunTotal(s[1..], size);
    }
  }

  lemma {:induction false} TotalConcat(a: seq<Chunk>, b: seq<Chunk>)
    ensures Total(a + b) == Total(a) + Total(b)
  {
    if a == [] { assert a + b == b; }
    else { assert (a + b)[1..] == a[1..] + b; TotalConcat(a[1..], b); }
  }

  lemma ApartInRing(l: Layout, size: nat, i: nat, j: nat)
    requires WellPlaced(l, size) && i < j < |l.Chunks()|
    ensures Disjoint(l.Chunks()[i], l.Chunks()[j])
  {
    var a, b := l.older, l.newer;
    hide Run; hide Total;
    if j < |a| {
      RunOrdered(a, size, i, j);
    } else if |a| <= i {
      RunOrdered(b, size, i - |a|, j - |a|);
    } else {
      if j - |a| < |b| - 1 { RunOrdered(b, size, j - |a|, |b| - 1); }
      if 0 < i { RunOrdered(a, size, 0, i); }
    }
  }

  lemma RunOrderedEnds(s: seq<Chunk>, size: nat)
    requires Run(s) && Sized(s, size) && s != []
    ensures s[0].off < s[|s| - 1].End()
  {
    if |s| > 1 { RunOrdered(s, size, 0, |s| - 1); }
  }

  lemma TotalBounded(l: Layout, size: nat)
    requires WellPlaced(l, size)
    ensures Total(l.Chunks()) <= size && (Total(l.Chunks()) == 0 <==> l.Chunks() == [])
  {
    var a, b := l.older, l.newer;
    hide Run;
    TotalConcat(a, b);
    if a != [] { RunTotal(a, size); RunOrderedEnds(a, size); }
    if b != [] { RunTotal(b, size); RunOrderedEnds(b, size); }
  }

  /** Live chunks never overlap, and the bytes they take are at most the buffer
      and nothing exactly when no chunk is live. */
  lemma DisjointAndBounded(l: Layout, size: nat)
    requires WellPlaced(l, size)
    ensures forall i, j :: 0 <= i < j < |l.Chunks()| ==> Disjoint(l.Chunks()[i], l.Chunks()[j])
    ensures Total(l.Chunks()) <= size
    ensures Total(l.Chunks()) == 0 <==> l.Chunks() == []
  {
    hide *;
    forall i, j | 0 <= i < j < |l.Chunks()| ensures Disjoint(l.Chunks()[i], l.Chunks()[j]) {
      ApartInRing(l, size, i, j);
    }
    TotalBounded(l, size);
  }

  /** No head or tail pointer comparison is ambiguous: the ring is wrapped
      exactly when the oldest record lies above the newest. */
  lemma WrappedWhenHeadAboveTail(l: Layout, size: nat)
    requires WellPlaced(l, size) && l.older != []
    ensures l.older[0].off > Newest(l).off <==> l.newer != []
  {
    if l.newer == [] {
      if |l.older| > 1 { RunOrdered(l.older, size, 0, |l.older| - 1); }
    }
  }

  lemma AppendKeepsRun(s: seq<Chunk>, c: Chunk, size: nat)
    requires Run(s) && Sized(s, size) && Sized([c], size)
    requires s != [] ==> c.off == s[|s| - 1].End()
    ensures Run(s + [c]) && Sized(s + [c], size)
  {
    assert [c][0] == c;
    forall i | 0 < i < |s + [c]| ensures Follows(s + [c], i) {
      if i < |s| { assert Follows(s, i); }
    }
  }

  lemma NextIsAligned(c: Chunk)
    requires c.off % ALIGNMENT == 0 && c.len % ALIGNMENT == 0
    ensures c.End() % ALIGNMENT == 0
  {}

  lemma NewChunkIsSized(l: Layout, size: nat, n: nat)
    requires WellPlaced(l, size) && n % ALIGNMENT == 0 && HEADER_SIZE <= n
    ensures Alloc(l, size, n).Some? ==>
      Alloc(l, size, n).value.older != [] && Sized([Newest(Alloc(l, size, n).value)], size)
  {
    if l.older != [] {
      NextIsAligned(Newest(l));
    }
  }

  lemma AllocKeepsPlaced(l: Layout, size: nat, n: nat)
    requires WellPlaced(l, size) && n % ALIGNMENT == 0 && HEADER_SIZE <= n
    ensures Alloc(l, size, n).Some? ==>
      var l' := Alloc(l, size, n).value;
      && WellPlaced(l', size)
      && l'.older != []
      && l'.Chunks() == l.Chunks() + [Newest(l')] && Newest(l').len == n
  {
    hide Run; hide Sized;
    NewChunkIsSized(l, size, n);
    var r := Alloc(l, size, n);
    if r.Some? {
      var c := Newest(r.value);
      if l.older == [] || (l.newer == [] && r.value.newer == []) {
        AppendKeepsRun(l.older, c, size);
        assert r.value.older == l.older + [c];
      } else {
        AppendKeepsRun(l.newer, c, size);
        assert r.value.newer == l.newer + [c];
        assert l.older + (l.newer + [c]) == l.Chunks() + [c];
      }
    }
  }

  lemma AllocAddsToTotal(l: Layout, size: nat, n: nat)
    requires WellPlaced(l, size) && n % ALIGNMENT == 0 && HEADER_SIZE <= n
    ensures Alloc(l, size, n).Some? ==> Total(Alloc(l, size, n).value.Chunks()) == Total(l.Chunks()) + n
  {
    AllocKeepsPlaced(l, size, n);
    var r := Alloc(l, size, n);
    if r.Some? {
      var c := Newest(r.value);
      TotalConcat(l.Chunks(), [c]);
      assert Total([c]) == n;
    }
  }

  ghost predicate Free(l: Layout, size: nat, c: Chunk) {
    c.End() <= size && forall i :: 0 <= i < |l.Chunks()| ==> Disjoint(l.Chunks()[i], c)
  }

  /** Where the chunks lie, run by run. */
  lemma RunSpan(s: seq<Chunk>, size: nat, i: nat)
    requires Run(s) && Sized(s, size) && i < |s|
    ensures s[0].off <= s[i].off && s[i].End() <= s[|s| - 1].End()
  {
    if 0 < i { RunOrdered(s, size, 0, i); }
    if i < |s| - 1 { RunOrdered(s, size, i, |s| - 1); }
  }

  lemma FreeAfterNewest(l: Layout, size: nat, n: nat)
    requires WellPlaced(l, size) && l.older != [] && HEADER_SIZE <= n
    ensures Free(l, size, Chunk(Newest(l).End(), n)) <==>
      Newest(l).End() + n <= if l.newer != [] then l.older[0].off else size
  {
    var c := l.Chunks();
    var next := Chunk(Newest(l).End(), n);
    assert c[0] == l.older[0];
    forall i | 0 <= i < |c|
      ensures if i < |l.older| then l.older[0].off <= c[i].off else c[i].End() <= next.off
      ensures l.newer == [] ==> c[i].End() <= next.off
    {
      if i < |l.older| { RunSpan(l.older, size, i); } else { RunSpan(l.newer, size, i - |l.older|); }
    }
  }

  lemma FreeAtFront(l: Layout, size: nat, n: nat)
    requires WellPlaced(l, size) && l.older != [] && HEADER_SIZE <= n
    ensures Free(l, size, Chunk(0, n)) <==> l.newer == [] && n <= l.older[0].off
  {
    var c := l.Chunks();
    assert c[0] == l.older[0];
    if l.newer != [] {
      assert c[|l.older|] == l.newer[0];
    } else {
      forall i | 0 <= i < |c| ensures l.older[0].off <= c[i].off { RunSpan(l.older, size, i); }
    }
  }

  /** When alloc gives up on a non-empty ring: the record fits neither after the
      newest chunk nor at offset 0, except that an exact fit at offset 0, which
      would close the ring, is refused as well. */
  lemma AllocRefusesExactly(l: Layout, size: nat, n: nat)
    requires WellPlaced(l, size) && l.older != [] && HEADER_SIZE <= n
    ensures Alloc(l, size, n).None? <==>
      !Free(l, size, Chunk(Newest(l).End(), n)) && (!Free(l, size, Chunk(0, n)) || n == l.older[0].off)
  {
    FreeAfterNewest(l, size, n);
    FreeAtFront(l, size, n);
  }

  /** A record goes behind the newest one if it fits there, and to the front otherwise. */
  lemma AllocPlaces(l: Layout, size: nat, n: nat)
    requires WellPlaced(l, size) && HEADER_SIZE <= n && Alloc(l, size, n).Some?
    ensures Newest(Alloc(l, size, n).value) ==
      Chunk(if l.older != [] && Free(l, size, Chunk(Newest(l).End(), n)) then Newest(l).End() else 0, n)
  {
    if l.older != [] { FreeAfterNewest(l, size, n); }
  }

  /** The refused exact fit does occur: a 64-byte ring whose first half is free. */
  lemma ExactFitIsRefused()
    ensures exists l: Layout ::
      WellPlaced(l, 64) && l.older != [] && Free(l, 64, Chunk(0, 32)) && Alloc(l, 64, 32).None?
  {
    var l := Layout([Chunk(32, 32)], []);
    assert WellPlaced(l, 64) && Free(l, 64, Chunk(0, 32)) && Alloc(l, 64, 32).None?;
  }

  lemma ShrinkKeepsPlaced(l: Layout, size: nat, n: nat)
    requires WellPlaced(l, size) && l.older != []
    requires n % ALIGNMENT == 0 && HEADER_SIZE <= n <= Newest(l).len
    ensures var l' := ShrinkLast(l, n);
      && WellPlaced(l', size)
      && l'.Chunks() == l.Chunks()[|l.Chunks()| - 1 := Chunk(Newest(l).off, n)]
      && Total(l'.Chunks()) == Total(l.Chunks()) - (Newest(l).len - n)
  {
    var l', c := ShrinkLast(l, n), l.Chunks();
    if l.newer != [] { RunShrunk(l.newer, n); } else { RunShrunk(l.older, n); }
    var front := c[..|c| - 1];
    assert c == front + [Newest(l)];
    assert l'.Chunks() == front + [Chunk(Newest(l).off, n)];
    TotalConcat(front, [Newest(l)]);
    TotalConcat(front, [Chunk(Newest(l).off, n)]);
    assert Total([Newest(l)]) == Newest(l).len && Total([Chunk(Newest(l).off, n)]) == n;
  }

  lemma DeallocOldestKeepsPlaced(l: Layout, size: nat)
    requires WellPlaced(l, size) && l.older != []
    ensures WellPlaced(DeallocOldest(l), size)
    ensures DeallocOldest(l).Chunks() == l.Chunks()[1..]
    ensures Total(DeallocOldest(l).Chunks()) == Total(l.Chunks()) - l.older[0].len
  {
    if |l.older| > 1 {
      RunTail(l.older);
      assert Follows(l.older, 1);
      assert l.older[1..] + l.newer == l.Chunks()[1..];
      RunOrdered(l.older, size, 0, 1);
    } else {
      assert l.Chunks()[1..] == l.newer;
    }
    assert l.Chunks()[0] == l.older[0];
  }

  lemma DeallocNewestKeepsPlaced(l: Layout, size: nat)
    requires WellPlaced(l, size) && l.older != []
    ensures WellPlaced(DeallocNewest(l), size)
    ensures DeallocNewest(l).Chunks() == l.Chunks()[..|l.Chunks()| - 1]
    ensures Total(DeallocNewest(l).Chunks()) == Total(l.Chunks()) - Newest(l).len
  {
    if l.newer != [] { RunFront(l.newer); } else { RunFront(l.older); }
    var c := l.Chunks();
    var front := c[..|c| - 1];
    assert c == front + [Newest(l)];
    assert DeallocNewest(l).Chunks() == front;
    TotalConcat(front, [Newest(l)]);
    assert Total([Newest(l)]) == Newest(l).len;
    if l.newer != [] && |l.newer| > 1 {
      RunOrdered(l.newer, size, |l.newer| - 2, |l.newer| - 1);
    }
  }

  ghost predicate OffsetsDistinct(c: seq<Chunk>) {
    forall i, j {:trigger c[i], c[j]} :: 0 <= i < j < |c| ==> c[i].off != c[j].off
  }

  lemma ChunksSized(l: Layout, size: nat)
    requires WellPlaced(l, size)
    ensures Sized(l.Chunks(), size)
  {}

  lemma HeadersApart(c: seq<Chunk>, size: nat)
    requires Sized(c, size)
    requires forall i, j :: 0 <= i < j < |c| ==> Disjoint(c[i], c[j])
    ensures OffsetsDistinct(c)
  {}

  /** Live chunks have different offsets, so no two share a header. */
  lemma HeadersNotShared(l: Layout, size: nat)
    requires WellPlaced(l, size)
    ensures OffsetsDistinct(l.Chunks())
  {
    DisjointAndBounded(l, size);
    ChunksSized(l, size);
    HeadersApart(l.Chunks(), size);
  }
}
