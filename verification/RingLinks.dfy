/** The record headers of the ring: a doubly linked list stored inside the buffer
    that the records are cut from. */
module RingLinks {
  import opened RingLayout

  const NULL := -1
  const MAGIC := 0x067f8687

  /** struct _lcm_ringbuf_rec; links are buffer offsets. */
  datatype Header = Header(magic: int, prev: int, next: int, length: nat)

  function HeadOf(c: seq<Chunk>): int { if c == [] then NULL else c[0].off }

  function TailOf(c: seq<Chunk>): int { if c == [] then NULL else c[|c| - 1].off }

  /** What the header of the i-th record must say. */
  function HeaderAt(c: seq<Chunk>, i: nat): Header
    requires i < |c|
  {
    Header(MAGIC,
           if i == 0 then NULL else c[i - 1].off,
           if i == |c| - 1 then NULL else c[i + 1].off,
           c[i].len)
  }

  ghost predicate LinkedAt(mem: map<int, Header>, c: seq<Chunk>, i: nat)
    requires i < |c|
  {
    c[i].off in mem && mem[c[i].off] == HeaderAt(c, i)
  }

  ghost predicate Linked(mem: map<int, Header>, c: seq<Chunk>) {
    forall i :: 0 <= i < |c| ==> LinkedAt(mem, c, i)
  }

  function AppendLinks(mem: map<int, Header>, tail: int, rec: nat, len: nat): map<int, Header>
    requires tail in mem
  {
    mem[tail := mem[tail].(next := rec)][rec := Header(MAGIC, tail, NULL, len)]
  }

  lemma LinkAppend(mem: map<int, Header>, c: seq<Chunk>, n: Chunk)
    requires Linked(mem, c) && c != [] && OffsetsDistinct(c + [n])
    ensures TailOf(c) in mem
    ensures Linked(AppendLinks(mem, TailOf(c), n.off, n.len), c + [n])
  {
    var c' := c + [n];
    assert LinkedAt(mem, c, |c| - 1);
    var mem' := AppendLinks(mem, TailOf(c), n.off, n.len);
    forall i | 0 <= i < |c'| ensures LinkedAt(mem', c', i) {
      if i < |c| { assert LinkedAt(mem, c, i); }
      assert c'[|c|] == n && c'[|c| - 1] == c[|c| - 1];
      if i < |c| - 1 { assert c'[i] == c[i] && c'[i + 1] == c[i + 1]; }
    }
  }

  lemma LinkShrink(mem: map<int, Header>, c: seq<Chunk>, n: nat)
    requires Linked(mem, c) && c != [] && OffsetsDistinct(c)
    ensures TailOf(c) in mem && mem[TailOf(c)].length == c[|c| - 1].len
    ensures var tail := TailOf(c);
      Linked(mem[tail := mem[tail].(length := n)], c[|c| - 1 := Chunk(tail, n)])
  {
    var tail := TailOf(c);
    assert LinkedAt(mem, c, |c| - 1);
    var c' := c[|c| - 1 := Chunk(tail, n)];
    var mem' := mem[tail := mem[tail].(length := n)];
    forall i | 0 <= i < |c'| ensures LinkedAt(mem', c', i) {
      assert LinkedAt(mem, c, i);
      assert c'[i].off == c[i].off;
      if i < |c| - 1 { assert c[i].off != c[|c| - 1].off; }
    }
  }

  lemma LinkDropFirst(mem: map<int, Header>, c: seq<Chunk>)
    requires Linked(mem, c) && c != [] && OffsetsDistinct(c)
    ensures HeadOf(c) in mem && mem[HeadOf(c)].next == HeadOf(c[1..]) && mem[HeadOf(c)].length == c[0].len
    ensures |c| > 1 ==> c[1].off in mem && c[1].off != c[0].off
    ensures var mem1 := if |c| == 1 then mem else mem[c[1].off := mem[c[1].off].(prev := NULL)];
      Linked(mem1[c[0].off := mem1[c[0].off].(magic := 0)], c[1..])
  {
    var c' := c[1..];
    assert LinkedAt(mem, c, 0);
    if c' != [] {
      assert LinkedAt(mem, c, 1);
      var mem1 := mem[c[1].off := mem[c[1].off].(prev := NULL)];
      var mem2 := mem1[c[0].off := mem1[c[0].off].(magic := 0)];
      forall i | 0 <= i < |c'| ensures LinkedAt(mem2, c', i) {
        assert LinkedAt(mem, c, i + 1);
        assert c'[i] == c[i + 1];
        assert c[0].off != c[i + 1].off;
        if 0 < i { assert c[1].off != c[i + 1].off && c'[i - 1] == c[i]; }
        if i < |c'| - 1 { assert c'[i + 1] == c[i + 2]; }
      }
    }
  }

  lemma LinkDropLast(mem: map<int, Header>, c: seq<Chunk>)
    requires Linked(mem, c) && |c| > 1 && OffsetsDistinct(c)
    ensures TailOf(c) in mem && mem[TailOf(c)].prev == TailOf(c[..|c| - 1]) && mem[TailOf(c)].length == c[|c| - 1].len
    ensures c[|c| - 2].off in mem && c[|c| - 2].off != TailOf(c)
    ensures var prev := c[|c| - 2].off;
      var mem1 := mem[prev := mem[prev].(next := NULL)];
      Linked(mem1[TailOf(c) := mem1[TailOf(c)].(magic := 0)], c[..|c| - 1])
  {
    var c' := c[..|c| - 1];
    var prev := c[|c| - 2].off;
    assert LinkedAt(mem, c, |c| - 1) && LinkedAt(mem, c, |c| - 2);
    var mem1 := mem[prev := mem[prev].(next := NULL)];
    var mem2 := mem1[TailOf(c) := mem1[TailOf(c)].(magic := 0)];
    forall i | 0 <= i < |c'| ensures LinkedAt(mem2, c', i) {
      assert LinkedAt(mem, c, i);
      assert c'[i] == c[i] && c[i].off != c[|c| - 1].off;
      if i < |c'| - 1 { assert c[i].off != prev && c'[i + 1] == c[i + 1]; }
    }
  }

  /** Headers that survive when the bytes [lo, hi) are overwritten. */
  function Overwrite(mem: map<int, Header>, lo: int, hi: int): map<int, Header> {
    map at | at in mem && (at + BUF_OFFSET <= lo || hi <= at) :: mem[at]
  }

  lemma LinkOverwrite(mem: map<int, Header>, c: seq<Chunk>, size: nat, k: nat, n: nat)
    requires Linked(mem, c) && Sized(c, size)
    requires k < |c| && BUF_OFFSET + n <= c[k].len
    requires forall i, j :: 0 <= i < j < |c| ==> Disjoint(c[i], c[j])
    ensures Linked(Overwrite(mem, c[k].off + BUF_OFFSET, c[k].off + BUF_OFFSET + n), c)
  {
    var mem' := Overwrite(mem, c[k].off + BUF_OFFSET, c[k].off + BUF_OFFSET + n);
    forall i | 0 <= i < |c| ensures LinkedAt(mem', c, i) {
      assert LinkedAt(mem, c, i);
      if i < k { assert Disjoint(c[i], c[k]); }
      if k < i { assert Disjoint(c[k], c[i]); }
    }
  }
}
