/** lcm_ringbuf_t. */
module RingBuffer {
  import opened Bytes
  import opened RingLayout
  import opened RingLinks

  class Ring {
    const size: nat
    var used: nat
    var head: int
    var tail: int
    var mem: map<int, Header>   // record headers by the offset they lie at, stale ones included
    ghost var layout: Layout

    ghost predicate Valid()
      reads this
    {
      && size < UINT32
      && WellPlaced(layout, size)
      && used == Total(layout.Chunks())
      && head == HeadOf(layout.Chunks()) && tail == TailOf(layout.Chunks())
      && Linked(mem, layout.Chunks())
    }

    constructor (ringSize: nat)
      requires ringSize < UINT32
      ensures Valid() && size == ringSize && layout == Layout([], [])
    {
      size, used, head, tail, mem := ringSize, 0, NULL, NULL, map[];
      layout := Layout([], []);
    }

    /** A chunk with room for len payload bytes, or NULL; NULL exactly when the
        layout function refuses. */
    method Allocate(len: nat) returns (buf: int)
      requires Valid() && len + HEADER_SIZE + ALIGNMENT - 1 < UINT32
      modifies this
      ensures Valid()
      ensures match Alloc(old(layout), size, RecordLength(len))
        case None => buf == NULL && layout == old(layout)
        case Some(l) => layout == l && l.older != [] && buf == Newest(l).off + BUF_OFFSET
    {
      RecordLengthCovers(len);
      buf := AllocateRecord(RecordLength(len));
    }

    method AllocateRecord(n: nat) returns (buf: int)
      requires Valid() && n % ALIGNMENT == 0 && HEADER_SIZE <= n
      modifies this
      ensures Valid()
      ensures match Alloc(old(layout), size, n)
        case None => buf == NULL && layout == old(layout)
        case Some(l) => layout == l && l.older != [] && buf == Newest(l).off + BUF_OFFSET
    {
      hide WellPlaced; hide Total; hide Alloc;
      var rec := PlaceRecord(n);
      if rec == NULL {
        return NULL;
      }
      ghost var c := layout.Chunks();
      ghost var result := Alloc(layout, size, n).value;
      AllocKeepsPlaced(layout, size, n);
      AllocAddsToTotal(layout, size, n);
      HeadersNotShared(result, size);
      used := used + n;
      layout := result;
      if head == NULL {
        head := rec;
        mem := mem[rec := Header(MAGIC, NULL, NULL, n)];
        tail := rec;
        assert Linked(mem, [Newest(result)]);
      } else {
        LinkAppend(mem, c, Newest(result));
        mem := AppendLinks(mem, tail, rec, n);
        tail := rec;
      }
      return rec + BUF_OFFSET;
    }

    /** The branch structure of lcm_ringbuf_alloc that picks the offset. */
    method PlaceRecord(n: nat) returns (rec: int)
      requires Valid()
      ensures match Alloc(layout, size, n)
        case None => rec == NULL
        case Some(l) => rec >= 0 && l.older != [] && rec == Newest(l).off
    {
      if head == NULL {
        return if n > size then NULL else 0;
      }
      WrappedWhenHeadAboveTail(layout, size);
      assert LinkedAt(mem, layout.Chunks(), |layout.Chunks()| - 1);
      assert layout.Chunks()[0] == layout.older[0];
      var candidate1 := tail + mem[tail].length;
      if head > tail {
        return if candidate1 + n <= head then candidate1 else NULL;
      } else if candidate1 + n <= size {
        return candidate1;
      } else {
        return if n < head then 0 else NULL;
      }
    }

    /** Gives back the unused end of the newest chunk. */
    method ShrinkLast(buf: int, newlen: nat)
      requires Valid() && newlen + HEADER_SIZE + ALIGNMENT - 1 < UINT32
      requires layout.older != [] && buf == Newest(layout).off + BUF_OFFSET
      requires RecordLength(newlen) <= Newest(layout).len
      modifies this
      ensures Valid()
      ensures layout == RingLayout.ShrinkLast(old(layout), RecordLength(newlen))
    {
      RecordLengthCovers(newlen);
      ShrinkKeepsPlaced(layout, size, RecordLength(newlen));
      HeadersNotShared(layout, size);
      LinkShrink(mem, layout.Chunks(), RecordLength(newlen));
      var rec := buf - BUF_OFFSET;
      var n := RecordLength(newlen);
      var shrinkAmount := mem[rec].length - n;
      mem := mem[rec := mem[rec].(length := n)];
      used := used - shrinkAmount;
      layout := RingLayout.ShrinkLast(layout, n);
    }

    /** Releases the oldest or the newest chunk. */
    method Deallocate(buf: int)
      requires Valid() && layout.older != []
      requires buf - BUF_OFFSET == layout.older[0].off || buf - BUF_OFFSET == Newest(layout).off
      modifies this
      ensures Valid()
      ensures layout == if buf - BUF_OFFSET == old(layout).older[0].off then DeallocOldest(old(layout))
                        else DeallocNewest(old(layout))
    {
      ghost var c := layout.Chunks();
      assert c[0] == layout.older[0] && c[|c| - 1] == Newest(layout);
      if buf - BUF_OFFSET == head {
        UnlinkHead();
      } else {
        UnlinkTail();
      }
    }

    method UnlinkHead()
      requires Valid() && layout.older != []
      modifies this
      ensures Valid()
      ensures layout == DeallocOldest(old(layout))
    {
      hide WellPlaced; hide Linked; hide Total;
      HeadersNotShared(layout, size);
      DeallocOldestKeepsPlaced(layout, size);
      LinkDropFirst(mem, layout.Chunks());
      var rec := head;
      assert layout.Chunks()[0] == layout.older[0];
      used := used - mem[rec].length;
      head := mem[rec].next;
      if head == NULL {
        tail := NULL;
      } else {
        mem := mem[head := mem[head].(prev := NULL)];
      }
      layout := DeallocOldest(layout);
      mem := mem[rec := mem[rec].(magic := 0)];
    }

    method UnlinkTail()
      requires Valid() && |layout.Chunks()| > 1 && layout.older != []
      modifies this
      ensures Valid()
      ensures layout == DeallocNewest(old(layout))
    {
      hide WellPlaced; hide Linked; hide Total;
      HeadersNotShared(layout, size);
      DeallocNewestKeepsPlaced(layout, size);
      LinkDropLast(mem, layout.Chunks());
      var rec := tail;
      ghost var c := layout.Chunks();
      assert c[|c| - 1] == Newest(layout);
      used := used - mem[rec].length;
      tail := mem[rec].prev;
      mem := mem[tail := mem[tail].(next := NULL)];
      layout := DeallocNewest(layout);
      mem := mem[rec := mem[rec].(magic := 0)];
    }

    /** The owner of a chunk fills its payload: every header lying in those bytes
        is gone, yet no live one is. */
    method WritePayload(ghost i: nat, buf: int, n: nat)
      requires Valid() && i < |layout.Chunks()|
      requires buf == layout.Chunks()[i].off + BUF_OFFSET && BUF_OFFSET + n <= layout.Chunks()[i].len
      modifies this`mem
      ensures Valid()
    {
      DisjointAndBounded(layout, size);
      ChunksSized(layout, size);
      LinkOverwrite(mem, layout.Chunks(), size, i, n);
      mem := Overwrite(mem, buf, buf + n);
    }
  }
}
