/** lcm_udpm_t on the receive side: one method for each lock region or pipe access
    of the read thread and of lcm_udpm_handle, run on the ring of RingBuffer.dfy. */
module UdpReceiver {
  import opened Buffers
  import opened Bytes
  import opened RingLayout
  import opened RingLinks
  import opened RingBuffer
  import opened ReceivePipeline
  import opened PipelineData
  import opened Wrappers

  /** A buffer without a record goes back; one with a record waits for a datagram. */
  ghost predicate TakeResult(s: State, placed: Option<Layout>, junk: seq<byte>, s': State)
    requires s.empty != [] && |junk| == |s.bytes|
  {
    var b := s.empty[0];
    match placed
    case None => s' == s.(empty := s.empty[1..], reader := PuttingBack(b.(mem := NoMem)))
    case Some(l) =>
      && l.older != [] && Newest(l).off + BUF_OFFSET + MAX_PACKET < |s.bytes| && Newest(l).len == BIG_RECORD
      && s' == s.(empty := s.empty[1..], ring := l, reader := AtSelect(Some(b.(mem := RingMem(Newest(l))))),
                  bytes := TouchHeaders(s.bytes, l.Chunks(), junk)[Newest(l).off + BUF_OFFSET + MAX_PACKET := 0])
  }

  lemma TakeIs(s: State, junk: seq<byte>)
    requires RingInv(s) && Enabled(s, TakeBuffer(junk))
    ensures |junk| == |s.bytes| && s.reader == AtSelect(None) && RecordLength(REQUEST) == BIG_RECORD
    ensures s.empty == [] ==> Apply(s, TakeBuffer(junk)) == s
    ensures s.empty != [] ==> TakeResult(s, Alloc(s.ring, s.size, BIG_RECORD), junk, Apply(s, TakeBuffer(junk)))
  {
    hide RingInv; hide TouchHeaders;
    TakeStaysInside(s, junk);
    assert RecordLength(REQUEST) == BIG_RECORD;
  }

  lemma TakeStep(s: State, junk: seq<byte>)
    requires RingInv(s) && PipeInv(s) && Enabled(s, TakeBuffer(junk))
    ensures var s' := Apply(s, TakeBuffer(junk)); RingInv(s') && PipeInv(s') && !s'.aborted
    ensures |junk| == |s.bytes| && s.reader == AtSelect(None) && RecordLength(REQUEST) == BIG_RECORD
    ensures s.empty == [] ==> Apply(s, TakeBuffer(junk)) == s
    ensures s.empty != [] ==> TakeResult(s, Alloc(s.ring, s.size, BIG_RECORD), junk, Apply(s, TakeBuffer(junk)))
  {
    hide RingInv; hide PipeInv; hide Apply; hide Enabled; hide TakeResult; hide RecordLength; hide Alloc;
    TakeIs(s, junk);
    TakeStaysInside(s, junk);
    RingStep(s, TakeBuffer(junk));
    PipeStep(s, TakeBuffer(junk));
  }

  /** A datagram goes into the newest record, which is big enough for it. */
  lemma ReceiveStep(s: State, packet: seq<byte>, outcome: Outcome, junk: seq<byte>)
    requires RingInv(s) && PipeInv(s) && Enabled(s, Receive(packet, outcome, junk))
    ensures var s', m := Apply(s, Receive(packet, outcome, junk)), s.reader.held.value.mem;
      RingInv(s') && PipeInv(s') && !s'.aborted && m.RingMem? && m.chunk.off + BUF_OFFSET + |packet| <= |s.bytes|
    ensures var c, chunk := s.ring.Chunks(), s.reader.held.value.mem.chunk;
      |c| > 0 && c[|c| - 1] == chunk && BUF_OFFSET + |packet| <= chunk.len && s.ring.older != []
        && chunk == Newest(s.ring)
  {
    hide TouchHeaders; hide Splice; hide WellPlaced; hide ApplyReceive;
    ReaderIsNewest(s);
    NewestInside(s.ring, s.size);
    AbortsExactly(s, Receive(packet, outcome, junk));
    RingStep(s, Receive(packet, outcome, junk));
    PipeStep(s, Receive(packet, outcome, junk));
  }

  /** A dequeue hands the first filled buffer to the notified call, and there is one. */
  ghost predicate Takes(s: State, b: Buf, s': State) {
    && Enabled(s, Dequeue) && s.filled != [] && b == s.filled[0] && s' == Apply(s, Dequeue)
    && s'.calls == s.calls[..|s.calls| - 1] + [Dispatching(b, MsgOf(s.bytes, b))]
  }

  lemma DequeueStep(s: State)
    requires RingInv(s) && PipeInv(s) && Enabled(s, Dequeue)
    ensures s.filled != [] && s.calls != []
    ensures var b, s' := s.filled[0], Apply(s, Dequeue);
      && RingInv(s') && PipeInv(s') && !s'.aborted && Takes(s, b, s')
      && s' == s.(filled := s.filled[1..], pipe := if |s.filled| > 1 then s.pipe + 1 else s.pipe,
                  calls := s.calls[..|s.calls| - 1] + [Dispatching(b, MsgOf(s.bytes, b))],
                  delivered := s.delivered + [MsgOf(s.bytes, b)])
  {
    hide RingInv; hide PipeInv; hide Payload;
    NotifiedMeansFilled(s);
    RingStep(s, Dequeue);
    PipeStep(s, Dequeue);
  }

  /** The released record is an end of the ring. */
  lemma ReleaseStep(s: State, junk: seq<byte>)
    requires RingInv(s) && PipeInv(s) && Enabled(s, Release(junk)) && ReleaseSafe(s)
    ensures var s', m := Apply(s, Release(junk)), s.calls[|s.calls| - 1].buf.mem;
      && RingInv(s') && PipeInv(s') && !s'.aborted
      && (m.RingMem? ==>
            s.ring.older != [] && (m.chunk.off == s.ring.older[0].off || m.chunk.off == Newest(s.ring).off))
  {
    hide RingInv; hide PipeInv; hide Apply;
    ReleaseAborts(s, junk);
    RingStep(s, Release(junk));
    PipeStep(s, Release(junk));
    if s.calls[|s.calls| - 1].buf.mem.RingMem? { ReleasedEnd(s); }
  }

  class Receiver {
    const ring: Ring
    var inbufsEmpty: seq<Buf>
    var inbufsFilled: seq<Buf>
    var notifyPipe: nat            // bytes in the pipe
    var reader: Reader
    ghost var calls: seq<Call>
    ghost var bytes: seq<byte>     // the ring's memory
    ghost var orphans: seq<Buf>
    ghost var accepted: seq<Msg>
    ghost var delivered: seq<Msg>

    ghost function View(): State
      reads this, ring
    {
      State(ring.size, ring.layout, bytes, inbufsEmpty, inbufsFilled, notifyPipe, reader, calls, orphans,
            accepted, delivered, false, false)
    }

    ghost predicate Valid()
      reads this, ring
    {
      ring.Valid() && RingInv(View()) && PipeInv(View())
    }

    constructor (size: nat, bufs: seq<Buf>, ghost memory: seq<byte>)
      requires size < UINT32 && |memory| == size
      ensures Valid() && View() == Init(size, memory, bufs) && fresh(ring)
    {
      ring := new Ring(size);
      inbufsEmpty, inbufsFilled, notifyPipe, reader, calls := bufs, [], 0, AtSelect(None), [];
      bytes, orphans, accepted, delivered := memory, [], [], [];
    }

    /** lcm_udp.c:729-759: take an empty buffer and a 64 KiB record for it. */
    method TakeRecord(ghost junk: seq<byte>)
      requires Valid() && Enabled(View(), TakeBuffer(junk))
      modifies this, ring
      ensures Valid() && View() == Apply(old(View()), TakeBuffer(junk))
    {
      hide RingInv; hide PipeInv; hide TouchHeaders; hide WellPlaced; hide Apply; hide Alloc; hide Enabled;
      hide RecordLength; hide Newest; hide Linked; hide Total;
      TakeStep(View(), junk);
      if inbufsEmpty == [] { return; }
      var b := inbufsEmpty[0];
      inbufsEmpty := inbufsEmpty[1..];
      var buf := ring.Allocate(REQUEST);
      if buf == NULL {
        reader := PuttingBack(b.(mem := NoMem));
      } else {
        var chunk := Chunk(buf - BUF_OFFSET, BIG_RECORD);
        reader := AtSelect(Some(b.(mem := RingMem(chunk))));
        bytes := TouchHeaders(bytes, ring.layout.Chunks(), junk)
          [Newest(ring.layout).off + BUF_OFFSET + MAX_PACKET := 0];
      }
    }

    /** lcm_udp.c:752: the buffer goes back without the lock; taken as one step. */
    method PutBackRecord()
      requires Valid() && Enabled(View(), PutBack)
      modifies this
      ensures Valid() && View() == Apply(old(View()), PutBack)
    {
      hide RingInv; hide PipeInv;
      RingStep(View(), PutBack);
      PipeStep(View(), PutBack);
      inbufsEmpty := inbufsEmpty + [reader.buf];
      reader := AtSelect(None);
    }

    /** lcm_udp.c:780-825 and 596-617: a datagram arrives in the held record; if
        it completes a fragmented message the record is released at once. */
    method ReceiveDatagram(packet: seq<byte>, outcome: Outcome, ghost junk: seq<byte>)
      requires Valid() && Enabled(View(), Receive(packet, outcome, junk))
      modifies this, ring
      ensures Valid() && View() == Apply(old(View()), Receive(packet, outcome, junk))
    {
      hide RingInv; hide PipeInv; hide TouchHeaders; hide Splice; hide WellPlaced; hide Linked; hide Total;
      hide DeallocOldest; hide DeallocNewest; hide FromRing; hide Newest;
      ReceiveStep(View(), packet, outcome, junk);
      var b := reader.held.value;
      var buf := b.mem.chunk.off + BUF_OFFSET;
      ring.WritePayload(|ring.layout.Chunks()| - 1, buf, |packet|);
      bytes := Splice(bytes, buf, packet);
      match outcome
      case Ignored =>
      case Short(channel, off) =>
        reader := Shrinking(b.(channel := channel, dataOffset := off, dataSize := |packet| - off), |packet|);
        accepted := accepted + [Msg(channel, packet[off..])];
      case Reassembled(channel, data) =>
        bytes := TouchHeaders(bytes, ring.layout.Chunks(), junk);
        ring.Deallocate(buf);
        reader := Ready(b.(mem := HeapMem(data), channel := channel, dataOffset := 0, dataSize := |data|));
        accepted := accepted + [Msg(channel, data)];
    }

    /** lcm_udp.c:832-836. */
    method ShrinkRecord(ghost junk: seq<byte>)
      requires Valid() && Enabled(View(), Shrink(junk))
      modifies this, ring
      ensures Valid() && View() == Apply(old(View()), Shrink(junk))
    {
      ghost var s := View();
      ReaderIsNewest(s);
      ShrinkFits(reader.sz);
      AbortsExactly(s, Shrink(junk));
      RingStep(s, Shrink(junk));
      PipeStep(s, Shrink(junk));
      hide RingInv; hide PipeInv;
      var b := reader.buf;
      bytes := TouchHeaders(bytes, ring.layout.Chunks(), junk);
      ring.ShrinkLast(b.mem.chunk.off + BUF_OFFSET, reader.sz);
      reader := Ready(b.(mem := RingMem(Chunk(b.mem.chunk.off, RecordLength(reader.sz)))));
    }

    /** lcm_udp.c:857-866: first half of the lock region of recv_thread. */
    method NotifyHandler()
      requires Valid() && Enabled(View(), Notify)
      modifies this
      ensures Valid() && View() == Apply(old(View()), Notify)
    {
      hide RingInv; hide PipeInv;
      RingStep(View(), Notify);
      PipeStep(View(), Notify);
      if inbufsFilled == [] { notifyPipe := notifyPipe + 1; }
      reader := Enqueuing(reader.buf);
    }

    method EnqueueFilled()
      requires Valid() && Enabled(View(), Enqueue)
      modifies this
      ensures Valid() && View() == Apply(old(View()), Enqueue)
    {
      hide RingInv; hide PipeInv;
      RingStep(View(), Enqueue);
      PipeStep(View(), Enqueue);
      inbufsFilled := inbufsFilled + [reader.buf];
      reader := AtSelect(None);
    }

    /** lcm_udp.c:1040: one byte from the pipe. */
    method ReadNotification()
      requires Valid() && Enabled(View(), ReadPipe)
      modifies this
      ensures Valid() && View() == Apply(old(View()), ReadPipe)
    {
      hide RingInv; hide PipeInv;
      RingStep(View(), ReadPipe);
      PipeStep(View(), ReadPipe);
      notifyPipe := notifyPipe - 1;
      calls := calls[|calls| - 1 := Notified];
    }

    /** lcm_udp.c:1051-1072: the first filled buffer, which is always there. */
    method DequeueFilled() returns (b: Buf)
      requires Valid() && Enabled(View(), Dequeue)
      modifies this
      ensures Valid() && Takes(old(View()), b, View())
    {
      hide RingInv; hide PipeInv; hide Payload; hide Apply; hide Takes; hide Enabled;
      DequeueStep(View());
      b := inbufsFilled[0];
      inbufsFilled := inbufsFilled[1..];
      if inbufsFilled != [] { notifyPipe := notifyPipe + 1; }
      calls := calls[..|calls| - 1] + [Dispatching(b, MsgOf(bytes, b))];
      delivered := delivered + [MsgOf(bytes, b)];
    }

    /** lcm_udp.c:1076-1084: give the record back to the ring, the structure to the
        empty queue. ReleaseSafe is the assert of lcm_ringbuf_dealloc. */
    method ReleaseBuffer(b: Buf, ghost junk: seq<byte>)
      requires Valid() && Enabled(View(), Release(junk)) && ReleaseSafe(View())
      requires b == calls[|calls| - 1].buf
      modifies this, ring
      ensures Valid() && View() == Apply(old(View()), Release(junk))
    {
      hide RingInv; hide PipeInv; hide ReleaseSafe; hide TouchHeaders; hide WellPlaced; hide Linked; hide Total;
      hide DeallocOldest; hide DeallocNewest; hide Newest;
      ReleaseStep(View(), junk);
      if b.mem.RingMem? {
        bytes := TouchHeaders(bytes, ring.layout.Chunks(), junk);
        ring.Deallocate(b.mem.chunk.off + BUF_OFFSET);
      }
      inbufsEmpty := inbufsEmpty + [b.(mem := NoMem)];
      calls := calls[..|calls| - 1];
    }
  }
}
