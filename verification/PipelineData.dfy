/** What the receive pipeline does to messages: every completed message reaches the
    handlers unchanged and in order, and no buffer structure is lost. */
module PipelineData {
  import opened Buffers
  import opened Bytes
  import opened RingLayout
  import opened ReceivePipeline

  /** The payload lies inside the record. */
  predicate BufFits(b: Buf) {
    b.mem.RingMem? ==> BUF_OFFSET + b.dataOffset + b.dataSize <= b.mem.chunk.len
  }

  /** The read thread's message, once udp_read_packet has recognised it. */
  function Completed(r: Reader): seq<Buf> {
    match r
    case Shrinking(b, _) => [b]
    case Ready(b) => [b]
    case Enqueuing(b) => [b]
    case _ => []
  }

  /** Completed messages not yet taken by lcm_handle, oldest first. */
  function Pending(s: State): seq<Buf> { s.filled + Completed(s.reader) }

  ghost predicate CallsIntact(bytes: seq<byte>, calls: seq<Call>) {
    forall i :: 0 <= i < |calls| && calls[i].Dispatching? ==>
      BufFits(calls[i].buf) && MsgOf(bytes, calls[i].buf) == calls[i].msg
  }

  /** Messages under dispatch still read as they did at the start, and the
      completed messages are those delivered followed by those pending. */
  ghost predicate DataInv(s: State) {
    && (forall b :: b in Pending(s) ==> BufFits(b))
    && CallsIntact(s.bytes, s.calls)
    && s.accepted == s.delivered + Msgs(s.bytes, Pending(s))
    && (s.reader.Shrinking? ==> s.reader.buf.dataOffset + s.reader.buf.dataSize == s.reader.sz)
  }

  lemma {:induction false} MsgsConcat(bytes: seq<byte>, a: seq<Buf>, b: seq<Buf>)
    ensures Msgs(bytes, a + b) == Msgs(bytes, a) + Msgs(bytes, b)
  {
    if a == [] { assert a + b == b; }
    else {
      assert (a + b)[0] == a[0] && (a + b)[1..] == a[1..] + b;
      MsgsConcat(bytes, a[1..], b);
    }
  }

  lemma {:induction false} MsgsSame(bytes: seq<byte>, bytes': seq<byte>, bs: seq<Buf>)
    requires forall b :: b in bs ==> Payload(bytes', b) == Payload(bytes, b)
    ensures Msgs(bytes', bs) == Msgs(bytes, bs)
  {
    if bs != [] { MsgsSame(bytes, bytes', bs[1..]); }
  }

  lemma {:induction false} MemberChunk(bs: seq<Buf>, b: Buf) returns (k: nat)
    requires b in bs && b.mem.RingMem?
    ensures k < |FromRing(bs)| && FromRing(bs)[k] == b.mem.chunk
  {
    var last := |bs| - 1;
    if bs[last] == b {
      k := |FromRing(bs)| - 1;
    } else {
      assert bs == bs[..last] + [bs[last]];
      k := MemberChunk(bs[..last], b);
    }
  }

  lemma {:induction false} CallBufsMember(calls: seq<Call>, i: nat)
    requires i < |calls| && calls[i].Dispatching?
    ensures calls[i].buf in CallBufs(calls)
  {
    if i < |calls| - 1 { CallBufsMember(calls[..|calls| - 1], i); }
  }

  // ----- writes keep clear of other records' payloads -----

  lemma HeadersClear(l: Layout, size: nat, i: nat, k: nat)
    requires WellPlaced(l, size) && i < |l.Chunks()|
    requires l.Chunks()[i].off + BUF_OFFSET <= k < l.Chunks()[i].End()
    ensures !InHeader(l.Chunks(), k)
  {
    var c := l.Chunks();
    DisjointAndBounded(l, size);
    ChunksSized(l, size);
    forall j | 0 <= j < |c| ensures !(c[j].off <= k < c[j].off + BUF_OFFSET) {
      if j < i { assert Disjoint(c[j], c[i]); }
      if i < j { assert Disjoint(c[i], c[j]); }
    }
  }

  lemma TouchKeepsPayload(l: Layout, size: nat, bytes: seq<byte>, junk: seq<byte>, i: nat, b: Buf)
    requires WellPlaced(l, size) && |bytes| == |junk| == size && i < |l.Chunks()|
    requires b.mem == RingMem(l.Chunks()[i]) && BufFits(b)
    ensures Payload(TouchHeaders(bytes, l.Chunks(), junk), b) == Payload(bytes, b)
  {
    var at := b.mem.chunk.off + BUF_OFFSET + b.dataOffset;
    var bytes' := TouchHeaders(bytes, l.Chunks(), junk);
    if at + b.dataSize <= size {
      forall k | at <= k < at + b.dataSize ensures bytes'[k] == bytes[k] { HeadersClear(l, size, i, k); }
      assert bytes'[at..at + b.dataSize] == bytes[at..at + b.dataSize];
    }
  }

  lemma StoreKeepsPayload(bytes: seq<byte>, at: nat, data: seq<byte>, owner: Chunk, b: Buf)
    requires at + |data| <= |bytes| && owner.off <= at && at + |data| <= owner.End()
    requires b.mem.RingMem? && BufFits(b) && Disjoint(owner, b.mem.chunk)
    ensures Payload(Splice(bytes, at, data), b) == Payload(bytes, b)
  {
    var lo := b.mem.chunk.off + BUF_OFFSET + b.dataOffset;
    if lo + b.dataSize <= |bytes| {
      assert Splice(bytes, at, data)[lo..lo + b.dataSize] == bytes[lo..lo + b.dataSize];
    }
  }

  /** Header writes spare every buffer in use. */
  lemma HeadersSpare(s: State, l: Layout, bytes: seq<byte>, junk: seq<byte>, b: Buf)
    requires RingInv(s) && WellPlaced(l, s.size) && s.ring.Chunks() <= l.Chunks()
    requires |bytes| == |junk| == s.size && b in InUse(s) && BufFits(b)
    ensures Payload(TouchHeaders(bytes, l.Chunks(), junk), b) == Payload(bytes, b)
  {
    if b.mem.RingMem? {
      var k := MemberChunk(InUse(s), b);
      hide WellPlaced; hide TouchHeaders; hide Payload;
      assert l.Chunks()[k] == s.ring.Chunks()[k];
      TouchKeepsPayload(l, s.size, bytes, junk, k, b);
    }
  }

  /** A datagram is written into the newest record only. */
  lemma PacketSpares(s: State, packet: seq<byte>, b: Buf)
    requires RingInv(s) && s.reader.AtSelect? && s.reader.held.Some? && |packet| <= MAX_PACKET
    requires b in CallBufs(s.calls) + s.filled && BufFits(b)
    ensures s.reader.held.value.mem.chunk.off + BUF_OFFSET + |packet| <= |s.bytes|
    ensures Payload(Splice(s.bytes, s.reader.held.value.mem.chunk.off + BUF_OFFSET, packet), b) == Payload(s.bytes, b)
  {
    var held := s.reader.held.value;
    ReaderIsNewest(s);
    NewestInside(s.ring, s.size);
    if b.mem.RingMem? {
      var front := CallBufs(s.calls) + s.filled;
      var k := MemberChunk(front, b);
      var c := s.ring.Chunks();
      assert c[|c| - 1] == held.mem.chunk && c[k] == b.mem.chunk;
      DisjointAndBounded(s.ring, s.size);
      hide WellPlaced; hide Payload;
      assert Disjoint(c[k], c[|c| - 1]);
      StoreKeepsPayload(s.bytes, held.mem.chunk.off + BUF_OFFSET, packet, held.mem.chunk, b);
    }
  }

  // ----- every step keeps the messages -----

  /** Buffers whose payload matters. */
  function Live(s: State): seq<Buf> { CallBufs(s.calls) + Pending(s) }

  lemma LiveInUse(s: State, b: Buf)
    requires b in Live(s)
    ensures b in InUse(s)
  {}

  lemma BytesMayChange(s: State, bytes': seq<byte>)
    requires DataInv(s)
    requires forall b :: b in Live(s) && BufFits(b) ==> Payload(bytes', b) == Payload(s.bytes, b)
    ensures CallsIntact(bytes', s.calls)
    ensures Msgs(bytes', Pending(s)) == Msgs(s.bytes, Pending(s))
  {
    hide Payload;
    forall i | 0 <= i < |s.calls| && s.calls[i].Dispatching?
      ensures MsgOf(bytes', s.calls[i].buf) == s.calls[i].msg
    {
      CallBufsMember(s.calls, i);
    }
    MsgsSame(s.bytes, bytes', Pending(s));
  }

  lemma TouchedBytes(s: State, l: Layout, junk: seq<byte>)
    requires RingInv(s) && DataInv(s) && WellPlaced(l, s.size) && s.ring.Chunks() <= l.Chunks() && |junk| == s.size
    ensures CallsIntact(TouchHeaders(s.bytes, l.Chunks(), junk), s.calls)
    ensures Msgs(TouchHeaders(s.bytes, l.Chunks(), junk), Pending(s)) == Msgs(s.bytes, Pending(s))
  {
    hide WellPlaced; hide Payload; hide TouchHeaders; hide InUse; hide Live;
    forall b | b in Live(s) && BufFits(b)
      ensures Payload(TouchHeaders(s.bytes, l.Chunks(), junk), b) == Payload(s.bytes, b)
    {
      LiveInUse(s, b);
      HeadersSpare(s, l, s.bytes, junk, b);
    }
    BytesMayChange(s, TouchHeaders(s.bytes, l.Chunks(), junk));
  }

  /** The byte zeroed in a fresh record. */
  lemma NotInRing(bytes: seq<byte>, bytes': seq<byte>, b: Buf)
    requires !b.mem.RingMem?
    ensures Payload(bytes, b) == Payload(bytes', b)
  {}

  lemma ZeroSpares(s: State, l: Layout, junk: seq<byte>, last: nat, b: Buf)
    requires RingInv(s) && WellPlaced(l, s.size) && |junk| == s.size && l.older != []
    requires l.Chunks() == s.ring.Chunks() + [Newest(l)] && Newest(l).off <= last < Newest(l).End()
    requires b in InUse(s) && BufFits(b)
    ensures last < s.size
    ensures Payload(TouchHeaders(s.bytes, l.Chunks(), junk)[last := 0], b) == Payload(s.bytes, b)
  {
    hide WellPlaced; hide Payload; hide TouchHeaders; hide InUse; hide FromRing;
    NewestInside(l, s.size);
    var touched := TouchHeaders(s.bytes, l.Chunks(), junk);
    HeadersSpare(s, l, s.bytes, junk, b);
    if !b.mem.RingMem? {
      NotInRing(touched, touched[last := 0], b);
    } else {
      var k := MemberChunk(InUse(s), b);
      DisjointAndBounded(l, s.size);
      var c := l.Chunks();
      assert c[k] == b.mem.chunk && c[|c| - 1] == Newest(l);
      assert Disjoint(c[k], c[|c| - 1]);
      StoreKeepsPayload(touched, last, [0], Newest(l), b);
      assert touched[last := 0] == Splice(touched, last, [0]);
    }
  }

  lemma FreshBytes(s: State, l: Layout, junk: seq<byte>)
    requires RingInv(s) && DataInv(s) && WellPlaced(l, s.size) && |junk| == s.size && l.older != []
    requires l.Chunks() == s.ring.Chunks() + [Newest(l)] && Newest(l).len == BIG_RECORD
    ensures var last := Newest(l).off + BUF_OFFSET + MAX_PACKET;
      && last < s.size
      && CallsIntact(TouchHeaders(s.bytes, l.Chunks(), junk)[last := 0], s.calls)
      && Msgs(TouchHeaders(s.bytes, l.Chunks(), junk)[last := 0], Pending(s)) == Msgs(s.bytes, Pending(s))
  {
    NewestInside(l, s.size);
    var last := Newest(l).off + BUF_OFFSET + MAX_PACKET;
    hide WellPlaced; hide Payload; hide TouchHeaders; hide InUse; hide Live;
    var bytes' := TouchHeaders(s.bytes, l.Chunks(), junk)[last := 0];
    forall b | b in Live(s) && BufFits(b) ensures Payload(bytes', b) == Payload(s.bytes, b) {
      LiveInUse(s, b);
      ZeroSpares(s, l, junk, last, b);
    }
    BytesMayChange(s, bytes');
  }

  lemma TakeKeepsData(s: State, junk: seq<byte>)
    requires RingInv(s) && DataInv(s) && Enabled(s, TakeBuffer(junk))
    ensures DataInv(Apply(s, TakeBuffer(junk)))
  {
    hide WellPlaced; hide Payload; hide TouchHeaders; hide Alloc; hide InUse; hide CallsIntact;
    TakeStaysInside(s, junk);
    AllocKeepsPlaced(s.ring, s.size, BIG_RECORD);
    var s' := Apply(s, TakeBuffer(junk));
    if s'.ring != s.ring {
      FreshBytes(s, s'.ring, junk);
    }
    assert Pending(s') == Pending(s);
  }

  lemma StoredBytes(s: State, packet: seq<byte>)
    requires RingInv(s) && DataInv(s) && s.reader.AtSelect? && s.reader.held.Some? && |packet| <= MAX_PACKET
    ensures s.reader.held.value.mem.chunk.off + BUF_OFFSET + |packet| <= |s.bytes|
    ensures CallsIntact(Splice(s.bytes, s.reader.held.value.mem.chunk.off + BUF_OFFSET, packet), s.calls)
    ensures Msgs(Splice(s.bytes, s.reader.held.value.mem.chunk.off + BUF_OFFSET, packet), Pending(s))
         == Msgs(s.bytes, Pending(s))
  {
    hide WellPlaced; hide Payload; hide Splice; hide InUse;
    ReaderIsNewest(s);
    NewestInside(s.ring, s.size);
    var at := s.reader.held.value.mem.chunk.off + BUF_OFFSET;
    assert Live(s) == CallBufs(s.calls) + s.filled;
    forall b | b in Live(s) && BufFits(b) ensures Payload(Splice(s.bytes, at, packet), b) == Payload(s.bytes, b) {
      PacketSpares(s, packet, b);
    }
    BytesMayChange(s, Splice(s.bytes, at, packet));
  }

  /** A completed short message reads back as the tail of its datagram. */
  lemma ShortPayload(bytes: seq<byte>, b: Buf, packet: seq<byte>, off: nat)
    requires b.mem.RingMem? && off <= |packet| && b.mem.chunk.off + BUF_OFFSET + |packet| <= |bytes|
    requires b.dataOffset == off && b.dataSize == |packet| - off
    ensures Payload(Splice(bytes, b.mem.chunk.off + BUF_OFFSET, packet), b) == packet[off..]
  {
    var at := b.mem.chunk.off + BUF_OFFSET;
    assert Splice(bytes, at, packet)[at + off..at + |packet|] == packet[off..];
  }

  lemma HeapPayload(bytes: seq<byte>, b: Buf)
    requires b.mem.HeapMem? && b.dataOffset == 0 && b.dataSize == |b.mem.data|
    ensures Payload(bytes, b) == b.mem.data
  {
    assert b.mem.data[0..|b.mem.data|] == b.mem.data;
  }

  /** The read thread completes a message. */
  lemma PendingGrows(s: State, s': State, msg: Msg)
    requires DataInv(s) && Completed(s.reader) == []
    requires s'.bytes == s.bytes && s'.calls == s.calls && s'.filled == s.filled && s'.delivered == s.delivered
    requires s'.accepted == s.accepted + [msg]
    requires |Completed(s'.reader)| == 1 && BufFits(Completed(s'.reader)[0])
      && MsgOf(s.bytes, Completed(s'.reader)[0]) == msg
    requires s'.reader.Shrinking? ==> s'.reader.buf.dataOffset + s'.reader.buf.dataSize == s'.reader.sz
    ensures DataInv(s')
  {
    hide Payload; hide CallsIntact; hide BufFits;
    var b := Completed(s'.reader)[0];
    assert Pending(s) == s.filled && Pending(s') == s.filled + [b];
    MsgsConcat(s.bytes, s.filled, [b]);
    assert Msgs(s.bytes, [b]) == [msg];
  }

  lemma ReceiveKeepsData(s: State, packet: seq<byte>, outcome: Outcome, junk: seq<byte>)
    requires RingInv(s) && DataInv(s) && Enabled(s, Receive(packet, outcome, junk))
    ensures DataInv(Apply(s, Receive(packet, outcome, junk)))
  {
    hide WellPlaced; hide TouchHeaders; hide Splice; hide CallsIntact; hide Payload; hide FromRing; hide Alloc;
    StoredBytes(s, packet);
    var b := s.reader.held.value;
    var at := b.mem.chunk.off + BUF_OFFSET;
    var s1 := s.(bytes := Splice(s.bytes, at, packet));
    assert RingInv(s1);
    assert Pending(s1) == s.filled;
    var s' := Apply(s, Receive(packet, outcome, junk));
    match outcome
    case Ignored =>
    case Short(channel, off) =>
      ShortPayload(s.bytes, s'.reader.buf, packet, off);
      PendingGrows(s1, s', Msg(channel, packet[off..]));
    case Reassembled(channel, data) =>
      ReaderIsNewest(s);
      DeallocNewestOrOnly(s1, b.mem, junk);
      TouchedBytes(s1, s1.ring, junk);
      HeapPayload(s'.bytes, s'.reader.buf);
      PendingGrows(s1.(bytes := s'.bytes), s', Msg(channel, data));
  }

  /** Only the length of the record is another. */
  lemma SameRecordStart(bytes: seq<byte>, b: Buf, b': Buf)
    requires b.mem.RingMem? && b'.mem.RingMem? && b.mem.chunk.off == b'.mem.chunk.off && b' == b.(mem := b'.mem)
    ensures MsgOf(bytes, b) == MsgOf(bytes, b')
  {}

  lemma PendingShrinks(s: State, s': State)
    requires DataInv(s) && s.reader.Shrinking? && s'.reader.Ready?
    requires s'.filled == s.filled && s'.delivered == s.delivered && s'.accepted == s.accepted
    requires MsgOf(s'.bytes, s.reader.buf) == MsgOf(s'.bytes, s'.reader.buf) && BufFits(s'.reader.buf)
    requires CallsIntact(s'.bytes, s'.calls) && Msgs(s'.bytes, Pending(s)) == Msgs(s.bytes, Pending(s))
    ensures DataInv(s')
  {
    hide MsgOf; hide CallsIntact; hide BufFits;
    MsgsConcat(s'.bytes, s.filled, [s.reader.buf]);
    MsgsConcat(s'.bytes, s.filled, [s'.reader.buf]);
  }

  lemma ShrinkKeepsData(s: State, junk: seq<byte>)
    requires RingInv(s) && DataInv(s) && Enabled(s, Shrink(junk))
    ensures DataInv(Apply(s, Shrink(junk)))
  {
    hide WellPlaced; hide TouchHeaders; hide InUse; hide CallsIntact; hide RecordLength; hide Payload; hide FromRing;
    ReaderIsNewest(s);
    ShrinkFits(s.reader.sz);
    TouchedBytes(s, s.ring, junk);
    var s' := Apply(s, Shrink(junk));
    SameRecordStart(s'.bytes, s.reader.buf, s'.reader.buf);
    PendingShrinks(s, s');
  }

  lemma NotifiedMeansFilled(s: State)
    requires PipeInv(s) && Enabled(s, Dequeue)
    ensures s.filled != []
  {
    assert NotifiedCalls(s.calls) >= 1;
  }

  lemma DequeueKeepsData(s: State)
    requires PipeInv(s) && DataInv(s) && Enabled(s, Dequeue)
    ensures DataInv(Apply(s, Dequeue))
  {
    NotifiedMeansFilled(s);
    hide Payload;
    var s' := Apply(s, Dequeue);
    var b := s.filled[0];
    assert Pending(s)[0] == b && Pending(s)[1..] == Pending(s');
    assert s.accepted == s'.delivered + Msgs(s.bytes, Pending(s'));
    assert b in Pending(s);
    forall x | x in Pending(s') ensures BufFits(x) { assert x in Pending(s); }
  }

  lemma IntactBefore(bytes: seq<byte>, calls: seq<Call>)
    requires CallsIntact(bytes, calls) && calls != []
    ensures CallsIntact(bytes, calls[..|calls| - 1])
  {
    hide Payload;
  }

  lemma ReleaseKeepsData(s: State, junk: seq<byte>)
    requires RingInv(s) && DataInv(s) && Enabled(s, Release(junk))
    ensures DataInv(Apply(s, Release(junk)))
  {
    hide WellPlaced; hide Payload; hide TouchHeaders; hide CallsIntact; hide FromRing; hide InUse;
    hide DeallocOldest; hide DeallocNewest;
    TouchedBytes(s, s.ring, junk);
    IntactBefore(s.bytes, s.calls);
    IntactBefore(TouchHeaders(s.bytes, s.ring.Chunks(), junk), s.calls);
    assert Pending(Apply(s, Release(junk))) == Pending(s);
  }

  lemma OthersKeepData(s: State, step: Step)
    requires DataInv(s) && Enabled(s, step)
    requires !step.TakeBuffer? && !step.Receive? && !step.Shrink? && !step.Dequeue? && !step.Release?
    ensures DataInv(Apply(s, step))
  {
    hide Payload; hide ApplyTake; hide ApplyReceive; hide ApplyShrink; hide ApplyRelease; hide ApplyDequeue;
    assert Pending(Apply(s, step)) == Pending(s);
  }

  lemma DataStep(s: State, step: Step)
    requires RingInv(s) && PipeInv(s) && DataInv(s) && Enabled(s, step)
    ensures DataInv(Apply(s, step))
  {
    hide RingInv; hide PipeInv; hide DataInv; hide Enabled; hide Apply;
    match step
    case TakeBuffer(junk) => TakeKeepsData(s, junk);
    case Receive(packet, outcome, junk) => ReceiveKeepsData(s, packet, outcome, junk);
    case Shrink(junk) => ShrinkKeepsData(s, junk);
    case Dequeue => DequeueKeepsData(s);
    case Release(junk) => ReleaseKeepsData(s, junk);
    case _ => OthersKeepData(s, step);
  }
}
