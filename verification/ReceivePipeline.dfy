/** The receive side of upstream/lcm/lcm_udp.c as a state machine: the read thread
    and the thread inside lcm_handle share the buffer queues, the ring and the
    notify pipe. One step is one lock region, one access to the pipe outside a
    lock region, or one datagram. */
module ReceivePipeline {
  import opened Buffers
  import opened Bytes
  import opened RingLayout
  import opened Wrappers

  const MAX_PACKET := 65535              // bytes recvmsg may write
  const REQUEST := 65536                 // bytes asked of the ring per datagram
  const BIG_RECORD := 65568              // RecordLength(REQUEST)

  /** Where lcm_buf_t.buf points. */
  datatype Mem = NoMem | RingMem(chunk: Chunk) | HeapMem(data: seq<byte>)

  /** lcm_buf_t; id stands for its address, channel for channel_name. */
  datatype Buf = Buf(id: nat, mem: Mem, channel: seq<byte>, dataOffset: nat, dataSize: nat)

  /** What the handlers are called with. */
  datatype Msg = Msg(channel: seq<byte>, data: seq<byte>)

  /** The read thread: waiting in select, with or without a buffer; between the
      failed alloc and the re-enqueue; before the shrink; after udp_read_packet
      returned; inside the lock region of recv_thread; gone. */
  datatype Reader =
    | AtSelect(held: Option<Buf>)
    | PuttingBack(buf: Buf)
    | Shrinking(buf: Buf, sz: nat)
    | Ready(buf: Buf)
    | Enqueuing(buf: Buf)
    | Exited

  /** One activation of lcm_udpm_handle: before the pipe read, between the pipe
      read and the dequeue, or dispatching a message to the handlers. */
  datatype Call = Waiting | Notified | Dispatching(buf: Buf, msg: Msg)

  /** What became of a datagram: dropped or kept for later, a complete short
      message with its payload at an offset, or the last missing fragment. */
  datatype Outcome =
    | Ignored
    | Short(channel: seq<byte>, dataOffset: nat)
    | Reassembled(channel: seq<byte>, data: seq<byte>)

  datatype State = State(
    size: nat, ring: Layout, bytes: seq<byte>,
    empty: seq<Buf>, filled: seq<Buf>, pipe: nat,
    reader: Reader,
    calls: seq<Call>,              // outermost first; more than one only if a handler calls lcm_handle
    orphans: seq<Buf>,             // freed by the exiting read thread, ring record still in place
    accepted: seq<Msg>,            // all completed messages, in order
    delivered: seq<Msg>,           // what the handlers were given, in order
    aborted: bool,                 // an assert of ringbuffer.c failed, or a write left the ring
    spurious: bool)                // "no packet available despite getting notification"

  datatype Step =
    | TakeBuffer(junk: seq<byte>)
    | PutBack
    | Receive(packet: seq<byte>, outcome: Outcome, junk: seq<byte>)
    | Shrink(junk: seq<byte>)
    | Notify
    | Enqueue
    | Exit
    | EnterHandle
    | ReadPipe
    | Dequeue
    | Release(junk: seq<byte>)

  // ----- memory -----

  predicate InHeader(c: seq<Chunk>, k: int) {
    exists i :: 0 <= i < |c| && c[i].off <= k < c[i].off + BUF_OFFSET
  }

  /** The ring code may leave anything in the headers of the given records. */
  function TouchHeaders(bytes: seq<byte>, c: seq<Chunk>, junk: seq<byte>): (r: seq<byte>)
    requires |junk| == |bytes|
    ensures |r| == |bytes|
  {
    seq(|bytes|, k requires 0 <= k < |bytes| => if InHeader(c, k) then junk[k] else bytes[k])
  }

  /** Of each record the first 28 bytes may become anything, and no other byte changes. */
  lemma TouchedExactly(bytes: seq<byte>, c: seq<Chunk>, junk: seq<byte>, k: nat)
    requires |junk| == |bytes| && k < |bytes|
    ensures TouchHeaders(bytes, c, junk)[k] ==
      if exists i :: 0 <= i < |c| && 0 <= k - c[i].off < 28 then junk[k] else bytes[k]
  {}

  /** The payload a handler sees through lcm_recv_buf_t. */
  function Payload(bytes: seq<byte>, b: Buf): seq<byte> {
    match b.mem
    case NoMem => []
    case HeapMem(data) =>
      if b.dataOffset + b.dataSize <= |data| then data[b.dataOffset..b.dataOffset + b.dataSize] else []
    case RingMem(c) =>
      var at := c.off + BUF_OFFSET + b.dataOffset;
      if at + b.dataSize <= |bytes| then bytes[at..at + b.dataSize] else []
  }

  /** The message as lcm_dispatch_handlers is given it. */
  function MsgOf(bytes: seq<byte>, b: Buf): Msg { Msg(b.channel, Payload(bytes, b)) }

  function Msgs(bytes: seq<byte>, bs: seq<Buf>): seq<Msg> {
    if bs == [] then [] else [MsgOf(bytes, bs[0])] + Msgs(bytes, bs[1..])
  }

  // ----- who holds which buffer -----

  function ReaderBufs(r: Reader): seq<Buf> {
    match r
    case AtSelect(Some(b)) => [b]
    case AtSelect(None) => []
    case PuttingBack(b) => [b]
    case Shrinking(b, _) => [b]
    case Ready(b) => [b]
    case Enqueuing(b) => [b]
    case Exited => []
  }

  function CallBufs(calls: seq<Call>): seq<Buf> {
    if calls == [] then []
    else
      var outer := CallBufs(calls[..|calls| - 1]);
      if calls[|calls| - 1].Dispatching? then outer + [calls[|calls| - 1].buf] else outer
  }

  function InUse(s: State): seq<Buf> {
    CallBufs(s.calls) + s.filled + ReaderBufs(s.reader) + s.orphans
  }

  /** The ring records behind a list of buffers. */
  function FromRing(bs: seq<Buf>): seq<Chunk> {
    if bs == [] then []
    else
      var front := FromRing(bs[..|bs| - 1]);
      if bs[|bs| - 1].mem.RingMem? then front + [bs[|bs| - 1].mem.chunk] else front
  }

  // ----- the steps -----

  function Init(size: nat, bytes: seq<byte>, bufs: seq<Buf>): State {
    State(size, Layout([], []), bytes, bufs, [], 0, AtSelect(None), [], [], [], [], false, false)
  }

  predicate LockFree(s: State) { !s.reader.Enqueuing? }

  predicate Enabled(s: State, step: Step) {
    && !s.aborted
    && match step
       case TakeBuffer(junk) => s.reader == AtSelect(None) && |junk| == |s.bytes|
       case PutBack => s.reader.PuttingBack?
       case Receive(packet, outcome, junk) =>
         && s.reader.AtSelect? && s.reader.held.Some? && |packet| <= MAX_PACKET && |junk| == |s.bytes|
         && (outcome.Short? ==> outcome.dataOffset <= |packet|)
       case Shrink(junk) => s.reader.Shrinking? && |junk| == |s.bytes|
       case Notify => s.reader.Ready?
       case Enqueue => s.reader.Enqueuing?
       case Exit => s.reader.AtSelect?
       case EnterHandle => s.calls == [] || s.calls[|s.calls| - 1].Dispatching?
       case ReadPipe => s.calls != [] && s.calls[|s.calls| - 1].Waiting? && s.pipe > 0
       case Dequeue => s.calls != [] && s.calls[|s.calls| - 1].Notified? && LockFree(s)
       case Release(junk) => s.calls != [] && s.calls[|s.calls| - 1].Dispatching? && LockFree(s) && |junk| == |s.bytes|
  }

  /** What a step of the read thread on the ring leaves alone. */
  predicate SameMessages(s: State, r: State) {
    r.filled == s.filled && r.pipe == s.pipe && r.calls == s.calls && r.spurious == s.spurious
      && r.delivered == s.delivered
  }

  /** lcm_ringbuf_dealloc, with its assert. */
  function Dealloc(s: State, m: Mem, junk: seq<byte>): (r: State)
    requires |junk| == |s.bytes|
    ensures SameMessages(s, r) && r.empty == s.empty && r.reader == s.reader
    ensures r.orphans == s.orphans && r.accepted == s.accepted && r.size == s.size
  {
    if !m.RingMem? then s
    else if s.ring.older != [] && m.chunk.off == s.ring.older[0].off then
      s.(ring := DeallocOldest(s.ring), bytes := TouchHeaders(s.bytes, s.ring.Chunks(), junk))
    else if s.ring.older != [] && m.chunk.off == Newest(s.ring).off then
      s.(ring := DeallocNewest(s.ring), bytes := TouchHeaders(s.bytes, s.ring.Chunks(), junk))
    else s.(aborted := true)
  }

  function ApplyTake(s: State, junk: seq<byte>): (r: State)
    requires Enabled(s, TakeBuffer(junk))
    ensures SameMessages(s, r) && !r.reader.Enqueuing?
  {
    if s.empty == [] then s
    else
      var b := s.empty[0];
      match Alloc(s.ring, s.size, RecordLength(REQUEST))
      case None => s.(empty := s.empty[1..], reader := PuttingBack(b.(mem := NoMem)))
      case Some(l) =>
        var last := Newest(l).off + BUF_OFFSET + MAX_PACKET;
        if last >= |s.bytes| then s.(aborted := true) else
        s.(empty := s.empty[1..], ring := l, reader := AtSelect(Some(b.(mem := RingMem(Newest(l))))),
           bytes := TouchHeaders(s.bytes, l.Chunks(), junk)[last := 0])
  }

  function ApplyReceive(s: State, packet: seq<byte>, outcome: Outcome, junk: seq<byte>): (r: State)
    requires Enabled(s, Receive(packet, outcome, junk))
    ensures SameMessages(s, r) && !r.reader.Enqueuing?
  {
    var b := s.reader.held.value;
    if !b.mem.RingMem? || b.mem.chunk.off + BUF_OFFSET + |packet| > |s.bytes| then s.(aborted := true) else
    var s1 := s.(bytes := Splice(s.bytes, b.mem.chunk.off + BUF_OFFSET, packet));
    match outcome
    case Ignored => s1
    case Short(channel, off) =>
      s1.(reader := Shrinking(b.(channel := channel, dataOffset := off, dataSize := |packet| - off), |packet|),
          accepted := s1.accepted + [Msg(channel, packet[off..])])
    case Reassembled(channel, data) =>
      var b' := b.(mem := HeapMem(data), channel := channel, dataOffset := 0, dataSize := |data|);
      Dealloc(s1, b.mem, junk).(reader := Ready(b'), accepted := s1.accepted + [Msg(channel, data)])
  }

  /** lcm_ringbuf_shrink_last, with its asserts. */
  function ApplyShrink(s: State, junk: seq<byte>): (r: State)
    requires Enabled(s, Shrink(junk))
    ensures SameMessages(s, r) && !r.reader.Enqueuing?
  {
    var b, n := s.reader.buf, RecordLength(s.reader.sz);
    if b.mem.RingMem? && s.ring.older != [] && b.mem.chunk.off == Newest(s.ring).off && n <= Newest(s.ring).len then
      s.(ring := ShrinkLast(s.ring, n), bytes := TouchHeaders(s.bytes, s.ring.Chunks(), junk),
         reader := Ready(b.(mem := RingMem(Chunk(b.mem.chunk.off, n)))))
    else s.(aborted := true)
  }

  function ApplyDequeue(s: State): State
    requires Enabled(s, Dequeue)
  {
    var outer := s.calls[..|s.calls| - 1];
    if s.filled == [] then s.(calls := outer, spurious := true)
    else
      var b := s.filled[0];
      var msg := MsgOf(s.bytes, b);
      s.(filled := s.filled[1..], pipe := if |s.filled| > 1 then s.pipe + 1 else s.pipe,
         calls := outer + [Dispatching(b, msg)], delivered := s.delivered + [msg])
  }

  function ApplyRelease(s: State, junk: seq<byte>): State
    requires Enabled(s, Release(junk))
  {
    var b := s.calls[|s.calls| - 1].buf;
    var s1 := Dealloc(s, b.mem, junk);
    if s1.aborted then s1
    else s1.(empty := s1.empty + [b.(mem := NoMem)], calls := s1.calls[..|s1.calls| - 1])
  }

  function Apply(s: State, step: Step): State
    requires Enabled(s, step)
  {
    match step
    case TakeBuffer(junk) => ApplyTake(s, junk)
    case PutBack => s.(empty := s.empty + [s.reader.buf], reader := AtSelect(None))
    case Receive(packet, outcome, junk) => ApplyReceive(s, packet, outcome, junk)
    case Shrink(junk) => ApplyShrink(s, junk)
    case Notify => s.(pipe := if s.filled == [] then s.pipe + 1 else s.pipe, reader := Enqueuing(s.reader.buf))
    case Enqueue => s.(filled := s.filled + [s.reader.buf], reader := AtSelect(None))
    case Exit => s.(reader := Exited, orphans := ReaderBufs(s.reader))
    case EnterHandle => s.(calls := s.calls + [Waiting])
    case ReadPipe => s.(pipe := s.pipe - 1, calls := s.calls[|s.calls| - 1 := Notified])
    case Dequeue => ApplyDequeue(s)
    case Release(junk) => ApplyRelease(s, junk)
  }

  /** The state after a sequence of steps, if each was possible in turn. */
  function Exec(s: State, steps: seq<Step>): Option<State> {
    if steps == [] then Some(s)
    else match Exec(s, steps[..|steps| - 1])
      case None => None
      case Some(s1) => if Enabled(s1, steps[|steps| - 1]) then Some(Apply(s1, steps[|steps| - 1])) else None
  }

  // ----- the notify pipe -----

  /** Handle activations between their pipe read and their dequeue. */
  function NotifiedCalls(calls: seq<Call>): nat {
    if calls == [] then 0
    else NotifiedCalls(calls[..|calls| - 1]) + (if calls[|calls| - 1].Notified? then 1 else 0)
  }

  /** Pipe bytes plus notified calls: one while a message is queued (or about to
      be, inside the read thread's lock region), none otherwise. */
  ghost predicate PipeInv(s: State) {
    && !s.spurious
    && s.pipe + NotifiedCalls(s.calls) == (if s.filled != [] || s.reader.Enqueuing? then 1 else 0)
  }

  lemma NoCalls()
    ensures NotifiedCalls([]) == 0
  {}

  lemma NotifiedSnoc(calls: seq<Call>, c: Call)
    ensures NotifiedCalls(calls + [c]) == NotifiedCalls(calls) + if c.Notified? then 1 else 0
  {
    assert (calls + [c])[..|calls|] == calls;
  }

  lemma PipeStep(s: State, step: Step)
    requires Enabled(s, step) && PipeInv(s)
    ensures PipeInv(Apply(s, step))
  {
    hide ApplyTake; hide ApplyReceive; hide ApplyShrink; hide Dealloc; hide Payload; hide NotifiedCalls;
    NoCalls();
    match step
    case EnterHandle => NotifiedSnoc(s.calls, Waiting);
    case ReadPipe =>
      var outer := s.calls[..|s.calls| - 1];
      assert s.calls[|s.calls| - 1 := Notified] == outer + [Notified] && s.calls == outer + [Waiting];
      NotifiedSnoc(outer, Waiting);
      NotifiedSnoc(outer, Notified);
    case Dequeue =>
      var outer := s.calls[..|s.calls| - 1];
      assert s.calls == outer + [Notified];
      NotifiedSnoc(outer, Notified);
      NotifiedSnoc(outer, Dispatching(s.filled[0], MsgOf(s.bytes, s.filled[0])));
    case Release(junk) =>
      var outer := s.calls[..|s.calls| - 1];
      assert s.calls == outer + [s.calls[|s.calls| - 1]];
      NotifiedSnoc(outer, s.calls[|s.calls| - 1]);
    case _ =>
  }

  // ----- the ring and the queues -----

  lemma {:induction false} FromRingConcat(a: seq<Buf>, b: seq<Buf>)
    ensures FromRing(a + b) == FromRing(a) + FromRing(b)
  {
    if b == [] { assert a + b == a; }
    else {
      assert (a + b)[..|a + b| - 1] == a + b[..|b| - 1];
      FromRingConcat(a, b[..|b| - 1]);
    }
  }

  /** Activations enclosing the innermost one, and everything behind it in the ring. */
  function Enclosing(s: State): seq<Buf>
    requires s.calls != []
  {
    CallBufs(s.calls[..|s.calls| - 1])
  }

  function Behind(s: State): seq<Buf> { s.filled + ReaderBufs(s.reader) + s.orphans }

  ghost predicate ReaderHolds(r: Reader) {
    match r
    case AtSelect(Some(b)) => b.mem.RingMem? && b.mem.chunk.len == BIG_RECORD
    case Shrinking(b, sz) => b.mem.RingMem? && b.mem.chunk.len == BIG_RECORD && sz <= MAX_PACKET
    case PuttingBack(b) => b.mem.NoMem?
    case _ => true
  }

  /** The ring's record list, oldest first, is the buffers being dispatched, then
      the filled queue, then the read thread's buffer. */
  ghost predicate RingInv(s: State) {
    && WellPlaced(s.ring, s.size) && |s.bytes| == s.size
    && s.ring.Chunks() == FromRing(InUse(s))
    && ReaderHolds(s.reader)
    && (s.orphans != [] ==> s.reader.Exited?)
  }

  /** What the innermost dispatch must meet to release its buffer. */
  ghost predicate ReleaseSafe(s: State)
    requires s.calls != [] && s.calls[|s.calls| - 1].Dispatching?
  {
    s.calls[|s.calls| - 1].buf.mem.RingMem? ==> FromRing(Enclosing(s)) == [] || FromRing(Behind(s)) == []
  }

  lemma InUseSplit(s: State)
    requires s.calls != [] && s.calls[|s.calls| - 1].Dispatching?
    ensures FromRing(InUse(s)) ==
      FromRing(Enclosing(s)) + FromRing([s.calls[|s.calls| - 1].buf]) + FromRing(Behind(s))
  {
    var b := s.calls[|s.calls| - 1].buf;
    assert CallBufs(s.calls) == Enclosing(s) + [b];
    assert InUse(s) == (Enclosing(s) + [b]) + Behind(s);
    FromRingConcat(Enclosing(s) + [b], Behind(s));
    FromRingConcat(Enclosing(s), [b]);
  }

  lemma ReaderIsNewest(s: State)
    requires RingInv(s) && s.orphans == [] && |ReaderBufs(s.reader)| == 1 && ReaderBufs(s.reader)[0].mem.RingMem?
    ensures s.ring.older != [] && Newest(s.ring) == ReaderBufs(s.reader)[0].mem.chunk
    ensures FromRing(CallBufs(s.calls) + s.filled) == s.ring.Chunks()[..|s.ring.Chunks()| - 1]
  {
    var b := ReaderBufs(s.reader)[0];
    assert InUse(s) == CallBufs(s.calls) + s.filled + [b];
    assert InUse(s)[..|InUse(s)| - 1] == CallBufs(s.calls) + s.filled;
    var c := s.ring.Chunks();
    assert c == FromRing(CallBufs(s.calls) + s.filled) + [b.mem.chunk];
    assert c[|c| - 1] == Newest(s.ring);
  }

  lemma NewestInside(l: Layout, size: nat)
    requires WellPlaced(l, size) && l.older != []
    ensures Newest(l).End() <= size
  {}

  lemma ShrinkFits(sz: nat)
    requires sz <= MAX_PACKET
    ensures HEADER_SIZE + sz <= RecordLength(sz) <= BIG_RECORD && RecordLength(sz) % ALIGNMENT == 0
  {
    RecordLengthCovers(sz);
  }

  lemma TakeStaysInside(s: State, junk: seq<byte>)
    requires RingInv(s) && Enabled(s, TakeBuffer(junk))
    ensures !Apply(s, TakeBuffer(junk)).aborted
  {
    hide WellPlaced; hide InUse; hide TouchHeaders; hide FromRing; hide Alloc; hide Layout.Chunks;
    if Alloc(s.ring, s.size, BIG_RECORD).Some? {
      AllocKeepsPlaced(s.ring, s.size, BIG_RECORD);
      NewestInside(Alloc(s.ring, s.size, BIG_RECORD).value, s.size);
    }
  }

  lemma FromRingOne(b: Buf)
    ensures FromRing([b]) == if b.mem.RingMem? then [b.mem.chunk] else []
  {
    assert [b][..0] == [];
  }

  /** Where the record being released stands in the ring. */
  lemma ReleasedPosition(s: State)
    requires RingInv(s) && s.calls != [] && s.calls[|s.calls| - 1].Dispatching?
      && s.calls[|s.calls| - 1].buf.mem.RingMem?
    ensures var c, p := s.ring.Chunks(), |FromRing(Enclosing(s))|;
      |c| == p + 1 + |FromRing(Behind(s))| && c[p] == s.calls[|s.calls| - 1].buf.mem.chunk
  {
    hide WellPlaced; hide FromRing; hide Enclosing; hide Behind; hide InUse; hide Layout.Chunks;
    InUseSplit(s);
    FromRingOne(s.calls[|s.calls| - 1].buf);
  }

  lemma OldestExists(l: Layout, size: nat)
    requires WellPlaced(l, size) && l.Chunks() != []
    ensures l.older != []
  {}

  /** The oldest and the newest record are the ends of the list, and no other record
      has their offsets. */
  lemma RingEnds(l: Layout, size: nat)
    requires WellPlaced(l, size) && l.Chunks() != []
    ensures var c := l.Chunks();
      l.older != [] && c[0] == l.older[0] && c[|c| - 1] == Newest(l) && OffsetsDistinct(c)
  {
    HeadersNotShared(l, size);
    assert l.older != [] by { OldestExists(l, size); }
    hide WellPlaced; hide OffsetsDistinct;
  }

  lemma ReleaseAborts(s: State, junk: seq<byte>)
    requires RingInv(s) && Enabled(s, Release(junk))
    ensures Apply(s, Release(junk)).aborted <==> !ReleaseSafe(s)
  {
    hide WellPlaced; hide FromRing; hide Enclosing; hide Behind; hide InUse; hide Newest; hide Layout.Chunks;
    hide TouchHeaders;
    var b := s.calls[|s.calls| - 1].buf;
    if b.mem.RingMem? {
      ReleasedPosition(s);
      RingEnds(s.ring, s.size);
      var c, p := s.ring.Chunks(), |FromRing(Enclosing(s))|;
      if 0 < p { assert c[0].off != c[p].off; }
      if p < |c| - 1 { assert c[p].off != c[|c| - 1].off; }
    }
  }

  /** Only a release can run into an assert of ringbuffer.c, and it does exactly
      when the buffer is neither the oldest nor the newest ring record. */
  lemma AbortsExactly(s: State, step: Step)
    requires RingInv(s) && Enabled(s, step)
    ensures Apply(s, step).aborted <==> step.Release? && !ReleaseSafe(s)
  {
    match step
    case TakeBuffer(junk) => TakeStaysInside(s, junk);
    case Receive(packet, outcome, junk) =>
      ReaderIsNewest(s);
      NewestInside(s.ring, s.size);
    case Shrink(junk) =>
      ReaderIsNewest(s);
      ShrinkFits(s.reader.sz);
    case Release(junk) => ReleaseAborts(s, junk);
    case _ =>
  }

  // ----- every step keeps the correspondence -----

  lemma FromRingSnoc(a: seq<Buf>, b: Buf)
    ensures FromRing(a + [b]) == if b.mem.RingMem? then FromRing(a) + [b.mem.chunk] else FromRing(a)
  {
    assert (a + [b])[..|a|] == a;
  }

  lemma CallBufsSnoc(calls: seq<Call>, c: Call)
    ensures CallBufs(calls + [c]) == if c.Dispatching? then CallBufs(calls) + [c.buf] else CallBufs(calls)
  {
    assert (calls + [c])[..|calls|] == calls;
  }

  /** The read thread picks up a buffer: it comes last in the list. */
  lemma GrowReader(s: State, s': State)
    requires s.reader == AtSelect(None) && s.orphans == [] == s'.orphans
    requires s'.calls == s.calls && s'.filled == s.filled
    requires s'.reader == s.reader || |ReaderBufs(s'.reader)| == 1
    ensures FromRing(InUse(s')) ==
      if s'.reader == s.reader || !ReaderBufs(s'.reader)[0].mem.RingMem? then FromRing(InUse(s))
      else FromRing(InUse(s)) + [ReaderBufs(s'.reader)[0].mem.chunk]
  {
    var front := CallBufs(s.calls) + s.filled;
    assert InUse(s) == front;
    if s'.reader != s.reader {
      assert InUse(s') == front + [ReaderBufs(s'.reader)[0]];
      FromRingSnoc(front, ReaderBufs(s'.reader)[0]);
    }
  }

  lemma TakeKeepsRing(s: State, junk: seq<byte>)
    requires RingInv(s) && Enabled(s, TakeBuffer(junk))
    ensures RingInv(Apply(s, TakeBuffer(junk)))
  {
    hide WellPlaced; hide InUse; hide TouchHeaders; hide FromRing; hide Alloc; hide Newest; hide Layout.Chunks;
    TakeStaysInside(s, junk);
    AllocKeepsPlaced(s.ring, s.size, BIG_RECORD);
    var s' := Apply(s, TakeBuffer(junk));
    GrowReader(s, s');
  }

  lemma NewestAlone(c: seq<Chunk>)
    requires OffsetsDistinct(c) && c != []
    ensures c[0].off == c[|c| - 1].off ==> |c| == 1
  {}

  /** A fragment that completes a message gives its own record back. */
  lemma DeallocNewestOrOnly(s: State, m: Mem, junk: seq<byte>)
    requires WellPlaced(s.ring, s.size) && |s.bytes| == |junk| == s.size && !s.aborted
    requires s.ring.older != [] && m == RingMem(Newest(s.ring))
    ensures var s' := Dealloc(s, m, junk);
      && !s'.aborted && WellPlaced(s'.ring, s'.size) && |s'.bytes| == s'.size
      && s'.ring.Chunks() == s.ring.Chunks()[..|s.ring.Chunks()| - 1]
  {
    var c := s.ring.Chunks();
    hide WellPlaced; hide TouchHeaders; hide OffsetsDistinct;
    DeallocOldestKeepsPlaced(s.ring, s.size);
    DeallocNewestKeepsPlaced(s.ring, s.size);
    RingEnds(s.ring, s.size);
    NewestAlone(c);
  }

  lemma ReceiveKeepsRing(s: State, packet: seq<byte>, outcome: Outcome, junk: seq<byte>)
    requires RingInv(s) && Enabled(s, Receive(packet, outcome, junk))
    ensures RingInv(Apply(s, Receive(packet, outcome, junk)))
  {
    ReaderIsNewest(s);
    NewestInside(s.ring, s.size);
    var s' := Apply(s, Receive(packet, outcome, junk));
    var front := CallBufs(s.calls) + s.filled;
    assert InUse(s) == front + ReaderBufs(s.reader) && InUse(s') == front + ReaderBufs(s'.reader);
    FromRingSnoc(front, ReaderBufs(s.reader)[0]);
    FromRingSnoc(front, ReaderBufs(s'.reader)[0]);
    if outcome.Reassembled? {
      var b := s.reader.held.value;
      var s1 := s.(bytes := Splice(s.bytes, b.mem.chunk.off + BUF_OFFSET, packet));
      DeallocNewestOrOnly(s1, b.mem, junk);
    }
  }

  lemma ShrinkKeepsRing(s: State, junk: seq<byte>)
    requires RingInv(s) && Enabled(s, Shrink(junk))
    ensures RingInv(Apply(s, Shrink(junk)))
  {
    hide WellPlaced; hide RecordLength; hide TouchHeaders; hide Total;
    ReaderIsNewest(s);
    ShrinkFits(s.reader.sz);
    ShrinkKeepsPlaced(s.ring, s.size, RecordLength(s.reader.sz));
    var s' := Apply(s, Shrink(junk));
    var front := CallBufs(s.calls) + s.filled;
    assert InUse(s) == front + [s.reader.buf] && InUse(s') == front + [s'.reader.buf];
    FromRingSnoc(front, s.reader.buf);
    FromRingSnoc(front, s'.reader.buf);
  }

  lemma ReleasedEnd(s: State)
    requires RingInv(s) && s.calls != [] && s.calls[|s.calls| - 1].Dispatching? && ReleaseSafe(s)
    requires s.calls[|s.calls| - 1].buf.mem.RingMem?
    ensures s.ring.older != []
    ensures var at := s.calls[|s.calls| - 1].buf.mem.chunk.off;
      && (at == s.ring.older[0].off ==> FromRing(Enclosing(s)) == [])
      && (at != s.ring.older[0].off ==> at == Newest(s.ring).off && FromRing(Behind(s)) == [])
  {
    hide WellPlaced; hide FromRing; hide Enclosing; hide Behind; hide InUse; hide Newest; hide Layout.Chunks;
    ReleasedPosition(s);
    RingEnds(s.ring, s.size);
    var c, p := s.ring.Chunks(), |FromRing(Enclosing(s))|;
    if 0 < p { assert c[0].off != c[p].off; }
  }

  lemma ReleasedRing(s: State, junk: seq<byte>)
    requires RingInv(s) && Enabled(s, Release(junk)) && ReleaseSafe(s)
    ensures var s1 := Dealloc(s, s.calls[|s.calls| - 1].buf.mem, junk);
      && !s1.aborted && WellPlaced(s1.ring, s.size) && |s1.bytes| == s.size
      && s1.ring.Chunks() == FromRing(Enclosing(s)) + FromRing(Behind(s))
  {
    hide WellPlaced; hide FromRing; hide Enclosing; hide Behind; hide InUse; hide TouchHeaders;
    var b := s.calls[|s.calls| - 1].buf;
    InUseSplit(s);
    FromRingOne(b);
    if b.mem.RingMem? {
      ReleasedEnd(s);
      DeallocOldestKeepsPlaced(s.ring, s.size);
      DeallocNewestKeepsPlaced(s.ring, s.size);
    }
  }

  lemma ReleaseKeepsRing(s: State, junk: seq<byte>)
    requires RingInv(s) && Enabled(s, Release(junk)) && ReleaseSafe(s)
    ensures RingInv(Apply(s, Release(junk)))
  {
    hide WellPlaced; hide Dealloc;
    ReleaseAborts(s, junk);
    InUseSplit(s);
    var s' := Apply(s, Release(junk));
    var b := s.calls[|s.calls| - 1].buf;
    ReleasedRing(s, junk);
    assert s'.calls == s.calls[..|s.calls| - 1];
    assert InUse(s') == Enclosing(s) + Behind(s);
    FromRingConcat(Enclosing(s), Behind(s));
  }

  /** Steps that leave the ring alone keep the correspondence if the ring
      records of the buffers in use stay the same, in order. */
  lemma PutBackKeepsRing(s: State)
    requires RingInv(s) && Enabled(s, PutBack)
    ensures RingInv(Apply(s, PutBack))
  {
    hide WellPlaced;
    var s' := Apply(s, PutBack);
    var front := CallBufs(s.calls) + s.filled;
    assert InUse(s) == front + [s.reader.buf] && InUse(s') == front;
    FromRingSnoc(front, s.reader.buf);
  }

  lemma HandOverKeepsRing(s: State, step: Step)
    requires RingInv(s) && Enabled(s, step) && (step.Notify? || step.Exit?)
    ensures RingInv(Apply(s, step))
  {
    hide WellPlaced;
    var s' := Apply(s, step);
    assert InUse(s') == InUse(s);
  }

  lemma EnqueueKeepsRing(s: State)
    requires RingInv(s) && Enabled(s, Enqueue)
    ensures RingInv(Apply(s, Enqueue))
  {
    hide WellPlaced;
    var s' := Apply(s, Enqueue);
    var front := CallBufs(s.calls);
    assert InUse(s) == front + s.filled + [s.reader.buf];
    assert InUse(s') == front + s'.filled;
    assert front + (s.filled + [s.reader.buf]) == front + s.filled + [s.reader.buf];
  }

  lemma EnterKeepsRing(s: State, step: Step)
    requires RingInv(s) && Enabled(s, step) && (step.EnterHandle? || step.ReadPipe?)
    ensures RingInv(Apply(s, step))
  {
    hide WellPlaced;
    if step.EnterHandle? {
      CallBufsSnoc(s.calls, Waiting);
    } else {
      var outer := s.calls[..|s.calls| - 1];
      assert s.calls == outer + [Waiting] && Apply(s, step).calls == outer + [Notified];
      CallBufsSnoc(outer, Waiting);
      CallBufsSnoc(outer, Notified);
    }
  }

  /** A dequeue moves the head of the filled queue to the dispatched buffers, next to it. */
  lemma DequeueMoves(s: State)
    requires Enabled(s, Dequeue)
    ensures InUse(ApplyDequeue(s)) == InUse(s)
  {
    hide Payload;
    var outer := s.calls[..|s.calls| - 1];
    assert s.calls == outer + [Notified];
    CallBufsSnoc(outer, Notified);
    if s.filled != [] {
      var c := Dispatching(s.filled[0], MsgOf(s.bytes, s.filled[0]));
      CallBufsSnoc(outer, c);
      assert CallBufs(s.calls) + s.filled == CallBufs(outer + [c]) + s.filled[1..];
    }
  }

  lemma DequeueKeepsRing(s: State)
    requires RingInv(s) && Enabled(s, Dequeue)
    ensures RingInv(Apply(s, Dequeue))
  {
    hide WellPlaced; hide Payload; hide InUse; hide FromRing; hide CallBufs; hide Layout.Chunks;
    DequeueMoves(s);
  }

  lemma RingStep(s: State, step: Step)
    requires RingInv(s) && Enabled(s, step) && !Apply(s, step).aborted
    ensures RingInv(Apply(s, step))
  {
    match step
    case TakeBuffer(junk) => TakeKeepsRing(s, junk);
    case Receive(packet, outcome, junk) => ReceiveKeepsRing(s, packet, outcome, junk);
    case Shrink(junk) => ShrinkKeepsRing(s, junk);
    case Release(junk) => ReleaseAborts(s, junk); ReleaseKeepsRing(s, junk);
    case PutBack => PutBackKeepsRing(s);
    case Enqueue => EnqueueKeepsRing(s);
    case Dequeue => DequeueKeepsRing(s);
    case EnterHandle => EnterKeepsRing(s, step);
    case ReadPipe => EnterKeepsRing(s, step);
    case _ => HandOverKeepsRing(s, step);
  }
}
