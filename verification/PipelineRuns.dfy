/** What holds in every reachable state of the receive pipeline. */
module PipelineRuns {
  import opened Buffers
  import opened Bytes
  import opened RingLayout
  import opened ReceivePipeline
  import opened PipelineData
  import opened Wrappers

  /** How often the structure with this id occurs in a list. */
  function Count(bs: seq<Buf>, id: nat): nat {
    if bs == [] then 0 else Count(bs[..|bs| - 1], id) + if bs[|bs| - 1].id == id then 1 else 0
  }

  lemma {:induction false} CountConcat(a: seq<Buf>, b: seq<Buf>, id: nat)
    ensures Count(a + b, id) == Count(a, id) + Count(b, id)
  {
    if b == [] { assert a + b == a; }
    else {
      assert (a + b)[..|a + b| - 1] == a + b[..|b| - 1];
      CountConcat(a, b[..|b| - 1], id);
    }
  }

  /** Every lcm_buf_t: empty, being dispatched, filled, with the read thread, or
      freed by it on exit. */
  function CountAll(s: State, id: nat): nat {
    Count(s.empty, id) + Count(CallBufs(s.calls), id) + Count(s.filled, id) + Count(ReaderBufs(s.reader), id)
    + Count(s.orphans, id)
  }

  lemma CountOne(b: Buf, id: nat)
    ensures Count([b], id) == if b.id == id then 1 else 0
  {
    assert [b][..0] == [];
  }

  lemma CountSnoc(bs: seq<Buf>, b: Buf, id: nat)
    ensures Count(bs + [b], id) == Count(bs, id) + if b.id == id then 1 else 0
  {
    CountConcat(bs, [b], id);
    CountOne(b, id);
  }

  lemma CountFirst(bs: seq<Buf>, id: nat)
    requires bs != []
    ensures Count(bs, id) == Count(bs[1..], id) + if bs[0].id == id then 1 else 0
  {
    assert bs == [bs[0]] + bs[1..];
    CountConcat([bs[0]], bs[1..], id);
    CountOne(bs[0], id);
  }

  lemma CountEmpty(id: nat)
    ensures Count([], id) == 0
  {}

  lemma NoOrphans(s: State)
    requires RingInv(s) && !s.reader.Exited?
    ensures s.orphans == []
  {}

  lemma HeldCount(r: Reader, id: nat)
    ensures Count(ReaderBufs(r), id) == if ReaderBufs(r) != [] && ReaderBufs(r)[0].id == id then 1 else 0
  {
    var b := ReaderBufs(r);
    if b != [] {
      assert b == [b[0]];
      CountOne(b[0], id);
    }
  }

  lemma ReaderKeepsCount(s: State, step: Step, id: nat)
    requires Enabled(s, step) && (step.Receive? || step.Shrink? || step.TakeBuffer?)
    ensures CountAll(Apply(s, step), id) == CountAll(s, id)
  {
    hide Count; hide CallBufs; hide TouchHeaders; hide Alloc; hide Splice; hide RecordLength; hide DeallocOldest;
    hide DeallocNewest; hide ShrinkLast; hide Newest;
    var s' := Apply(s, step);
    if s.empty != [] { CountFirst(s.empty, id); }
    HeldCount(s.reader, id);
    HeldCount(s'.reader, id);
  }

  lemma HandlerKeepsCount(s: State, step: Step, id: nat)
    requires Enabled(s, step) && (step.Dequeue? || step.Release?)
    ensures CountAll(Apply(s, step), id) == CountAll(s, id)
  {
    hide Payload; hide Count; hide CallBufs; hide TouchHeaders; hide DeallocOldest; hide DeallocNewest; hide Newest;
    var outer, last := s.calls[..|s.calls| - 1], s.calls[|s.calls| - 1];
    assert s.calls == outer + [last];
    CallBufsSnoc(outer, last);
    if step.Release? {
      CountSnoc(CallBufs(outer), last.buf, id);
      CountSnoc(s.empty, last.buf.(mem := NoMem), id);
    } else if s.filled != [] {
      CountFirst(s.filled, id);
      CallBufsSnoc(outer, Dispatching(s.filled[0], MsgOf(s.bytes, s.filled[0])));
      CountSnoc(CallBufs(outer), s.filled[0], id);
    }
  }

  /** No step loses, invents or duplicates a buffer structure. */
  lemma CountStep(s: State, step: Step, id: nat)
    requires RingInv(s) && Enabled(s, step)
    ensures CountAll(Apply(s, step), id) == CountAll(s, id)
  {
    hide Count; hide CallBufs; hide ApplyTake; hide ApplyReceive; hide ApplyShrink; hide ApplyRelease;
    hide ApplyDequeue; hide RingInv;
    if step.PutBack? || step.Exit? { NoOrphans(s); }
    CountEmpty(id);
    if step.Receive? || step.Shrink? || step.TakeBuffer? {
      ReaderKeepsCount(s, step, id);
    } else if step.Dequeue? || step.Release? {
      HandlerKeepsCount(s, step, id);
    } else {
      match step
      case PutBack => CountOne(s.reader.buf, id); CountSnoc(s.empty, s.reader.buf, id);
      case Enqueue => CountOne(s.reader.buf, id); CountSnoc(s.filled, s.reader.buf, id);
      case EnterHandle => CallBufsSnoc(s.calls, Waiting);
      case ReadPipe =>
        var outer := s.calls[..|s.calls| - 1];
        assert s.calls == outer + [Waiting] && Apply(s, step).calls == outer + [Notified];
        CallBufsSnoc(outer, Waiting);
        CallBufsSnoc(outer, Notified);
      case _ =>
    }
  }

  // ----- runs -----

  ghost predicate Inv(s: State, bufs: seq<Buf>) {
    PipeInv(s) && DataInv(s) && RingInv(s) && forall id :: CountAll(s, id) == Count(bufs, id)
  }

  lemma EnabledMeansRunning(s: State, step: Step)
    requires Enabled(s, step)
    ensures !s.aborted
  {}

  lemma InitInv(size: nat, bytes: seq<byte>, bufs: seq<Buf>)
    requires |bytes| == size
    ensures Inv(Init(size, bytes, bufs), bufs)
  {}

  /** Every run that has not hit a failed assert is in order: the ring records
      match the buffers in use, the pipe holds a byte exactly while it should,
      the messages delivered and pending are the completed ones, in order and
      unchanged, and the buffer structures are all accounted for. */
  lemma {:induction false} EveryRun(size: nat, bytes: seq<byte>, bufs: seq<Buf>, steps: seq<Step>)
    requires |bytes| == size
    ensures var r := Exec(Init(size, bytes, bufs), steps);
      r.Some? && !r.value.aborted ==> Inv(r.value, bufs)
  {
    hide Apply; hide RingInv; hide DataInv; hide PipeInv; hide CountAll; hide Enabled;
    var s0 := Init(size, bytes, bufs);
    if steps == [] {
      InitInv(size, bytes, bufs);
    } else {
      var last := |steps| - 1;
      var r := Exec(s0, steps[..last]);
      if r.Some? && Enabled(r.value, steps[last]) {
        EnabledMeansRunning(r.value, steps[last]);
        EveryRun(size, bytes, bufs, steps[..last]);
        PipeStep(r.value, steps[last]);
        DataStep(r.value, steps[last]);
        forall id { CountStep(r.value, steps[last], id); }
        if !Apply(r.value, steps[last]).aborted { RingStep(r.value, steps[last]); }
      }
    }
  }

  lemma LoneReleaseIsSafe(s: State, junk: seq<byte>)
    requires Enabled(s, Release(junk)) && |s.calls| <= 1
    ensures ReleaseSafe(s)
  {
    assert s.calls[..|s.calls| - 1] == [];
  }

  /** With handlers that never call lcm_handle, no assert ever fails. */
  lemma {:induction false} NoReentryNoAbort(size: nat, bytes: seq<byte>, bufs: seq<Buf>, steps: seq<Step>)
    requires |bytes| == size
    requires forall k :: 0 <= k <= |steps| ==>
      var r := Exec(Init(size, bytes, bufs), steps[..k]); r.Some? ==> |r.value.calls| <= 1
    ensures var r := Exec(Init(size, bytes, bufs), steps);
      r.Some? ==> !r.value.aborted
  {
    var s0 := Init(size, bytes, bufs);
    var r := Exec(s0, steps);
    if r.Some? && steps != [] {
      var last := |steps| - 1;
      var s := Exec(s0, steps[..last]).value;
      hide Apply; hide RingInv; hide DataInv; hide PipeInv; hide CountAll; hide Enabled;
      EnabledMeansRunning(s, steps[last]);
      assert Exec(s0, steps[..last]).Some?;
      assert forall k :: 0 <= k <= last ==> steps[..last][..k] == steps[..k];
      EveryRun(size, bytes, bufs, steps[..last]);
      AbortsExactly(s, steps[last]);
      if steps[last].Release? { LoneReleaseIsSafe(s, steps[last].junk); }
    }
  }

  lemma {:induction false} ExecAppend(s: State, a: seq<Step>, b: seq<Step>)
    ensures Exec(s, a + b) == if Exec(s, a).Some? then Exec(Exec(s, a).value, b) else None
  {
    hide Apply; hide Enabled;
    if b == [] { assert a + b == a; }
    else {
      assert (a + b)[..|a + b| - 1] == a + b[..|b| - 1];
      ExecAppend(s, a, b[..|b| - 1]);
    }
  }

  lemma ExecOne(s: State, step: Step)
    requires Enabled(s, step)
    ensures Exec(s, [step]) == Some(Apply(s, step))
  {
    hide Apply; hide Enabled;
    assert [step][..0] == [];
    assert Exec(s, []) == Some(s);
  }

  lemma InvStep(s: State, bufs: seq<Buf>, step: Step)
    requires Inv(s, bufs) && Enabled(s, step)
    ensures !Apply(s, step).aborted ==> Inv(Apply(s, step), bufs)
  {
    PipeStep(s, step);
    DataStep(s, step);
    forall id { CountStep(s, step, id); }
    if !Apply(s, step).aborted { RingStep(s, step); }
  }

  /** A handle call that finds a message runs through to its dispatch. */
  lemma HandleUpToDispatch(s: State, bufs: seq<Buf>) returns (s': State)
    requires Inv(s, bufs) && !s.aborted && LockFree(s) && s.filled != [] && NotifiedCalls(s.calls) == 0
    requires Enabled(s, EnterHandle)
    ensures Exec(s, [EnterHandle, ReadPipe, Dequeue]) == Some(s') && Inv(s', bufs) && !s'.aborted
    ensures s'.calls == s.calls + [Dispatching(s.filled[0], MsgOf(s.bytes, s.filled[0]))]
    ensures s'.filled == s.filled[1..] && s'.reader == s.reader && s'.orphans == s.orphans && s'.bytes == s.bytes
    ensures NotifiedCalls(s'.calls) == 0
  {
    hide RingInv; hide DataInv; hide Payload; hide CountAll;
    var s1 := Apply(s, EnterHandle);
    var s2 := Apply(s1, ReadPipe);
    s' := Apply(s2, Dequeue);
    var msg := Dispatching(s.filled[0], MsgOf(s.bytes, s.filled[0]));
    assert s1.calls[..|s.calls|] == s.calls && s2.calls[..|s.calls|] == s.calls;
    NotifiedSnoc(s.calls, msg);
    ExecOne(s, EnterHandle); ExecOne(s1, ReadPipe); ExecOne(s2, Dequeue);
    ExecAppend(s, [EnterHandle], [ReadPipe]);
    ExecAppend(s, [EnterHandle, ReadPipe], [Dequeue]);
    assert [EnterHandle] + [ReadPipe] + [Dequeue] == [EnterHandle, ReadPipe, Dequeue];
    InvStep(s, bufs, EnterHandle); InvStep(s1, bufs, ReadPipe); InvStep(s2, bufs, Dequeue);
  }

  // ----- why the handlers must not call lcm_handle -----

  lemma {:induction false} DispatchInRing(calls: seq<Call>, k: nat)
    requires k < |calls| && calls[k].Dispatching? && calls[k].buf.mem.RingMem?
    ensures FromRing(CallBufs(calls)) != []
  {
    var front, last := calls[..|calls| - 1], calls[|calls| - 1];
    assert calls == front + [last];
    if k < |front| { DispatchInRing(front, k); }
    if last.Dispatching? { FromRingSnoc(CallBufs(front), last.buf); }
  }

  /** In every reachable state, a nested call that gives back a message from the ring,
      inside the dispatch of another one, runs into the assert of lcm_ringbuf_dealloc
      exactly when the ring holds anything newer: a queued message or the record of the
      read thread. */
  lemma NestedHandleAborts(size: nat, bytes: seq<byte>, bufs: seq<Buf>, steps: seq<Step>, junk: seq<byte>)
    requires |bytes| == size
    requires var r := Exec(Init(size, bytes, bufs), steps);
      && r.Some? && Enabled(r.value, Release(junk))
      && var calls := r.value.calls;
        calls[|calls| - 1].buf.mem.RingMem?
          && exists k :: 0 <= k < |calls| - 1 && calls[k].Dispatching? && calls[k].buf.mem.RingMem?
    ensures var s := Exec(Init(size, bytes, bufs), steps).value;
      var r := Exec(Init(size, bytes, bufs), steps + [Release(junk)]);
      r.Some? && (r.value.aborted <==> FromRing(Behind(s)) != [])
  {
    hide Exec; hide Apply; hide RingInv; hide DataInv; hide PipeInv; hide CountAll; hide CallBufs; hide FromRing;
    var s0 := Init(size, bytes, bufs);
    var s := Exec(s0, steps).value;
    EnabledMeansRunning(s, Release(junk));
    EveryRun(size, bytes, bufs, steps);
    AbortsExactly(s, Release(junk));
    ExecAppend(s0, steps, [Release(junk)]);
    ExecOne(s, Release(junk));
    var k :| 0 <= k < |s.calls| - 1 && s.calls[k].Dispatching? && s.calls[k].buf.mem.RingMem?;
    assert s.calls[..|s.calls| - 1][k] == s.calls[k];
    DispatchInRing(s.calls[..|s.calls| - 1], k);
  }

  /** Where the next record goes in a ring that has not wrapped. */
  function RingEnd(l: Layout): nat { if l.older == [] then 0 else Newest(l).End() }

  /** A datagram that is a complete short message. */
  predicate ShortReceive(r: Step, size: nat) {
    r.Receive? && r.outcome.Short? && r.outcome.dataOffset <= |r.packet| <= MAX_PACKET && |r.junk| == size
  }

  /** It comes in and is queued. */
  function Arrive(r: Step): seq<Step>
    requires r.Receive?
  {
    [TakeBuffer(r.junk), r, Shrink(r.junk), Notify, Enqueue]
  }

  /** Nobody is at work and there is room for a datagram. */
  ghost predicate Roomy(s: State, bufs: seq<Buf>) {
    && Inv(s, bufs) && !s.aborted && s.reader == AtSelect(None) && s.empty != [] && |s.bytes| == s.size
    && s.ring.newer == [] && RingEnd(s.ring) + BIG_RECORD <= s.size
  }

  /** The read thread waits with the newest record, in a ring that has not wrapped. */
  ghost predicate HoldsNewest(s: State) {
    && RingEnd(s.ring) <= s.size && s.reader.AtSelect? && s.reader.held.Some? && s.ring.newer == []
    && s.ring.older != [] && s.reader.held.value.mem == RingMem(Newest(s.ring)) && Newest(s.ring).len == BIG_RECORD
  }

  lemma TakeGives(s: State, junk: seq<byte>)
    requires s.reader == AtSelect(None) && s.empty != [] && !s.aborted && |junk| == |s.bytes| == s.size
    requires s.ring.newer == [] && RingEnd(s.ring) + BIG_RECORD <= s.size
    ensures var s' := Apply(s, TakeBuffer(junk));
      && HoldsNewest(s') && RingEnd(s'.ring) == RingEnd(s.ring) + BIG_RECORD && |s'.bytes| == s'.size == s.size
      && s'.empty == s.empty[1..] && s'.filled == s.filled && s'.calls == s.calls
  {
    assert RecordLength(REQUEST) == BIG_RECORD;
    hide TouchHeaders; hide RecordLength;
  }

  lemma TakesRecord(s: State, bufs: seq<Buf>, junk: seq<byte>) returns (s': State)
    requires Roomy(s, bufs) && |junk| == s.size
    ensures Exec(s, [TakeBuffer(junk)]) == Some(s') && Inv(s', bufs) && !s'.aborted && s'.size == s.size == |s'.bytes|
    ensures HoldsNewest(s') && RingEnd(s'.ring) == RingEnd(s.ring) + BIG_RECORD
    ensures s'.empty == s.empty[1..] && s'.filled == s.filled && s'.calls == s.calls
  {
    AbortsExactly(s, TakeBuffer(junk));
    ExecOne(s, TakeBuffer(junk));
    InvStep(s, bufs, TakeBuffer(junk));
    s' := Apply(s, TakeBuffer(junk));
    hide Inv; hide Exec;
    TakeGives(s, junk);
  }

  lemma AbortsExactlyInv(s: State, bufs: seq<Buf>, step: Step)
    requires Inv(s, bufs) && Enabled(s, step) && !step.Release?
    ensures !Apply(s, step).aborted
  {
    AbortsExactly(s, step);
  }

  lemma RunsShort(s: State, r: Step)
    requires HoldsNewest(s) && !s.aborted && |s.bytes| == s.size && ShortReceive(r, s.size)
    ensures Enabled(s, r)
    ensures var s1 := Apply(s, r);
      Enabled(s1, Shrink(r.junk)) && var s' := Apply(s1, Shrink(r.junk));
      && s'.reader.Ready? && s'.reader.buf.mem.RingMem? && |s'.bytes| == s'.size == s.size
      && s'.empty == s.empty && s'.calls == s.calls && s'.filled == s.filled
      && s'.ring.newer == [] && RingEnd(s'.ring) == RingEnd(s.ring) - BIG_RECORD + RecordLength(|r.packet|)
  {
    hide TouchHeaders; hide Splice; hide RecordLength;
    ShrinkFits(|r.packet|);
  }

  /** The held record receives the message and is shrunk to it. */
  lemma ReceivesShort(s: State, bufs: seq<Buf>, r: Step) returns (s': State)
    requires Inv(s, bufs) && !s.aborted && HoldsNewest(s) && |s.bytes| == s.size && ShortReceive(r, s.size)
    ensures Exec(s, [r, Shrink(r.junk)]) == Some(s') && Inv(s', bufs) && !s'.aborted
    ensures s'.reader.Ready? && s'.reader.buf.mem.RingMem? && |s'.bytes| == s'.size == s.size
    ensures s'.empty == s.empty && s'.calls == s.calls && s'.filled == s.filled
    ensures s'.ring.newer == [] && RingEnd(s'.ring) == RingEnd(s.ring) - BIG_RECORD + RecordLength(|r.packet|)
  {
    hide Inv; hide Exec; hide Apply; hide Enabled; hide RecordLength;
    var b := Shrink(r.junk);
    RunsShort(s, r);
    AbortsExactlyInv(s, bufs, r);
    InvStep(s, bufs, r);
    var s1 := Apply(s, r);
    AbortsExactlyInv(s1, bufs, b);
    InvStep(s1, bufs, b);
    s' := Apply(s1, b);
    ExecOne(s, r); ExecOne(s1, b);
    ExecAppend(s, [r], [b]);
    assert [r] + [b] == [r, b];
  }

  lemma Queues(s: State, bufs: seq<Buf>) returns (s': State)
    requires Inv(s, bufs) && !s.aborted && s.reader.Ready?
    ensures Exec(s, [Notify, Enqueue]) == Some(s') && Inv(s', bufs) && !s'.aborted
    ensures s'.reader == AtSelect(None) && s'.filled == s.filled + [s.reader.buf] && s'.bytes == s.bytes
      && s'.size == s.size
    ensures s'.empty == s.empty && s'.calls == s.calls && s'.ring == s.ring
  {
    InvStep(s, bufs, Notify);
    var s1 := Apply(s, Notify);
    InvStep(s1, bufs, Enqueue);
    s' := Apply(s1, Enqueue);
    ExecOne(s, Notify); ExecOne(s1, Enqueue);
    ExecAppend(s, [Notify], [Enqueue]);
    assert [Notify] + [Enqueue] == [Notify, Enqueue];
    hide Inv; hide Exec;
  }

  /** A short message comes in and is queued. */
  lemma Arrives(s: State, bufs: seq<Buf>, r: Step) returns (s': State)
    requires Roomy(s, bufs) && ShortReceive(r, s.size)
    ensures Exec(s, Arrive(r)) == Some(s') && Inv(s', bufs) && !s'.aborted && |s'.bytes| == s'.size == s.size
    ensures s'.reader == AtSelect(None) && s'.empty == s.empty[1..] && s'.calls == s.calls
    ensures |s'.filled| == |s.filled| + 1 && s'.filled[..|s.filled|] == s.filled && s'.filled[|s.filled|].mem.RingMem?
    ensures s'.ring.newer == [] && RingEnd(s'.ring) == RingEnd(s.ring) + RecordLength(|r.packet|)
  {
    hide Inv; hide Exec; hide RecordLength;
    var s1 := TakesRecord(s, bufs, r.junk);
    var s2 := ReceivesShort(s1, bufs, r);
    s' := Queues(s2, bufs);
    var a, b, c := [TakeBuffer(r.junk)], [r, Shrink(r.junk)], [Notify, Enqueue];
    ExecAppend(s, a, b);
    ExecAppend(s, a + b, c);
    assert a + b + c == Arrive(r);
  }

  function Handle(): seq<Step> { [EnterHandle, ReadPipe, Dequeue] }

  /** Three short messages are queued, and the handler of the first calls lcm_handle. */
  function NestedRun(r1: Step, r2: Step, r3: Step): seq<Step>
    requires r1.Receive? && r2.Receive? && r3.Receive?
  {
    Arrive(r1) + Arrive(r2) + Arrive(r3) + (Handle() + Handle() + [Release(r1.junk)])
  }

  lemma StartIsRoomy(size: nat, bytes: seq<byte>, bufs: seq<Buf>)
    requires |bytes| == size >= BIG_RECORD && bufs != []
    ensures Roomy(Init(size, bytes, bufs), bufs)
  {
    InitInv(size, bytes, bufs);
  }

  lemma ShortFacts(r: Step, size: nat)
    requires ShortReceive(r, size)
    ensures r.Receive? && |r.junk| == size
  {}

  lemma ThreeQueued(f1: seq<Buf>, f2: seq<Buf>, f3: seq<Buf>)
    requires |f1| == 1 && |f2| == 2 && |f3| == 3 && f2[..1] == f1 && f3[..2] == f2
    requires f1[0].mem.RingMem? && f2[1].mem.RingMem? && f3[2].mem.RingMem?
    ensures f3[0].mem.RingMem? && f3[1].mem.RingMem?
  {
    assert f3[0] == f2[0] == f1[0] && f3[1] == f2[1];
  }

  lemma NestedIsUnsafe(s: State)
    requires |s.calls| == 2 && s.calls[0].Dispatching? && s.calls[0].buf.mem.RingMem?
    requires s.calls[1].Dispatching? && s.calls[1].buf.mem.RingMem?
    requires |s.filled| == 1 && s.filled[0].mem.RingMem?
    ensures !ReleaseSafe(s)
  {
    var outer, rest := s.calls[..1], ReaderBufs(s.reader) + s.orphans;
    assert outer[0] == s.calls[0] && Behind(s) == s.filled + rest && s.filled == [s.filled[0]];
    hide CallBufs; hide FromRing; hide Behind; hide ReaderBufs;
    DispatchInRing(outer, 0);
    FromRingOne(s.filled[0]);
    FromRingConcat(s.filled, rest);
  }

  lemma NestedFrom(s: State, bufs: seq<Buf>, junk: seq<byte>)
    requires Inv(s, bufs) && !s.aborted && |junk| == |s.bytes| && s.calls == [] && s.reader == AtSelect(None)
    requires |s.filled| == 3 && s.filled[0].mem.RingMem? && s.filled[1].mem.RingMem? && s.filled[2].mem.RingMem?
    ensures var r := Exec(s, Handle() + Handle() + [Release(junk)]); r.Some? && r.value.aborted
  {
    hide DataInv; hide Payload; hide CountAll; hide RingInv; hide ReleaseSafe; hide Exec;
    var s3 := HandleUpToDispatch(s, bufs);
    var s6 := HandleUpToDispatch(s3, bufs);
    hide Apply;
    ExecAppend(s, Handle(), Handle());
    ExecOne(s6, Release(junk));
    ExecAppend(s, Handle() + Handle(), [Release(junk)]);
    AbortsExactly(s6, Release(junk));
    NestedIsUnsafe(s6);
  }

  /** From the start, with a ring that has room for a datagram behind two short messages,
      this run ends in the failed assert. */
  lemma NestedRunAborts(size: nat, bytes: seq<byte>, bufs: seq<Buf>, r1: Step, r2: Step, r3: Step)
    requires ShortReceive(r1, size) && ShortReceive(r2, size) && ShortReceive(r3, size) && |bufs| >= 3
    requires |bytes| == size >= BIG_RECORD + RecordLength(|r1.packet|) + RecordLength(|r2.packet|)
    ensures var r := Exec(Init(size, bytes, bufs), NestedRun(r1, r2, r3)); r.Some? && r.value.aborted
  {
    hide Exec; hide Apply; hide Enabled; hide Inv; hide RecordLength; hide Arrive; hide Handle; hide ShortReceive;
    ShortFacts(r1, size); ShortFacts(r2, size); ShortFacts(r3, size);
    StartIsRoomy(size, bytes, bufs);
    var s0 := Init(size, bytes, bufs);
    var s1 := Arrives(s0, bufs, r1);
    var s2 := Arrives(s1, bufs, r2);
    var s3 := Arrives(s2, bufs, r3);
    ThreeQueued(s1.filled, s2.filled, s3.filled);
    NestedFrom(s3, bufs, r1.junk);
    ExecAppend(s0, Arrive(r1), Arrive(r2));
    ExecAppend(s0, Arrive(r1) + Arrive(r2), Arrive(r3));
    ExecAppend(s0, Arrive(r1) + Arrive(r2) + Arrive(r3), Handle() + Handle() + [Release(r1.junk)]);
  }
}
