/** The receive pipeline does not stand still or drop more than it must: what each thread can
    do in every reachable state. */
module PipelineProgress {
  import opened Bytes
  import opened PipelineRuns
  import opened ReceivePipeline
  import opened RingLayout
  import opened Wrappers

  /** The next step of the read thread, when a datagram comes in or the lock is free. */
  predicate ReaderCanGo(s: State, packet: seq<byte>, outcome: Outcome, junk: seq<byte>) {
    match s.reader
    case AtSelect(None) => Enabled(s, TakeBuffer(junk))
    case AtSelect(Some(_)) => Enabled(s, Receive(packet, outcome, junk))
    case PuttingBack(_) => Enabled(s, PutBack)
    case Shrinking(_, _) => Enabled(s, Shrink(junk))
    case Ready(_) => Enabled(s, Notify)
    case Enqueuing(_) => Enabled(s, Enqueue)
    case Exited => true
  }

  /** The next step of the innermost lcm_handle, or of a new one. */
  predicate HandlerCanGo(s: State, junk: seq<byte>) {
    if s.calls == [] then Enabled(s, EnterHandle)
    else match s.calls[|s.calls| - 1]
      case Waiting => s.filled != [] ==> Enabled(s, ReadPipe)
      case Notified => s.filled != [] && Enabled(s, Dequeue)
      case Dispatching(_, _) => Enabled(s, Release(junk)) && Enabled(s, EnterHandle)
  }

  /** Activations outside the innermost one are inside a handler. */
  predicate OuterDispatch(calls: seq<Call>) { forall k :: 0 <= k < |calls| - 1 ==> calls[k].Dispatching? }

  lemma OuterStep(s: State, step: Step)
    requires Enabled(s, step) && OuterDispatch(s.calls)
    ensures OuterDispatch(Apply(s, step).calls)
  {
    hide ApplyTake; hide ApplyReceive; hide ApplyShrink; hide Payload; hide TouchHeaders;
  }

  lemma {:induction false} OuterRun(size: nat, bytes: seq<byte>, bufs: seq<Buf>, steps: seq<Step>)
    ensures var r := Exec(Init(size, bytes, bufs), steps); r.Some? ==> OuterDispatch(r.value.calls)
  {
    hide Apply; hide Enabled;
    if steps != [] {
      var last := |steps| - 1;
      OuterRun(size, bytes, bufs, steps[..last]);
      var r := Exec(Init(size, bytes, bufs), steps[..last]);
      if r.Some? && Enabled(r.value, steps[last]) { OuterStep(r.value, steps[last]); }
    }
  }

  lemma {:induction false} NoneNotified(calls: seq<Call>)
    requires forall k :: 0 <= k < |calls| ==> !calls[k].Notified?
    ensures NotifiedCalls(calls) == 0
  {
    if calls != [] { NoneNotified(calls[..|calls| - 1]); }
  }

  lemma NotifiedAtTop(calls: seq<Call>)
    requires OuterDispatch(calls)
    ensures NotifiedCalls(calls) == if calls != [] && calls[|calls| - 1].Notified? then 1 else 0
  {
    if calls != [] { NoneNotified(calls[..|calls| - 1]); }
  }

  lemma HandlerGoes(s: State, junk: seq<byte>)
    requires PipeInv(s) && OuterDispatch(s.calls) && !s.aborted && !s.reader.Enqueuing? && |junk| == |s.bytes|
    ensures HandlerCanGo(s, junk)
  {
    NotifiedAtTop(s.calls);
    hide NotifiedCalls;
  }

  lemma SizeStep(s: State, step: Step)
    requires Enabled(s, step)
    ensures Apply(s, step).size == s.size
  {
    hide Payload; hide TouchHeaders; hide Alloc; hide RecordLength; hide DeallocOldest; hide DeallocNewest;
  }

  lemma {:induction false} SameSize(size: nat, bytes: seq<byte>, bufs: seq<Buf>, steps: seq<Step>)
    ensures var r := Exec(Init(size, bytes, bufs), steps); r.Some? ==> r.value.size == size
  {
    hide Apply; hide Enabled;
    if steps != [] {
      var last := |steps| - 1;
      SameSize(size, bytes, bufs, steps[..last]);
      var r := Exec(Init(size, bytes, bufs), steps[..last]);
      if r.Some? && Enabled(r.value, steps[last]) { SizeStep(r.value, steps[last]); }
    }
  }

  /** In every reachable state the read thread can go on with any datagram, whatever comes
      of it, and outside its lock region so can the thread in lcm_handle, which waits for
      nothing while a message is queued. */
  lemma NeverStuck(size: nat, bytes: seq<byte>, bufs: seq<Buf>, steps: seq<Step>, packet: seq<byte>, outcome: Outcome,
                   junk: seq<byte>)
    requires |bytes| == size && |junk| == size && |packet| <= 65535
    requires outcome.Short? ==> outcome.dataOffset <= |packet|
    requires var r := Exec(Init(size, bytes, bufs), steps); r.Some? && !r.value.aborted
    ensures var s := Exec(Init(size, bytes, bufs), steps).value;
      ReaderCanGo(s, packet, outcome, junk) && (!s.reader.Enqueuing? ==> HandlerCanGo(s, junk))
  {
    hide Exec; hide PipeInv; hide NotifiedCalls; hide OuterDispatch; hide HandlerCanGo; hide FromRing; hide InUse;
    EveryRun(size, bytes, bufs, steps);
    OuterRun(size, bytes, bufs, steps);
    SameSize(size, bytes, bufs, steps);
    var s := Exec(Init(size, bytes, bufs), steps).value;
    if !s.reader.Enqueuing? { HandlerGoes(s, junk); }
  }

  /** Room for a whole datagram where the ring looks for it. */
  ghost predicate RoomFor(l: Layout, size: nat) {
    if l.older == [] then 65568 <= size
    else
      (Free(l, size, Chunk(Newest(l).End(), 65568)) || (Free(l, size, Chunk(0, 65568)) && l.older[0].off != 65568))
  }

  /** A datagram that finds the read thread without a buffer is thrown away exactly when no
      buffer structure is empty or the ring has no room for 65536 bytes and a header. */
  lemma DiscardsExactly(size: nat, bytes: seq<byte>, bufs: seq<Buf>, steps: seq<Step>, junk: seq<byte>)
    requires |bytes| == size && |junk| == size
    requires var r := Exec(Init(size, bytes, bufs), steps);
      r.Some? && !r.value.aborted && r.value.reader == AtSelect(None)
    ensures var s := Exec(Init(size, bytes, bufs), steps).value;
      && Enabled(s, TakeBuffer(junk)) && !Apply(s, TakeBuffer(junk)).aborted
      && ((exists b :: Apply(s, TakeBuffer(junk)).reader == AtSelect(Some(b)))
          <==> s.empty != [] && RoomFor(s.ring, size))
  {
    hide Exec; hide PipeInv; hide FromRing; hide InUse; hide TouchHeaders; hide Free;
    EveryRun(size, bytes, bufs, steps);
    SameSize(size, bytes, bufs, steps);
    var s := Exec(Init(size, bytes, bufs), steps).value;
    assert RecordLength(REQUEST) == BIG_RECORD;
    if s.ring.older != [] { AllocRefusesExactly(s.ring, size, BIG_RECORD); }
  }
}
