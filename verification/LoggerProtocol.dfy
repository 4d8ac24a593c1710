/** upstream/lcm-logger/lcm_logger.c: the message handler and the write thread share a
    queue, and a byte count under a mutex. One step is one lock region, one queue
    access, or one write to the log. */
module LoggerProtocol {
  import opened Bytes
  import opened EventLogFormat

  const EVENT_STRUCT := 40           // sizeof(lcm_eventlog_event_t)

  /** A message as the handler receives it. */
  datatype Msg = Msg(timestamp: int, channel: seq<byte>, data: seq<byte>)

  /** Queue elements: events, and the address pushed to wake the thread for exit. */
  datatype Item = Queued(msg: Msg) | ExitNote

  /** The thread running message_handler and, at the end, the exit code of main. */
  datatype Receiver = Idle | Reserved(msg: Msg) | ExitFlagged | Finished

  datatype Writer = Waiting | Popped(item: Item) | Writing(msg: Msg) | Written(msg: Msg) | Exited

  datatype State = State(
    max: int,                       // max_write_queue_size
    queueSize: int,                 // write_queue_size
    exitFlag: bool,
    queue: seq<Item>,
    receiver: Receiver,
    writer: Writer,
    file: seq<byte>,
    eventcount: nat, nevents: nat, logsize: nat, dropped: nat,
    received: nat,                  // messages the channel filter let through
    accepted: seq<Msg>,             // those not dropped, in order
    written: seq<Msg>,              // those in the log, in order
    discarded: seq<Msg>)            // popped by the exiting write thread

  datatype Step =
    | Arrive(msg: Msg, filtered: bool)
    | Push
    | SetExit
    | PushExit
    | Pop
    | Account
    | WriteEvent
    | Bookkeep

  function MemSize(m: Msg): nat { EVENT_STRUCT + |m.channel| + 1 + |m.data| }

  function LogEvent(m: Msg, n: nat): Event { Event(n, m.timestamp, m.channel, m.data) }

  /** The events lcm_eventlog_write_event makes of these messages. */
  function Numbered(ms: seq<Msg>): (r: seq<Event>)
    ensures |r| == |ms|
  {
    if ms == [] then [] else Numbered(ms[..|ms| - 1]) + [LogEvent(ms[|ms| - 1], |ms| - 1)]
  }

  predicate Enabled(s: State, st: Step) {
    match st
    case Arrive(_, _) => s.receiver == Idle
    case Push => s.receiver.Reserved?
    case SetExit => s.receiver == Idle
    case PushExit => s.receiver == ExitFlagged
    case Pop => s.writer == Waiting && s.queue != []
    case Account => s.writer.Popped?
    case WriteEvent => s.writer.Writing?
    case Bookkeep => s.writer.Written?
  }

  function MsgsOf(items: seq<Item>): seq<Msg> {
    if items == [] then []
    else
      var front := MsgsOf(items[..|items| - 1]);
      if items[|items| - 1].Queued? then front + [items[|items| - 1].msg] else front
  }

  function Apply(s: State, st: Step): State
    requires Enabled(s, st)
  {
    match st
    case Arrive(msg, filtered) =>
      if filtered then s
      else if MemSize(msg) + s.queueSize > s.max then s.(received := s.received + 1, dropped := s.dropped + 1)
      else s.(received := s.received + 1, queueSize := MemSize(msg) + s.queueSize, receiver := Reserved(msg),
        accepted := s.accepted + [msg])
    case Push => s.(queue := s.queue + [Queued(s.receiver.msg)], receiver := Idle)
    case SetExit => s.(exitFlag := true, receiver := ExitFlagged)
    case PushExit => s.(queue := s.queue + [ExitNote], receiver := Finished)
    case Pop => s.(queue := s.queue[1..], writer := Popped(s.queue[0]))
    case Account =>
      if s.exitFlag then s.(writer := Exited, discarded := MsgsOf([s.writer.item]))
      else if s.writer.item.ExitNote? then s
      else s.(queueSize := s.queueSize - MemSize(s.writer.item.msg), writer := Writing(s.writer.item.msg))
    case WriteEvent =>
      s.(file := s.file + Record(LogEvent(s.writer.msg, s.eventcount)), eventcount := s.eventcount + 1,
         written := s.written + [s.writer.msg], writer := Written(s.writer.msg))
    case Bookkeep =>
      s.(nevents := s.nevents + 1, logsize := s.logsize + EventLength(LogEvent(s.writer.msg, 0)), writer := Waiting)
  }

  /** One step leads from s to r. */
  predicate Next(s: State, st: Step, r: State) { Enabled(s, st) && r == Apply(s, st) }

  function Sum(ms: seq<Msg>): nat {
    if ms == [] then 0 else Sum(ms[..|ms| - 1]) + MemSize(ms[|ms| - 1])
  }

  // ----- who holds which message -----

  /** Popped but not yet accounted for, or thrown away on exit. */
  function Unaccounted(w: Writer): seq<Msg> { if w.Popped? then MsgsOf([w.item]) else [] }

  function InHand(w: Writer): seq<Msg> { if w.Writing? then [w.msg] else [] }

  function InReserve(r: Receiver): seq<Msg> { if r.Reserved? then [r.msg] else [] }

  /** Memory counted in write_queue_size. */
  function Held(s: State): seq<Msg> { s.discarded + Unaccounted(s.writer) + MsgsOf(s.queue) + InReserve(s.receiver) }

  /** Every accepted message is in the log, with the write thread, or queued, in the
      order of acceptance. */
  predicate Ordered(s: State) { s.accepted == s.written + InHand(s.writer) + Held(s) }

  /** write_queue_size counts what is reserved, queued or popped. */
  predicate Counted(s: State) { s.queueSize == Sum(Held(s)) && (s.max >= 0 ==> s.queueSize <= s.max) }

  predicate LogRight(s: State) {
    && s.file == LogBytes(Numbered(s.written)) && s.eventcount == |s.written|
    && |s.file| == s.logsize + (if s.writer.Written? then EventLength(LogEvent(s.writer.msg, 0)) else 0)
    && s.eventcount == s.nevents + (if s.writer.Written? then 1 else 0)
  }

  /** The exit note comes after the flag and is pushed last. */
  predicate ExitRight(s: State) {
    && (s.exitFlag <==> s.receiver == ExitFlagged || s.receiver == Finished)
    && (s.receiver != Finished ==> forall i :: 0 <= i < |s.queue| ==> s.queue[i].Queued?)
    && (s.writer.Popped? && s.writer.item.ExitNote? ==> s.exitFlag)
    && (s.writer == Exited ==> s.exitFlag)
    && (s.discarded != [] ==> s.writer == Exited)
  }

  predicate Inv(s: State) {
    Ordered(s) && Counted(s) && LogRight(s) && ExitRight(s) && s.received == |s.accepted| + s.dropped
  }

  // ----- every step keeps the invariant -----

  lemma {:induction false} MsgsOfAppend(a: seq<Item>, b: seq<Item>)
    ensures MsgsOf(a + b) == MsgsOf(a) + MsgsOf(b)
    decreases |b|
  {
    if b == [] {
      assert a + b == a;
    } else {
      MsgsOfAppend(a, b[..|b| - 1]);
      assert (a + b)[..|a + b| - 1] == a + b[..|b| - 1];
    }
  }

  lemma {:induction false} SumAppend(a: seq<Msg>, b: seq<Msg>)
    ensures Sum(a + b) == Sum(a) + Sum(b)
    decreases |b|
  {
    if b == [] {
      assert a + b == a;
    } else {
      SumAppend(a, b[..|b| - 1]);
      assert (a + b)[..|a + b| - 1] == a + b[..|b| - 1];
    }
  }

  lemma SumOne(m: Msg)
    ensures Sum([m]) == MemSize(m)
  {
    assert [m][..0] == [];
  }

  lemma OneItem(i: Item)
    ensures MsgsOf([i]) == if i.Queued? then [i.msg] else []
  {
    assert [i][..0] == [];
  }

  lemma NumberedSnoc(ms: seq<Msg>, m: Msg)
    ensures Numbered(ms + [m]) == Numbered(ms) + [LogEvent(m, |ms|)]
  {
    assert (ms + [m])[..|ms|] == ms;
  }

  lemma QueueGrows(q: seq<Item>, i: Item)
    ensures MsgsOf(q + [i]) == if i.Queued? then MsgsOf(q) + [i.msg] else MsgsOf(q)
  {
    MsgsOfAppend(q, [i]);
    OneItem(i);
  }

  lemma Append(a: seq<Msg>, b: seq<Msg>, c: seq<Msg>)
    ensures a + (b + c) == a + b + c
  {}

  lemma HeldPush(s: State)
    requires Enabled(s, Push)
    ensures Held(Apply(s, Push)) == Held(s)
  {
    hide MsgsOf;
    QueueGrows(s.queue, Queued(s.receiver.msg));
    Append(s.discarded + Unaccounted(s.writer), MsgsOf(s.queue), [s.receiver.msg]);
  }

  lemma HeldPushExit(s: State)
    requires Enabled(s, PushExit)
    ensures Held(Apply(s, PushExit)) == Held(s)
  {
    hide MsgsOf;
    QueueGrows(s.queue, ExitNote);
  }

  lemma QueueShrinks(q: seq<Item>)
    requires q != []
    ensures MsgsOf(q) == MsgsOf([q[0]]) + MsgsOf(q[1..])
  {
    MsgsOfAppend([q[0]], q[1..]);
    assert q == [q[0]] + q[1..];
  }

  lemma HeldPop(s: State)
    requires Enabled(s, Pop)
    ensures Held(Apply(s, Pop)) == Held(s)
  {
    hide MsgsOf;
    QueueShrinks(s.queue);
    Append(s.discarded, MsgsOf([s.queue[0]]), MsgsOf(s.queue[1..]));
  }

  lemma HeldAccount(s: State)
    requires Enabled(s, Account) && ExitRight(s)
    ensures s.exitFlag ==> Held(Apply(s, Account)) == Held(s)
    ensures !s.exitFlag ==> s.writer.item.Queued? && Held(s) == [s.writer.item.msg] + Held(Apply(s, Account))
  {
    hide MsgsOf; hide MemSize;
    OneItem(s.writer.item);
    var w, q := MsgsOf([s.writer.item]), MsgsOf(s.queue);
    assert s.discarded == [];
    assert [] + w + q + InReserve(s.receiver) == w + ([] + [] + q + InReserve(s.receiver));
  }

  /** Where the held messages are after each step. */
  lemma HeldAfter(s: State, st: Step)
    requires Enabled(s, st) && ExitRight(s)
    ensures st.Arrive? && Apply(s, st).receiver.Reserved? ==> Held(Apply(s, st)) == Held(s) + [st.msg]
    ensures st.Arrive? && !Apply(s, st).receiver.Reserved? ==> Held(Apply(s, st)) == Held(s)
    ensures !st.Arrive? && !st.Account? ==> Held(Apply(s, st)) == Held(s)
    ensures st == Account && s.exitFlag ==> Held(Apply(s, st)) == Held(s)
    ensures st == Account && !s.exitFlag ==>
      s.writer.item.Queued? && Held(s) == [s.writer.item.msg] + Held(Apply(s, st))
  {
    hide LogBytes; hide Sum; hide MemSize; hide Record; hide EventLength; hide MsgsOf; hide Numbered; hide LogEvent;
    match st
    case Push => HeldPush(s);
    case PushExit => HeldPushExit(s);
    case Pop => HeldPop(s);
    case Account => HeldAccount(s);
    case _ =>
  }

  lemma ExitRightKept(s: State, st: Step)
    requires ExitRight(s) && Enabled(s, st)
    ensures ExitRight(Apply(s, st))
  {
    hide Record; hide EventLength; hide MemSize; hide LogEvent;
    if st == Pop { assert s.queue[0] in s.queue; }
  }

  lemma CountedKept(s: State, st: Step)
    requires Enabled(s, st) && ExitRight(s) && Counted(s)
    ensures Counted(Apply(s, st))
  {
    HeldAfter(s, st);
    if st.Arrive? {
      SumAppend(Held(s), [st.msg]);
      SumOne(st.msg);
    } else if st == Account && !s.exitFlag {
      SumAppend([s.writer.item.msg], Held(Apply(s, st)));
      SumOne(s.writer.item.msg);
    }
    hide Held; hide ExitRight; hide Sum; hide Record; hide EventLength; hide MemSize; hide MsgsOf;
  }

  lemma OrderedKept(s: State, st: Step)
    requires Enabled(s, st) && ExitRight(s) && Ordered(s)
    ensures Ordered(Apply(s, st))
  {
    HeldAfter(s, st);
    hide Held; hide ExitRight; hide Sum; hide Record; hide EventLength; hide MemSize; hide MsgsOf;
    var h := Held(s);
    match st
    case Arrive(m, _) => Append(s.written + InHand(s.writer), h, [m]);
    case Account =>
      if !s.exitFlag {
        Append(s.written, [s.writer.item.msg], Held(Apply(s, st)));
        assert s.written + InHand(s.writer) == s.written;
      }
    case WriteEvent => assert s.written + [s.writer.msg] + [] == s.written + [s.writer.msg];
    case _ =>
  }

  lemma LogGrows(ms: seq<Msg>, m: Msg)
    ensures LogBytes(Numbered(ms + [m])) == LogBytes(Numbered(ms)) + Record(LogEvent(m, |ms|))
    ensures |Record(LogEvent(m, |ms|))| == EventLength(LogEvent(m, 0))
  {
    NumberedSnoc(ms, m);
    LogBytesSnoc(Numbered(ms), LogEvent(m, |ms|));
    hide LogBytes; hide Numbered; hide Record;
  }

  lemma LogRightKept(s: State, st: Step)
    requires Enabled(s, st) && LogRight(s)
    ensures LogRight(Apply(s, st))
  {
    hide LogBytes; hide Numbered; hide Record; hide EventLength; hide MemSize; hide MsgsOf; hide LogEvent;
    if st == WriteEvent { LogGrows(s.written, s.writer.msg); }
  }

  lemma ReceivedKept(s: State, st: Step)
    requires Enabled(s, st) && s.received == |s.accepted| + s.dropped
    ensures var s' := Apply(s, st); s'.received == |s'.accepted| + s'.dropped
  {
    hide Record; hide EventLength; hide MemSize; hide MsgsOf;
  }

  lemma StepKeeps(s: State, st: Step)
    requires Inv(s) && Enabled(s, st)
    ensures Inv(Apply(s, st))
  {
    ReceivedKept(s, st);
    hide Ordered; hide Counted; hide LogRight; hide ExitRight; hide Enabled; hide Apply;
    OrderedKept(s, st);
    CountedKept(s, st);
    LogRightKept(s, st);
    ExitRightKept(s, st);
  }

  // ----- whole runs -----

  function Init(max: int): State {
    State(max, 0, false, [], Idle, Waiting, [], 0, 0, 0, 0, 0, [], [], [])
  }

  predicate Valid(s: State, steps: seq<Step>)
    decreases |steps|
  {
    steps == [] || (Enabled(s, steps[0]) && Valid(Apply(s, steps[0]), steps[1..]))
  }

  function Exec(s: State, steps: seq<Step>): State
    requires Valid(s, steps)
    decreases |steps|
  {
    if steps == [] then s else Exec(Apply(s, steps[0]), steps[1..])
  }

  lemma MaxStays(s: State, st: Step)
    requires Enabled(s, st)
    ensures Apply(s, st).max == s.max
  {}

  lemma {:induction false} RunKeeps(s: State, steps: seq<Step>)
    requires Inv(s) && Valid(s, steps)
    ensures Inv(Exec(s, steps)) && Exec(s, steps).max == s.max
    decreases |steps|
  {
    hide Inv;
    if steps != [] {
      StepKeeps(s, steps[0]);
      MaxStays(s, steps[0]);
      hide Apply;
      RunKeeps(Apply(s, steps[0]), steps[1..]);
    }
  }

  lemma InitInv(max: nat)
    ensures Inv(Init(max)) && Init(max).max == max
  {}

  lemma InvMeans(s: State)
    requires Inv(s) && s.max >= 0
    ensures s.queueSize == Sum(Held(s)) <= s.max && |s.accepted| + s.dropped == s.received
    ensures s.written <= s.accepted && s.file == LogBytes(Numbered(s.written))
    ensures !s.writer.Written? ==> s.logsize == |s.file| && s.nevents == |s.written|
  {
    hide LogBytes; hide Numbered; hide Sum; hide EventLength; hide Held;
    assert s.accepted == s.written + (InHand(s.writer) + Held(s));
  }

  /** In every interleaving: the bytes counted are those held and never more than the
      maximum, no received message is lost from the counts, and the log file holds a
      prefix of the accepted messages, numbered from 0. */
  lemma EveryRun(max: nat, steps: seq<Step>)
    requires Valid(Init(max), steps)
    ensures var s := Exec(Init(max), steps);
      && s.queueSize == Sum(Held(s)) <= max
      && |s.accepted| + s.dropped == s.received
      && s.written <= s.accepted && s.file == LogBytes(Numbered(s.written))
      && (!s.writer.Written? ==> s.logsize == |s.file| && s.nevents == |s.written|)
  {
    InitInv(max);
    hide *;
    RunKeeps(Init(max), steps);
    InvMeans(Exec(Init(max), steps));
  }

  /** When a message comes in, at any moment of any run: one that the channel filter takes
      out changes nothing, one that fits beside the memory held is accepted, and any other
      is dropped and counted. */
  lemma AcceptedExactly(max: nat, steps: seq<Step>, m: Msg, filtered: bool)
    requires Valid(Init(max), steps) && Enabled(Exec(Init(max), steps), Arrive(m, filtered))
    ensures var s := Exec(Init(max), steps);
      var r := Apply(s, Arrive(m, filtered));
      if filtered then r == s
      else if 40 + |m.channel| + 1 + |m.data| + Sum(Held(s)) <= max then
        r.accepted == s.accepted + [m] && r.dropped == s.dropped && r.receiver == Reserved(m)
      else r.accepted == s.accepted && r.dropped == s.dropped + 1 && r.receiver == Idle
  {
    InitInv(max);
    hide Inv; hide Valid; hide Exec; hide Held; hide Sum; hide Init;
    RunKeeps(Init(max), steps);
    InvMeans(Exec(Init(max), steps));
  }

  /** What can be written and read again. */
  predicate Storable(m: Msg) { Fits(m.timestamp, 8) && |m.channel| < 1000 && |m.data| < 0x8000_0000 }

  lemma {:induction false} NumberedAt(ms: seq<Msg>, i: nat)
    requires i < |ms|
    ensures Numbered(ms)[i] == LogEvent(ms[i], i)
  {
    if i < |ms| - 1 { NumberedAt(ms[..|ms| - 1], i); }
  }

  /** The log can be read back at any moment: it gives the first of the accepted
      messages, in order. */
  lemma LogReadsBack(max: nat, steps: seq<Step>)
    requires Valid(Init(max), steps)
    requires var s := Exec(Init(max), steps);
      |s.accepted| <= 0x8000_0000 && forall i :: 0 <= i < |s.accepted| ==> Storable(s.accepted[i])
    ensures var s := Exec(Init(max), steps);
      && s.written <= s.accepted && |ReadAll(s.file, 0)| == |s.written|
      && forall i :: 0 <= i < |s.written| ==>
        var m := s.accepted[i]; ReadAll(s.file, 0)[i] == Event(i, m.timestamp, m.channel, m.data)
  {
    EveryRun(max, steps);
    var s := Exec(Init(max), steps);
    hide Exec; hide LogBytes; hide Sum; hide Valid; hide Held; hide ReadAll;
    forall i | 0 <= i < |s.written| ensures WellFormed(Numbered(s.written)[i]) {
      NumberedAt(s.written, i);
      assert s.written[i] == s.accepted[i];
      Pow256Values();
    }
    WrittenLogReadsBack(Numbered(s.written));
    forall i | 0 <= i < |s.written| ensures Numbered(s.written)[i] == LogEvent(s.accepted[i], i) {
      NumberedAt(s.written, i);
      assert s.written[i] == s.accepted[i];
    }
  }

  /** Nothing is on its way to the log. */
  predicate AtRest(s: State) { s.receiver == Idle && s.queue == [] && s.writer == Waiting }

  /** Whenever both threads are at rest, every accepted message is in the log and no memory
      is counted. */
  lemma AllWritten(max: nat, steps: seq<Step>)
    requires Valid(Init(max), steps) && AtRest(Exec(Init(max), steps))
    ensures var s := Exec(Init(max), steps); s.written == s.accepted && s.queueSize == 0 && s.nevents == |s.accepted|
  {
    InitInv(max);
    hide Init; hide Exec; hide Valid; hide LogBytes; hide Numbered;
    RunKeeps(Init(max), steps);
    var s := Exec(Init(max), steps);
    assert s.written + [] + ([] + [] + [] + []) == s.written;
  }
}
