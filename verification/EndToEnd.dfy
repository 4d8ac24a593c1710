/** From lcm_publish to the handlers: the receive pipeline of ReceivePipeline with the
    datagrams recognised by FragmentTable and FragmentRepeats. */
module EndToEnd {
  import opened Bytes
  import opened FragmentDelivery
  import opened FragmentRepeats
  import opened FragmentSender
  import opened FragmentTable
  import opened PipelineData
  import opened PipelineRuns
  import opened ReceivePipeline
  import opened RingLayout
  import opened Wrappers

  const SHORT_HEADER := 8      // sizeof (lcm2_header_short_t)
  const LONG_HEADER := 20      // sizeof (lcm2_header_long_t)

  /** A datagram: a packet behind its header bytes, with what the receiver adds to it, as
      in FragmentTable.Event; or anything without one of the two magic numbers. */
  datatype Datagram =
    | Lcm(from: Addr, header: seq<byte>, packet: Packet, now: int, utime: int,
          malloced: seq<byte>, victims: seq<Addr>, subscribed: bool)
    | Noise(bytes: seq<byte>)

  /** A message as it is given to the handlers. */
  datatype Given = Given(from: Addr, channel: seq<byte>, data: seq<byte>)

  function EventOf(d: Datagram): Event
    requires d.Lcm? && d.packet.Long?
  {
    Event(d.from, d.packet.fragment, d.now, d.utime, d.malloced, d.victims, d.subscribed)
  }

  function BytesOf(d: Datagram): seq<byte> {
    match d
    case Noise(bytes) => bytes
    case Lcm(_, header, Short(_, payload), _, _, _, _, _) => header + payload
    case Lcm(_, header, Long(fragment), _, _, _, _, _) => header + fragment.payload
  }

  predicate Recognisable(t: Table, d: Datagram) {
    d.Lcm? ==>
      if d.packet.Short? then |d.header| == SHORT_HEADER && 0 in d.packet.payload
      else |d.header| == LONG_HEADER && FragmentTable.Enabled(t, EventOf(d))
  }

  function TableWith(t: Table, d: Datagram): Table
    requires Recognisable(t, d)
  {
    if d.Lcm? && d.packet.Long? then FragmentTable.Receive(t, EventOf(d)).0 else t
  }

  /** The message a datagram completes, if any. */
  function Recognised(t: Table, d: Datagram): Option<Given>
    requires Recognisable(t, d)
  {
    if d.Noise? then None
    else if d.packet.Short? then
      match ReceiveShort(d.packet.payload, d.subscribed)
      case None => None
      case Some((channel, data)) => Some(Given(d.from, channel, data))
    else
      match FragmentTable.Receive(t, EventOf(d)).1
      case None => None
      case Some(v) => Some(Given(v.from, v.channel, v.data))
  }

  /** What the read thread makes of it. */
  function OutcomeOf(t: Table, d: Datagram): Outcome
    requires Recognisable(t, d)
  {
    match Recognised(t, d)
    case None => Ignored
    case Some(r) =>
      if d.packet.Short? then Outcome.Short(r.channel, SHORT_HEADER + |r.channel| + 1)
      else Reassembled(r.channel, r.data)
  }

  // ----- the receiving process -----

  datatype Node = Node(pipe: State, table: Table, log: seq<Given>)

  /** A datagram for the read thread, or another step of either thread. */
  datatype Action = Arrives(d: Datagram, junk: seq<byte>) | Other(step: Step)

  predicate Possible(n: Node, act: Action) {
    match act
    case Arrives(d, junk) =>
      Recognisable(n.table, d) && ReceivePipeline.Enabled(n.pipe, Step.Receive(BytesOf(d), OutcomeOf(n.table, d), junk))
    case Other(step) => !step.Receive? && ReceivePipeline.Enabled(n.pipe, step)
  }

  function Just(r: Option<Given>): seq<Given> { if r.Some? then [r.value] else [] }

  function Perform(n: Node, act: Action): Node
    requires Possible(n, act)
  {
    match act
    case Arrives(d, junk) =>
      Node(Apply(n.pipe, Step.Receive(BytesOf(d), OutcomeOf(n.table, d), junk)), TableWith(n.table, d),
           n.log + Just(Recognised(n.table, d)))
    case Other(step) => n.(pipe := Apply(n.pipe, step))
  }

  function Run(n: Node, acts: seq<Action>): Option<Node>
    decreases |acts|
  {
    if acts == [] then Some(n)
    else if Possible(n, acts[0]) then Run(Perform(n, acts[0]), acts[1..])
    else None
  }

  function Start(size: nat, bytes: seq<byte>, bufs: seq<Buf>): Node { Node(Init(size, bytes, bufs), EMPTY, []) }

  function Datagrams(acts: seq<Action>): seq<Datagram> {
    if acts == [] then []
    else if acts[0].Arrives? then [acts[0].d] + Datagrams(acts[1..])
    else Datagrams(acts[1..])
  }

  /** What the handlers see of it. */
  function Seen(r: Given): Msg { Msg(r.channel, r.data) }

  function AllSeen(log: seq<Given>): seq<Msg> {
    seq(|log|, i requires 0 <= i < |log| => Seen(log[i]))
  }

  predicate AllRecognisable(t: Table, ds: seq<Datagram>)
    decreases |ds|
  {
    ds == [] || (Recognisable(t, ds[0]) && AllRecognisable(TableWith(t, ds[0]), ds[1..]))
  }

  /** The messages that a sequence of datagrams brings. */
  function Messages(t: Table, ds: seq<Datagram>): seq<Given>
    requires AllRecognisable(t, ds)
    decreases |ds|
  {
    if ds == [] then [] else Just(Recognised(t, ds[0])) + Messages(TableWith(t, ds[0]), ds[1..])
  }

  /** The pipeline has accepted what was recognised. */
  ghost predicate Tracks(n: Node, bufs: seq<Buf>) {
    !n.pipe.aborted ==> Inv(n.pipe, bufs) && n.pipe.accepted == AllSeen(n.log)
  }

  /** The bytes behind header, channel and NUL are the data. */
  lemma ShortData(t: Table, d: Datagram)
    requires Recognisable(t, d) && d.Lcm? && d.packet.Short? && Recognised(t, d).Some?
    ensures var off := SHORT_HEADER + |Recognised(t, d).value.channel| + 1;
      off <= |BytesOf(d)| && BytesOf(d)[off..] == Recognised(t, d).value.data
  {
    var n := Strlen(d.packet.payload);
    assert BytesOf(d)[SHORT_HEADER..] == d.packet.payload;
    assert BytesOf(d)[SHORT_HEADER + n + 1..] == d.packet.payload[n + 1..];
  }

  lemma SeenSnoc(log: seq<Given>, r: Given)
    ensures AllSeen(log + [r]) == AllSeen(log) + [Seen(r)]
  {}

  function NewlyAccepted(packet: seq<byte>, outcome: Outcome): seq<Msg> {
    match outcome
    case Ignored => []
    case Short(channel, off) => if off <= |packet| then [Msg(channel, packet[off..])] else []
    case Reassembled(channel, data) => [Msg(channel, data)]
  }

  lemma AcceptedGrows(s: State, packet: seq<byte>, outcome: Outcome, junk: seq<byte>)
    requires ReceivePipeline.Enabled(s, Step.Receive(packet, outcome, junk))
    ensures var s' := Apply(s, Step.Receive(packet, outcome, junk));
      !s'.aborted ==> s'.accepted == s.accepted + NewlyAccepted(packet, outcome)
  {
    hide Dealloc;
  }

  lemma AcceptedStays(s: State, step: Step)
    requires ReceivePipeline.Enabled(s, step) && !step.Receive?
    ensures Apply(s, step).accepted == s.accepted
  {
    hide Dealloc; hide TouchHeaders; hide Payload;
  }

  lemma OutcomeData(t: Table, d: Datagram)
    requires Recognisable(t, d)
    ensures NewlyAccepted(BytesOf(d), OutcomeOf(t, d)) ==
      if Recognised(t, d).Some? then [Seen(Recognised(t, d).value)] else []
  {
    if Recognised(t, d).Some? && d.packet.Short? { ShortData(t, d); }
  }

  lemma StepTracks(n: Node, act: Action, bufs: seq<Buf>)
    requires Possible(n, act) && Tracks(n, bufs)
    ensures Tracks(Perform(n, act), bufs)
  {
    hide ReceivePipeline.Enabled; hide Apply; hide Inv; hide Recognisable; hide Recognised; hide TableWith;
    hide AllSeen; hide Seen; hide BytesOf;
    match act
    case Other(step) =>
      EnabledMeansRunning(n.pipe, step);
      AcceptedStays(n.pipe, step);
      InvStep(n.pipe, bufs, step);
    case Arrives(d, junk) =>
      var step := Step.Receive(BytesOf(d), OutcomeOf(n.table, d), junk);
      EnabledMeansRunning(n.pipe, step);
      AcceptedGrows(n.pipe, BytesOf(d), OutcomeOf(n.table, d), junk);
      InvStep(n.pipe, bufs, step);
      OutcomeData(n.table, d);
      if Recognised(n.table, d).Some? {
        SeenSnoc(n.log, Recognised(n.table, d).value);
      } else {
        assert n.log + [] == n.log;
      }
  }

  lemma RunStep(n: Node, acts: seq<Action>)
    requires acts != [] && Run(n, acts).Some?
    ensures Possible(n, acts[0]) && Run(n, acts) == Run(Perform(n, acts[0]), acts[1..])
  {}

  lemma MessagesStep(n: Node, acts: seq<Action>)
    requires acts != [] && Possible(n, acts[0])
    ensures var n' := Perform(n, acts[0]);
      AllRecognisable(n'.table, Datagrams(acts[1..])) ==>
        && AllRecognisable(n.table, Datagrams(acts))
        && n'.log + Messages(n'.table, Datagrams(acts[1..])) == n.log + Messages(n.table, Datagrams(acts))
  {
    hide ReceivePipeline.Enabled; hide Apply; hide Recognisable; hide Recognised; hide TableWith;
    if acts[0].Arrives? { assert Datagrams(acts)[1..] == Datagrams(acts[1..]); }
  }

  lemma {:induction false} RunTracks(n: Node, acts: seq<Action>, bufs: seq<Buf>)
    requires Run(n, acts).Some? && Tracks(n, bufs)
    ensures Tracks(Run(n, acts).value, bufs) && AllRecognisable(n.table, Datagrams(acts))
    ensures Run(n, acts).value.log == n.log + Messages(n.table, Datagrams(acts))
    decreases |acts|
  {
    if acts != [] {
      var n' := Perform(n, acts[0]);
      StepTracks(n, acts[0], bufs);
      hide *;
      RunStep(n, acts);
      RunTracks(n', acts[1..], bufs);
      MessagesStep(n, acts);
    }
  }

  /** Over any run the handlers have been given, byte for byte and in order, the first of
      the messages that the datagrams brought; the others are waiting. */
  lemma HandlersGetMessages(size: nat, bytes: seq<byte>, bufs: seq<Buf>, acts: seq<Action>)
    requires |bytes| == size && Run(Start(size, bytes, bufs), acts).Some?
    requires !Run(Start(size, bytes, bufs), acts).value.pipe.aborted
    ensures AllRecognisable(EMPTY, Datagrams(acts))
    ensures var s := Run(Start(size, bytes, bufs), acts).value.pipe;
      AllSeen(Messages(EMPTY, Datagrams(acts))) == s.delivered + Msgs(s.bytes, Pending(s))
  {
    InitInv(size, bytes, bufs);
    hide Run;
    RunTracks(Start(size, bytes, bufs), acts, bufs);
    assert [] + Messages(EMPTY, Datagrams(acts)) == Messages(EMPTY, Datagrams(acts));
  }

  // ----- one sender -----

  /** A message and the order in which its packets arrive. */
  datatype Sent = Sent(m: Message, order: seq<nat>)

  /** What lcm_publish sends for the message, fragment 0 first and each packet once. */
  predicate Published(s: Sent) {
    Sendable(s.m) && PacketsOf(s.m) != [] &&
    if PacketsOf(s.m)[0].Short? then s.order == [0] else InOrder(s.m, s.order)
  }

  lemma FragmentPackets(m: Message)
    requires Sendable(m) && PacketsOf(m) != []
    ensures if PacketsOf(m)[0].Short? then PacketsOf(m) == [Packet.Short(m.seqno, Wire(m))]
      else Fragmented(m) && |PacketsOf(m)| == Fragments(m) &&
           forall i :: 0 <= i < Fragments(m) ==> PacketsOf(m)[i] == Long(FragmentOf(m, i))
  {}

  function FragmentsIn(m: Message, order: seq<nat>): (r: seq<Packet>)
    requires NumbersOf(m, order)
    ensures |r| == |order|
  {
    seq(|order|, k requires 0 <= k < |order| => Long(FragmentOf(m, order[k])))
  }

  function Packets(s: Sent): (r: seq<Packet>)
    requires Published(s)
    ensures r != []
  {
    FragmentPackets(s.m);
    if PacketsOf(s.m)[0].Short? then PacketsOf(s.m) else FragmentsIn(s.m, s.order)
  }

  function Stream(sent: seq<Sent>): seq<Packet>
    requires forall s :: s in sent ==> Published(s)
  {
    if sent == [] then [] else Packets(sent[0]) + Stream(sent[1..])
  }

  predicate IsFrom(d: Datagram, a: Addr) { d.Lcm? && d.from == a }

  function PacketsFrom(ds: seq<Datagram>, a: Addr): seq<Packet> {
    if ds == [] then []
    else if IsFrom(ds[0], a) then [ds[0].packet] + PacketsFrom(ds[1..], a)
    else PacketsFrom(ds[1..], a)
  }

  /** a's channels have handlers, and nobody's datagram evicts a's buffer. */
  predicate Undisturbed(ds: seq<Datagram>, a: Addr) {
    forall i :: 0 <= i < |ds| && ds[i].Lcm? ==> if ds[i].from == a then ds[i].subscribed else a !in ds[i].victims
  }

  function GivenFrom(log: seq<Given>, a: Addr): seq<Given> {
    if log == [] then []
    else if log[0].from == a then [log[0]] + GivenFrom(log[1..], a)
    else GivenFrom(log[1..], a)
  }

  function AsSent(a: Addr, sent: seq<Sent>): seq<Given> {
    seq(|sent|, i requires 0 <= i < |sent| => Given(a, sent[i].m.channel, sent[i].m.data))
  }

  lemma NextDatagram(t: Table, ds: seq<Datagram>, a: Addr)
    requires AllRecognisable(t, ds) && ds != [] && Undisturbed(ds, a)
    ensures Recognisable(t, ds[0]) && AllRecognisable(TableWith(t, ds[0]), ds[1..]) && Undisturbed(ds[1..], a)
    ensures GivenFrom(Messages(t, ds), a) ==
      var r, rest := Recognised(t, ds[0]), GivenFrom(Messages(TableWith(t, ds[0]), ds[1..]), a);
      if r.Some? && r.value.from == a then [r.value] + rest else rest
  {
    hide Recognisable; hide Recognised; hide TableWith;
    var r, rest := Recognised(t, ds[0]), Messages(TableWith(t, ds[0]), ds[1..]);
    if r.Some? { assert ([r.value] + rest)[1..] == rest; } else { assert [] + rest == rest; }
  }

  lemma OthersDatagram(t: Table, d: Datagram, a: Addr)
    requires Recognisable(t, d) && !IsFrom(d, a) && (d.Lcm? ==> a !in d.victims)
    ensures var t' := TableWith(t, d); (a in t'.bufs <==> a in t.bufs) && (a in t.bufs ==> t'.bufs[a] == t.bufs[a])
    ensures Recognised(t, d).Some? ==> Recognised(t, d).value.from != a
  {
    if d.Lcm? && d.packet.Long? { OthersSpare(t, EventOf(d), a); }
  }

  lemma OwnShort(t: Table, d: Datagram, a: Addr, m: Message)
    requires Recognisable(t, d) && IsFrom(d, a) && d.subscribed && Sendable(m)
      && d.packet == Packet.Short(m.seqno, Wire(m))
    ensures TableWith(t, d) == t && Recognised(t, d) == Some(Given(a, m.channel, m.data))
  {
    ShortRoundTrip(m);
  }

  lemma OwnFirst(t: Table, d: Datagram, a: Addr, m: Message)
    requires Recognisable(t, d) && IsFrom(d, a) && d.subscribed && Fragmented(m) && 0 < Fragments(m)
    requires d.packet == Long(FragmentOf(m, 0)) && a !in t.bufs
    ensures var t', r := TableWith(t, d), Recognised(t, d);
      if Fragments(m) == 1 then r == Some(Given(a, m.channel, m.data)) && a !in t'.bufs
      else r == None && a in t'.bufs && Holds(t'.bufs[a], m, [0], d.utime)
  {
    FirstArrives(t, EventOf(d), m);
  }

  lemma OwnNext(t: Table, d: Datagram, a: Addr, m: Message, i: nat, got: seq<nat>, utime: int)
    requires Recognisable(t, d) && IsFrom(d, a) && Fragmented(m) && 0 < i < Fragments(m)
    requires d.packet == Long(FragmentOf(m, i)) && a in t.bufs && Holds(t.bufs[a], m, got, utime)
    requires |got| + 1 == Fragments(m) ==> forall j :: 0 <= j < Fragments(m) ==> j in got + [i]
    ensures var t', r := TableWith(t, d), Recognised(t, d);
      if |got| + 1 == Fragments(m) then r == Some(Given(a, m.channel, m.data)) && a !in t'.bufs
      else r == None && a in t'.bufs && Holds(t'.bufs[a], m, got + [i], utime)
  {
    NextArrives(t, EventOf(d), m, i, got, utime);
  }

  lemma TailOfPrefix(p: Packet, rest: seq<Packet>, ps: seq<Packet>, more: seq<Packet>)
    requires ps != [] && [p] + rest <= ps + more
    ensures p == ps[0] && rest <= ps[1..] + more
  {
    assert p == ([p] + rest)[0] == (ps + more)[0];
    assert rest == ([p] + rest)[1..] && ps[1..] + more == (ps + more)[1..];
  }

  lemma FirstPacket(s: Sent, sent: seq<Sent>, p: Packet, rest: seq<Packet>)
    requires Published(s) && (forall x :: x in sent ==> Published(x)) && [p] + rest <= Packets(s) + Stream(sent)
    ensures if PacketsOf(s.m)[0].Short? then p == Packet.Short(s.m.seqno, Wire(s.m)) && rest <= Stream(sent)
      else Fragmented(s.m) && InOrder(s.m, s.order) && NumbersOf(s.m, s.order[1..]) && p == Long(FragmentOf(s.m, 0))
           && rest <= FragmentsIn(s.m, s.order[1..]) + Stream(sent)
  {
    hide Stream;
    FragmentPackets(s.m);
    var ps := Packets(s);
    TailOfPrefix(p, rest, ps, Stream(sent));
    if PacketsOf(s.m)[0].Long? {
      assert ps[1..] == FragmentsIn(s.m, s.order[1..]);
    } else {
      assert ps[1..] + Stream(sent) == Stream(sent);
    }
  }

  lemma NextPacket(m: Message, order: seq<nat>, more: seq<Packet>, p: Packet, rest: seq<Packet>)
    requires NumbersOf(m, order) && order != [] && [p] + rest <= FragmentsIn(m, order) + more
    ensures NumbersOf(m, order[1..]) && p == Long(FragmentOf(m, order[0])) && rest <= FragmentsIn(m, order[1..]) + more
  {
    TailOfPrefix(p, rest, FragmentsIn(m, order), more);
    assert FragmentsIn(m, order)[1..] == FragmentsIn(m, order[1..]);
  }

  lemma OwnPacket(ds: seq<Datagram>, a: Addr)
    requires ds != [] && Undisturbed(ds, a)
    ensures IsFrom(ds[0], a) ==> ds[0].subscribed && PacketsFrom(ds, a) == [ds[0].packet] + PacketsFrom(ds[1..], a)
    ensures !IsFrom(ds[0], a) ==> (ds[0].Lcm? ==> a !in ds[0].victims) && PacketsFrom(ds, a) == PacketsFrom(ds[1..], a)
  {}

  /** How many of the messages have all their packets among the first n. */
  function WholeIn(sent: seq<Sent>, n: nat): (k: nat)
    requires forall s :: s in sent ==> Published(s)
    ensures k <= |sent|
  {
    if sent == [] || n < |Packets(sent[0])| then 0 else 1 + WholeIn(sent[1..], n - |Packets(sent[0])|)
  }

  /** Those messages, as they are given to the handlers. */
  function Whole(a: Addr, sent: seq<Sent>, n: nat): seq<Given>
    requires forall s :: s in sent ==> Published(s)
  {
    AsSent(a, sent[..WholeIn(sent, n)])
  }

  lemma PacketCount(s: Sent)
    requires Published(s)
    ensures |Packets(s)| == |s.order|
  {
    FragmentPackets(s.m);
  }

  /** The same inside a message that lacks `left` packets. */
  function WholeFrom(a: Addr, m: Message, left: nat, sent: seq<Sent>, n: nat): seq<Given>
    requires forall s :: s in sent ==> Published(s)
  {
    if n < left then [] else [Given(a, m.channel, m.data)] + Whole(a, sent, n - left)
  }

  lemma WholeFirst(a: Addr, sent: seq<Sent>, n: nat)
    requires (forall s :: s in sent ==> Published(s)) && sent != []
    ensures |Packets(sent[0])| == |sent[0].order|
    ensures Whole(a, sent, n) == WholeFrom(a, sent[0].m, |sent[0].order|, sent[1..], n)
  {
    hide Packets; hide Published;
    assert sent[0] in sent;
    PacketCount(sent[0]);
    var k := |sent[0].order|;
    if k <= n {
      var w := WholeIn(sent[1..], n - k);
      assert sent[..1 + w] == [sent[0]] + sent[1..][..w];
    }
  }

  lemma WholeNext(a: Addr, m: Message, left: nat, sent: seq<Sent>, n: nat)
    requires (forall s :: s in sent ==> Published(s)) && 0 < left
    ensures WholeFrom(a, m, left, sent, n + 1) == WholeFrom(a, m, left - 1, sent, n)
    ensures WholeFrom(a, m, left, sent, 0) == []
    ensures WholeFrom(a, m, 0, sent, n) == [Given(a, m.channel, m.data)] + Whole(a, sent, n)
  {}

  lemma {:induction false} WholeStream(sent: seq<Sent>)
    requires forall s :: s in sent ==> Published(s)
    ensures WholeIn(sent, |Stream(sent)|) == |sent|
  {
    if sent != [] { WholeStream(sent[1..]); }
  }

  lemma FromIsLcm(d: Datagram, a: Addr)
    ensures IsFrom(d, a) ==> d.Lcm?
  {}

  lemma NothingCame(t: Table, ds: seq<Datagram>, a: Addr, sent: seq<Sent>)
    requires ds == [] && forall s :: s in sent ==> Published(s)
    ensures AllRecognisable(t, ds) && GivenFrom(Messages(t, ds), a) == [] && PacketsFrom(ds, a) == []
    ensures Whole(a, sent, 0) == []
  {}

  lemma StreamSplits(ds: seq<Datagram>, a: Addr, sent: seq<Sent>)
    requires (forall s :: s in sent ==> Published(s)) && PacketsFrom(ds, a) <= Stream(sent) && PacketsFrom(ds, a) != []
    ensures sent != [] && Stream(sent) == Packets(sent[0]) + Stream(sent[1..])
  {}

  lemma OrderFacts(s: Sent)
    requires Published(s)
    ensures Sendable(s.m) && PacketsOf(s.m) != [] && s.order != [] && s.order[0] == 0 && [0] + s.order[1..] == s.order
    ensures if PacketsOf(s.m)[0].Short? then |s.order| == 1 else |s.order| == Fragments(s.m) > 0
  {}

  lemma NoFragments(m: Message, order: seq<nat>)
    requires NumbersOf(m, order) && order == []
    ensures forall more: seq<Packet> :: FragmentsIn(m, order) + more == more
  {}

  lemma RestFacts(m: Message, got: seq<nat>, rest: seq<nat>)
    requires InOrder(m, got + rest) && NumbersOf(m, rest) && got != [] && |got| < Fragments(m)
    ensures rest != [] && Fragmented(m) && rest[0] < Fragments(m) && (|got| + 1 == Fragments(m) <==> |rest| == 1)
  {
    assert |got + rest| == Fragments(m);
  }

  /** Between messages. */
  lemma {:induction false} StreamArrives(t: Table, ds: seq<Datagram>, a: Addr, sent: seq<Sent>)
    requires AllRecognisable(t, ds) && Undisturbed(ds, a) && a !in t.bufs
    requires (forall s :: s in sent ==> Published(s)) && PacketsFrom(ds, a) <= Stream(sent)
    ensures GivenFrom(Messages(t, ds), a) == Whole(a, sent, |PacketsFrom(ds, a)|)
    decreases |ds|
  {
    hide *;
    if ds == [] {
      NothingCame(t, ds, a, sent);
    } else {
      NextDatagram(t, ds, a);
      OwnPacket(ds, a);
      FromIsLcm(ds[0], a);
      if !IsFrom(ds[0], a) {
        OthersDatagram(t, ds[0], a);
        StreamArrives(TableWith(t, ds[0]), ds[1..], a, sent);
      } else {
        StreamSplits(ds, a, sent);
        StreamStarts(t, ds, a, sent);
      }
    }
  }

  lemma {:induction false} StreamStarts(t: Table, ds: seq<Datagram>, a: Addr, sent: seq<Sent>)
    requires AllRecognisable(t, ds) && Undisturbed(ds, a) && a !in t.bufs && ds != [] && IsFrom(ds[0], a)
      && ds[0].Lcm? && ds[0].subscribed
    requires (forall s :: s in sent ==> Published(s)) && sent != []
    requires [ds[0].packet] + PacketsFrom(ds[1..], a) <= Packets(sent[0]) + Stream(sent[1..])
    ensures GivenFrom(Messages(t, ds), a) == Whole(a, sent, 1 + |PacketsFrom(ds[1..], a)|)
    decreases |ds|, 0
  {
    hide *;
    var m, d, order, more := sent[0].m, ds[0], sent[0].order, PacketsFrom(ds[1..], a);
    NextDatagram(t, ds, a);
    var t' := TableWith(t, d);
    FirstPacket(sent[0], sent[1..], d.packet, more);
    WholeFirst(a, sent, 1 + |more|);
    OrderFacts(sent[0]);
    WholeNext(a, m, |order|, sent[1..], |more|);
    if d.packet.Short? {
      OwnShort(t, d, a, m);
      StreamArrives(t', ds[1..], a, sent[1..]);
    } else {
      OwnFirst(t, d, a, m);
      if Fragments(m) == 1 {
        NoFragments(m, order[1..]);
        StreamArrives(t', ds[1..], a, sent[1..]);
      } else {
        StreamGoesOn(t', ds[1..], a, m, [0], order[1..], sent[1..], d.utime);
      }
    }
  }

  /** Inside a message: these fragments have come, the rest is to come. */
  lemma {:induction false} StreamGoesOn(t: Table, ds: seq<Datagram>, a: Addr, m: Message, got: seq<nat>, rest: seq<nat>,
                                        sent: seq<Sent>, utime: int)
    requires AllRecognisable(t, ds) && Undisturbed(ds, a) && a in t.bufs && Holds(t.bufs[a], m, got, utime)
    requires InOrder(m, got + rest) && NumbersOf(m, rest) && got != [] && |got| < Fragments(m)
    requires (forall s :: s in sent ==> Published(s)) && PacketsFrom(ds, a) <= FragmentsIn(m, rest) + Stream(sent)
    ensures GivenFrom(Messages(t, ds), a) == WholeFrom(a, m, |rest|, sent, |PacketsFrom(ds, a)|)
    decreases |ds|
  {
    hide *;
    RestFacts(m, got, rest);
    if ds == [] {
      NothingCame(t, ds, a, sent);
      WholeNext(a, m, |rest|, sent, 0);
    } else {
      NextDatagram(t, ds, a);
      OwnPacket(ds, a);
      var t', d, more := TableWith(t, ds[0]), ds[0], PacketsFrom(ds[1..], a);
      FromIsLcm(d, a);
      if !IsFrom(d, a) {
        OthersDatagram(t, d, a);
        StreamGoesOn(t', ds[1..], a, m, got, rest, sent, utime);
      } else {
        NextPacket(m, rest, Stream(sent), d.packet, more);
        RestStep(m, got, rest);
        WholeNext(a, m, |rest|, sent, |more|);
        OwnNext(t, d, a, m, rest[0], got, utime);
        if |rest| == 1 {
          NoFragments(m, rest[1..]);
          StreamArrives(t', ds[1..], a, sent);
        } else {
          StreamGoesOn(t', ds[1..], a, m, got + [rest[0]], rest[1..], sent, utime);
        }
      }
    }
  }

  lemma StartTracks(size: nat, bytes: seq<byte>, bufs: seq<Buf>)
    requires |bytes| == size
    ensures Tracks(Start(size, bytes, bufs), bufs)
  {
    InitInv(size, bytes, bufs);
  }

  lemma InvData(s: State, bufs: seq<Buf>)
    requires Inv(s, bufs)
    ensures s.accepted == s.delivered + Msgs(s.bytes, Pending(s))
  {}

  /** What a sender has published so far, message after message, short ones and fragmented
      ones, the last one perhaps not yet complete, is what the handlers have been given or
      find waiting from it: the same channels and bytes in the same order, whatever the
      others send and however the threads run. */
  lemma PublishedIsDelivered(size: nat, bytes: seq<byte>, bufs: seq<Buf>, acts: seq<Action>, a: Addr, sent: seq<Sent>)
    requires |bytes| == size && Run(Start(size, bytes, bufs), acts).Some?
    requires !Run(Start(size, bytes, bufs), acts).value.pipe.aborted
    requires Undisturbed(Datagrams(acts), a) && (forall s :: s in sent ==> Published(s))
    requires PacketsFrom(Datagrams(acts), a) <= Stream(sent)
    ensures var n := Run(Start(size, bytes, bufs), acts).value;
      && GivenFrom(n.log, a) == AsSent(a, sent[..WholeIn(sent, |PacketsFrom(Datagrams(acts), a)|)])
      && (PacketsFrom(Datagrams(acts), a) == Stream(sent) ==> GivenFrom(n.log, a) == AsSent(a, sent))
      && AllSeen(n.log) == n.pipe.delivered + Msgs(n.pipe.bytes, Pending(n.pipe))
  {
    hide Run; hide Datagrams; hide PacketsFrom; hide Undisturbed; hide AllSeen; hide Inv; hide Messages;
    var n0 := Start(size, bytes, bufs);
    StartTracks(size, bytes, bufs);
    RunTracks(n0, acts, bufs);
    assert [] + Messages(EMPTY, Datagrams(acts)) == Messages(EMPTY, Datagrams(acts));
    StreamArrives(EMPTY, Datagrams(acts), a, sent);
    WholeStream(sent);
    assert sent[..|sent|] == sent;
    InvData(Run(n0, acts).value.pipe, bufs);
  }

  // ----- messages nobody subscribed to -----

  /** None of a's packets is on a channel with subscribers. */
  predicate NotWanted(ds: seq<Datagram>, a: Addr) {
    forall d :: d in ds && d.Lcm? && d.from == a ==> !d.subscribed
  }

  lemma {:induction false} NotWantedBrings(t: Table, ds: seq<Datagram>, a: Addr)
    requires AllRecognisable(t, ds) && NotWanted(ds, a) && a !in t.bufs
    ensures forall r :: r in Messages(t, ds) ==> r.from != a
    decreases |ds|
  {
    if ds != [] {
      var d := ds[0];
      if d.Lcm? && d.packet.Long? { NewBuffers(t, EventOf(d), a); }
      hide FragmentTable.Receive; hide ReceiveShort;
      NotWantedBrings(TableWith(t, d), ds[1..], a);
    }
  }

  /** Packets on channels without subscribers are not recognised as messages. */
  lemma NotWantedIsNotGiven(size: nat, bytes: seq<byte>, bufs: seq<Buf>, acts: seq<Action>, a: Addr)
    requires |bytes| == size && Run(Start(size, bytes, bufs), acts).Some? && NotWanted(Datagrams(acts), a)
    ensures forall r :: r in Run(Start(size, bytes, bufs), acts).value.log ==> r.from != a
  {
    hide Run; hide Datagrams; hide Messages; hide NotWanted; hide Tracks;
    StartTracks(size, bytes, bufs);
    RunTracks(Start(size, bytes, bufs), acts, bufs);
    NotWantedBrings(EMPTY, Datagrams(acts), a);
  }

  // ----- a handler that calls lcm_handle -----

  /** A datagram that brings a published short message to a subscriber. */
  predicate ShortDatagram(d: Datagram, m: Message) {
    && d.Lcm? && |d.header| == SHORT_HEADER && d.subscribed && Sendable(m)
    && PacketsOf(m) == [d.packet] && d.packet.Short? && |BytesOf(d)| <= MAX_PACKET
  }

  /** The message comes in and is queued. */
  function ArriveActions(d: Datagram, junk: seq<byte>): seq<Action> {
    [Other(TakeBuffer(junk)), Arrives(d, junk), Other(Shrink(junk)), Other(Notify), Other(Enqueue)]
  }

  function HandleActions(): seq<Action> { [Other(EnterHandle), Other(ReadPipe), Other(Dequeue)] }

  /** Three messages are queued, and the handler of the first calls lcm_handle. */
  function NestedActions(d1: Datagram, d2: Datagram, d3: Datagram, junk: seq<byte>): seq<Action> {
    ArriveActions(d1, junk) + ArriveActions(d2, junk) + ArriveActions(d3, junk)
    + (HandleActions() + HandleActions() + [Other(Release(junk))])
  }

  /** Actions that leave the fragment table alone. */
  predicate Plain(act: Action) {
    match act
    case Arrives(d, junk) => Recognisable(EMPTY, d) && (d.Lcm? ==> d.packet.Short?)
    case Other(step) => !step.Receive?
  }

  function StepOf(act: Action): Step
    requires Plain(act)
  {
    match act
    case Arrives(d, junk) => Step.Receive(BytesOf(d), OutcomeOf(EMPTY, d), junk)
    case Other(step) => step
  }

  function StepsOf(acts: seq<Action>): seq<Step>
    requires forall act :: act in acts ==> Plain(act)
  {
    seq(|acts|, i requires 0 <= i < |acts| => StepOf(acts[i]))
  }

  lemma PlainStep(n: Node, act: Action)
    requires Plain(act) && n.table == EMPTY && ReceivePipeline.Enabled(n.pipe, StepOf(act))
    ensures Possible(n, act) && Perform(n, act).table == EMPTY && Perform(n, act).pipe == Apply(n.pipe, StepOf(act))
  {
    hide ReceivePipeline.Enabled; hide Apply;
  }

  lemma ExecFirst(s: State, step: Step)
    requires Exec(s, [step]).Some?
    ensures ReceivePipeline.Enabled(s, step) && Exec(s, [step]) == Some(Apply(s, step))
  {
    hide ReceivePipeline.Enabled; hide Apply;
    assert [step][..0] == [];
    assert Exec(s, []) == Some(s);
  }

  /** What the pipeline can do, the process can do. */
  lemma {:induction false} RunFollows(n: Node, acts: seq<Action>)
    requires (forall act :: act in acts ==> Plain(act)) && n.table == EMPTY && Exec(n.pipe, StepsOf(acts)).Some?
    ensures Run(n, acts).Some? && Run(n, acts).value.pipe == Exec(n.pipe, StepsOf(acts)).value
    decreases |acts|
  {
    hide ReceivePipeline.Enabled; hide Apply; hide StepOf; hide Plain; hide Possible; hide Perform;
    if acts == [] {
      assert StepsOf(acts) == [];
    } else {
      var first := StepOf(acts[0]);
      assert StepsOf(acts) == [first] + StepsOf(acts[1..]);
      ExecAppend(n.pipe, [first], StepsOf(acts[1..]));
      ExecFirst(n.pipe, first);
      PlainStep(n, acts[0]);
      RunFollows(Perform(n, acts[0]), acts[1..]);
    }
  }

  lemma ShortRecognised(d: Datagram, m: Message)
    requires ShortDatagram(d, m)
    ensures Recognisable(EMPTY, d) && d.Lcm? && d.packet.Short?
      && |BytesOf(d)| == SHORT_HEADER + |Wire(m)| <= MAX_PACKET
    ensures OutcomeOf(EMPTY, d) == Outcome.Short(m.channel, SHORT_HEADER + |m.channel| + 1)
    ensures |Wire(m)| == |m.channel| + 1 + |m.data|
  {
    hide FragmentTable.Enabled; hide FragmentTable.Receive; hide PacketsOf;
    FragmentPackets(m);
    ShortRoundTrip(m);
    assert [d.packet][0] == Packet.Short(m.seqno, Wire(m));
    assert Recognised(EMPTY, d) == Some(Given(d.from, m.channel, m.data));
  }

  lemma ShortArrives(d: Datagram, m: Message, junk: seq<byte>)
    requires ShortDatagram(d, m)
    ensures (forall act :: act in ArriveActions(d, junk) ==> Plain(act)) && Plain(Arrives(d, junk))
    ensures var r := StepOf(Arrives(d, junk));
      ShortReceive(r, |junk|) && |r.packet| == SHORT_HEADER + |Wire(m)| && StepsOf(ArriveActions(d, junk)) == Arrive(r)
  {
    hide ShortDatagram; hide Recognisable; hide OutcomeOf; hide BytesOf; hide Wire;
    ShortRecognised(d, m);
  }

  lemma StepsConcat(a: seq<Action>, b: seq<Action>)
    requires (forall act :: act in a ==> Plain(act)) && (forall act :: act in b ==> Plain(act))
    ensures (forall act :: act in a + b ==> Plain(act)) && StepsOf(a + b) == StepsOf(a) + StepsOf(b)
  {
    hide Plain; hide StepOf;
  }

  lemma HandleSteps(junk: seq<byte>)
    ensures var acts := HandleActions() + HandleActions() + [Other(Release(junk))];
      (forall act :: act in acts ==> Plain(act)) && StepsOf(acts) == Handle() + Handle() + [Release(junk)]
  {}

  lemma SameJunk(d: Datagram, junk: seq<byte>)
    requires Plain(Arrives(d, junk))
    ensures StepOf(Arrives(d, junk)).Receive? && StepOf(Arrives(d, junk)).junk == junk
  {}

  /** It does happen: three published short messages, of which the ring has room for two
      beside the record of a datagram, and a handler that calls lcm_handle lead from the
      start to the failed assert of lcm_ringbuf_dealloc. */
  lemma AbortIsReached(size: nat, bytes: seq<byte>, bufs: seq<Buf>, d1: Datagram, m1: Message,
                       d2: Datagram, m2: Message, d3: Datagram, m3: Message)
    requires ShortDatagram(d1, m1) && ShortDatagram(d2, m2) && ShortDatagram(d3, m3) && |bufs| >= 3
    requires |bytes| == size >=
      BIG_RECORD + RecordLength(SHORT_HEADER + |Wire(m1)|) + RecordLength(SHORT_HEADER + |Wire(m2)|)
    ensures var r := Run(Start(size, bytes, bufs), NestedActions(d1, d2, d3, bytes)); r.Some? && r.value.pipe.aborted
  {
    hide ShortDatagram; hide ArriveActions; hide HandleActions; hide Plain; hide StepOf; hide StepsOf; hide Exec;
    hide ShortReceive; hide Run; hide Arrive; hide Handle; hide RecordLength; hide Wire; hide Init;
    ShortArrives(d1, m1, bytes); ShortArrives(d2, m2, bytes); ShortArrives(d3, m3, bytes);
    var a1, a2, a3 := ArriveActions(d1, bytes), ArriveActions(d2, bytes), ArriveActions(d3, bytes);
    var r1, r2, r3 := StepOf(Arrives(d1, bytes)), StepOf(Arrives(d2, bytes)), StepOf(Arrives(d3, bytes));
    var rest := HandleActions() + HandleActions() + [Other(Release(bytes))];
    HandleSteps(bytes);
    StepsConcat(a1, a2); StepsConcat(a1 + a2, a3); StepsConcat(a1 + a2 + a3, rest);
    ShortFacts(r1, size); ShortFacts(r2, size); ShortFacts(r3, size);
    NestedRunAborts(size, bytes, bufs, r1, r2, r3);
    SameJunk(d1, bytes);
    RunFollows(Start(size, bytes, bufs), NestedActions(d1, d2, d3, bytes));
  }
}
