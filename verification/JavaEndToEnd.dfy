/** From publishEx to receiveMessage in Java: what is published is what is handed on. */
module JavaEndToEnd {
  import opened Bytes
  import opened FragmentSender
  import opened FragmentTable
  import opened JavaDelivery
  import opened JavaFragments
  import opened Wrappers

  /** What gets through the socket. */
  datatype Datagram = Datagram(from: Addr, packet: Packet)

  /** handlePacket. Without a NUL in a short message readStringZ runs on behind the packet,
      into what the receive buffer held; that stands here with the exceptions. */
  function HandlePacket(t: JavaTable, d: Datagram): (JavaTable, JavaOutcome) {
    match d.packet
    case Short(_, payload) =>
      var n := NameLength(payload);
      (t, if n == |payload| then Thrown else Got(payload[..n], payload[n + 1..]))
    case Long(f) => JavaReceive(t, d.from, f)
  }

  /** What a's packets made the reader thread hand on. */
  function HandedOn(t: JavaTable, ds: seq<Datagram>, a: Addr): seq<Handed>
    decreases |ds|
  {
    if ds == [] then []
    else
      var (t', o) := HandlePacket(t, ds[0]);
      match o
      case Thrown => []
      case Pending => HandedOn(t', ds[1..], a)
      case Got(channel, data) =>
        if ds[0].from == a then [Handed(channel, data)] + HandedOn(t', ds[1..], a) else HandedOn(t', ds[1..], a)
  }

  /** The packets of the other senders end nothing. */
  predicate Undisturbed(t: JavaTable, ds: seq<Datagram>, a: Addr)
    decreases |ds|
  {
    ds == [] ||
    (var (t', o) := HandlePacket(t, ds[0]); (ds[0].from != a ==> o != Thrown) && Undisturbed(t', ds[1..], a))
  }

  function PacketsFrom(ds: seq<Datagram>, a: Addr): seq<Packet> {
    if ds == [] then []
    else if ds[0].from == a then [ds[0].packet] + PacketsFrom(ds[1..], a)
    else PacketsFrom(ds[1..], a)
  }

  // ----- published messages -----

  /** A message publishEx gives up on: too long for an int or for its first fragment. */
  lemma RefusedExactly(m: Message)
    requires 0 !in m.channel
    ensures JavaPacketsOf(m) == [] <==>
      64000 < |m.channel| + |m.data| && (64000 <= |m.channel| || 0x8000_0000 <= |m.channel| + |m.data|)
  {}

  /** All packets of these messages. */
  function Stream(sent: seq<Message>): seq<Packet>
    requires forall s :: s in sent ==> 0 !in s.channel
  {
    if sent == [] then [] else JavaPacketsOf(sent[0]) + Stream(sent[1..])
  }

  /** The data of one message as it arrives: a message in fragments whose channel and data
      fill whole fragments ends in a zero. */
  function Arriving(m: Message): seq<byte> {
    var size := |m.channel| + |m.data|;
    if 64000 < size && size % 64000 == 0 && m.data != [] then m.data[..|m.data| - 1] + [0] else m.data
  }

  function Expected(sent: seq<Message>): seq<Handed>
    requires forall s :: s in sent ==> 0 !in s.channel
  {
    if sent == [] then []
    else if JavaPacketsOf(sent[0]) == [] then Expected(sent[1..])
    else [Handed(sent[0].channel, Arriving(sent[0]))] + Expected(sent[1..])
  }

  /** The first i packets of m have come. */
  ghost predicate Before(t: JavaTable, a: Addr, m: Message, i: nat) {
    if i == 0 then a !in t else JavaFragmented(m) && i < JavaCount(m) && Open(t, a, m) && Marked(t[a], m, Upwards(0, i))
  }

  lemma ShortComes(t: JavaTable, a: Addr, m: Message)
    requires 0 !in m.channel
    ensures HandlePacket(t, Datagram(a, Short(m.seqno, Wire(m)))) == (t, Got(m.channel, m.data))
  {
    var w := Wire(m);
    assert w[..|m.channel|] == m.channel && w[|m.channel|] == 0 && w[|m.channel| + 1..] == m.data;
    NameLengthIs(w, m.channel);
  }

  lemma UpwardsNext(i: nat)
    ensures Upwards(0, i) + [i] == Upwards(0, i + 1)
  {}

  lemma UpwardsHas(i: nat, n: nat)
    requires i < n
    ensures (forall j: nat :: j < n ==> j in Upwards(0, i) + [i]) <==> i + 1 == n
  {
    if i + 1 == n {
      forall j: nat | j < n ensures j in Upwards(0, i) + [i] { assert (Upwards(0, i) + [i])[j] == j; }
    } else {
      assert n - 1 !in Upwards(0, i) + [i];
    }
  }

  lemma OpensFirst(t: JavaTable, a: Addr, m: Message)
    requires JavaFragmented(m) && a !in t
    ensures var (t', o) := JavaReceive(t, a, JavaFragmentOf(m, 0));
      1 < JavaCount(m) && Before(t', a, m, 1) && o == Pending
  {
    hide JavaReceive; hide JavaFragmentOf; hide Marked; hide Mark;
    FirstIsMarked(t, a, m);
    FragmentOpens(t, a, m, 0);
    assert Upwards(0, 1) == [0];
  }

  lemma HasData(m: Message)
    requires JavaFragmented(m)
    ensures m.data != []
  {}

  lemma FragmentNext(t: JavaTable, a: Addr, m: Message, i: nat)
    requires JavaFragmented(m) && i < JavaCount(m) && Before(t, a, m, i)
    ensures var (t', o) := JavaReceive(t, a, JavaFragmentOf(m, i));
      if i + 1 == JavaCount(m) then a !in t' && m.data != [] && o == Got(m.channel, AsReceived(m))
      else Before(t', a, m, i + 1) && o == Pending
  {
    hide JavaReceive; hide JavaFragmentOf; hide Marked; hide AsReceived; hide JavaHi; hide JavaLo; hide Open;
    UpwardsNext(i);
    if i == 0 {
      OpensFirst(t, a, m);
    } else {
      MarkStep(t, a, m, Upwards(0, i), i);
      UpwardsHas(i, JavaCount(m));
      HasData(m);
    }
  }

  /** Packet i of m when those before it have come. */
  lemma PacketComes(t: JavaTable, a: Addr, m: Message, i: nat)
    requires 0 !in m.channel && i < |JavaPacketsOf(m)| && Before(t, a, m, i)
    ensures var (t', o) := HandlePacket(t, Datagram(a, JavaPacketsOf(m)[i]));
      if i + 1 == |JavaPacketsOf(m)| then a !in t' && o == Got(m.channel, Arriving(m))
      else Before(t', a, m, i + 1) && o == Pending
  {
    hide JavaReceive; hide JavaFragmentOf; hide Wire; hide Marked;
    if |m.channel| + |m.data| <= THRESHOLD { ShortComes(t, a, m); } else { FragmentNext(t, a, m, i); }
  }

  lemma OthersPass(t: JavaTable, d: Datagram, a: Addr, m: Message, i: nat)
    requires d.from != a && Before(t, a, m, i)
    ensures Before(HandlePacket(t, d).0, a, m, i)
  {
    hide Marked; hide JavaReceive;
    if d.packet.Long? { OthersLeave(t, d.from, d.packet.fragment, a); }
  }

  /** What is left of the stream from the i-th packet of the first message on. */
  function Rest(sent: seq<Message>, i: nat): seq<Packet>
    requires sent != [] && (forall s :: s in sent ==> 0 !in s.channel) && i <= |JavaPacketsOf(sent[0])|
  {
    JavaPacketsOf(sent[0])[i..] + Stream(sent[1..])
  }

  lemma {:induction false} NoneHandedOn(t: JavaTable, ds: seq<Datagram>, a: Addr)
    requires PacketsFrom(ds, a) == [] && Undisturbed(t, ds, a)
    ensures HandedOn(t, ds, a) == []
    decreases |ds|
  {
    hide HandlePacket;
    if ds != [] { NoneHandedOn(HandlePacket(t, ds[0]).0, ds[1..], a); }
  }

  lemma EmptyRun(t: JavaTable, a: Addr, sent: seq<Message>, i: nat)
    requires sent != [] && (forall s :: s in sent ==> 0 !in s.channel) && i < |JavaPacketsOf(sent[0])|
    ensures HandedOn(t, [], a) == [] && Rest(sent, i) != []
  {
    hide JavaPacketsOf;
  }

  lemma RestNext(sent: seq<Message>, i: nat, p: Packet, more: seq<Packet>)
    requires sent != [] && (forall s :: s in sent ==> 0 !in s.channel) && i < |JavaPacketsOf(sent[0])|
    requires [p] + more <= Rest(sent, i)
    ensures p == JavaPacketsOf(sent[0])[i]
    ensures var rest := if i + 1 == |JavaPacketsOf(sent[0])| then Stream(sent[1..]) else Rest(sent, i + 1);
      more <= rest && Rest(sent, i) == [p] + rest
  {
    hide JavaPacketsOf; hide Stream;
    var all := JavaPacketsOf(sent[0]);
    assert all[i..] == [all[i]] + all[i + 1..];
    assert Rest(sent, i) == [all[i]] + (all[i + 1..] + Stream(sent[1..]));
    assert p == ([p] + more)[0] == Rest(sent, i)[0];
    if i + 1 == |all| { assert all[i + 1..] + Stream(sent[1..]) == Stream(sent[1..]); }
    assert ([p] + more)[1..] == more;
  }

  lemma HandedStep(t: JavaTable, ds: seq<Datagram>, a: Addr)
    requires ds != [] && Undisturbed(t, ds, a) && (ds[0].from == a ==> HandlePacket(t, ds[0]).1 != Thrown)
    ensures var (t', o) := HandlePacket(t, ds[0]);
      && Undisturbed(t', ds[1..], a)
      && HandedOn(t, ds, a) ==
        if ds[0].from == a && o.Got? then [Handed(o.channel, o.data)] + HandedOn(t', ds[1..], a)
        else HandedOn(t', ds[1..], a)
  {
    hide HandlePacket;
  }

  /** From the i-th packet of a message on. */
  lemma {:induction false} HandedFrom(t: JavaTable, ds: seq<Datagram>, a: Addr, sent: seq<Message>, i: nat)
    requires forall s :: s in sent ==> 0 !in s.channel
    requires Undisturbed(t, ds, a) && sent != [] && i < |JavaPacketsOf(sent[0])| && Before(t, a, sent[0], i)
    requires PacketsFrom(ds, a) <= Rest(sent, i)
    ensures HandedOn(t, ds, a) <= Expected(sent)
    ensures PacketsFrom(ds, a) == Rest(sent, i) ==> HandedOn(t, ds, a) == Expected(sent)
    decreases |ds|, |sent|, 0
  {
    hide HandlePacket; hide Undisturbed; hide HandedOn; hide Before; hide JavaPacketsOf; hide Rest; hide Stream;
    hide Arriving;
    if ds == [] {
      EmptyRun(t, a, sent, i);
    } else if ds[0].from != a {
      OthersPass(t, ds[0], a, sent[0], i);
      HandedStep(t, ds, a);
      HandedFrom(HandlePacket(t, ds[0]).0, ds[1..], a, sent, i);
    } else {
      RestNext(sent, i, ds[0].packet, PacketsFrom(ds[1..], a));
      PacketComes(t, a, sent[0], i);
      HandedStep(t, ds, a);
      var t' := HandlePacket(t, ds[0]).0;
      if i + 1 == |JavaPacketsOf(sent[0])| {
        HandedStart(t', ds[1..], a, sent[1..]);
      } else {
        HandedFrom(t', ds[1..], a, sent, i + 1);
      }
    }
  }

  /** Between two messages. */
  lemma {:induction false} HandedStart(t: JavaTable, ds: seq<Datagram>, a: Addr, sent: seq<Message>)
    requires (forall s :: s in sent ==> 0 !in s.channel) && Undisturbed(t, ds, a) && a !in t
    requires PacketsFrom(ds, a) <= Stream(sent)
    ensures HandedOn(t, ds, a) <= Expected(sent)
    ensures PacketsFrom(ds, a) == Stream(sent) ==> HandedOn(t, ds, a) == Expected(sent)
    decreases |ds|, |sent|, 1
  {
    hide HandlePacket; hide Undisturbed; hide HandedOn; hide JavaPacketsOf; hide Arriving;
    if sent == [] {
      NoneHandedOn(t, ds, a);
    } else if JavaPacketsOf(sent[0]) == [] {
      assert Stream(sent) == Stream(sent[1..]);
      HandedStart(t, ds, a, sent[1..]);
    } else {
      assert JavaPacketsOf(sent[0])[0..] == JavaPacketsOf(sent[0]);
      HandedFrom(t, ds, a, sent, 0);
    }
  }

  /** Whatever others send and wherever the stream of a's packets stops: a's messages are
      handed on in the order published, with their channels, and all of them if all packets
      came. The bytes are those published, but for the last one of a message in fragments
      whose channel and data fill whole fragments. */
  lemma PublishedIsHandedOn(ds: seq<Datagram>, a: Addr, sent: seq<Message>)
    requires (forall s :: s in sent ==> 0 !in s.channel) && Undisturbed(map[], ds, a)
    requires PacketsFrom(ds, a) <= Stream(sent)
    ensures HandedOn(map[], ds, a) <= Expected(sent)
    ensures PacketsFrom(ds, a) == Stream(sent) ==> HandedOn(map[], ds, a) == Expected(sent)
  {
    HandedStart(map[], ds, a, sent);
  }
}
