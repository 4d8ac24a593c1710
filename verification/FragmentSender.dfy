/** Publishing in upstream/lcm/lcm_udp.c: one short packet, or fragments that cut the
    message into pieces of 1400 bytes. */
module FragmentSender {
  import opened Bytes

  const PIECE := 1400            // LCM_SHORT_MESSAGE_MAX_SIZE
  const MAX_CHANNEL := 63
  const MAX_FRAGMENTS := 65535

  /** lcm2_header_long_t in host order, and the bytes behind it. */
  datatype Fragment = Fragment(seqno: int, msgSize: nat, offset: nat, no: nat, count: nat, payload: seq<byte>)

  datatype Packet = Short(seqno: int, payload: seq<byte>) | Long(fragment: Fragment)

  datatype Message = Message(seqno: int, channel: seq<byte>, data: seq<byte>)

  function Min(a: int, b: int): int { if a < b then a else b }

  function ToInt32(v: nat): int {
    var u := v % UINT32;
    if u < 0x8000_0000 then u else u - UINT32
  }

  // ----- what goes over the wire -----

  function Wire(m: Message): seq<byte> { m.channel + [0] + m.data }

  /** Pieces in a message of this size. */
  function Count(size: nat): nat { (size + PIECE - 1) / PIECE }

  function Fragments(m: Message): nat { Count(|Wire(m)|) }

  /** Where fragment i's part of the data begins and ends. */
  function Lo(m: Message, i: nat): int { if i == 0 then 0 else i * PIECE - (|m.channel| + 1) }
  function Hi(m: Message, i: nat): int { Min((i + 1) * PIECE, |Wire(m)|) - (|m.channel| + 1) }

  /** The messages that are sent in fragments. */
  predicate Fragmented(m: Message) {
    |m.channel| <= MAX_CHANNEL && 0 !in m.channel && PIECE <= |Wire(m)| && Fragments(m) <= MAX_FRAGMENTS
  }

  predicate Sendable(m: Message) {
    |m.channel| <= MAX_CHANNEL && 0 !in m.channel && |m.data| < UINT32
  }

  /** Fragment i carries the i-th piece of channel, NUL and data. */
  function FragmentOf(m: Message, i: nat): Fragment
    requires Fragmented(m) && i < Fragments(m)
  {
    Fragment(m.seqno, |m.data|, Lo(m, i), i, Fragments(m), Wire(m)[i * PIECE..Min((i + 1) * PIECE, |Wire(m)|)])
  }

  function PacketsOf(m: Message): seq<Packet>
    requires Sendable(m)
  {
    if ToInt32(|Wire(m)|) < PIECE then [Short(m.seqno, Wire(m))]
    else if |Wire(m)| < 0x8000_0000 && Fragments(m) <= MAX_FRAGMENTS then
      seq(Fragments(m), i requires 0 <= i < Fragments(m) => Long(FragmentOf(m, i)))
    else []
  }

  /** How a message goes out, by the length of channel, NUL and data: in one packet below
      1400 bytes, and again when that length is no positive int; refused if it takes more
      than 65535 fragments; in fragments otherwise, none longer than 1400 bytes and only the
      last one shorter. */
  lemma SentExactly(m: Message)
    requires |m.channel| <= 63 && 0 !in m.channel && |m.data| < 0x1_0000_0000
    ensures var size, packets := |m.channel| + 1 + |m.data|, PacketsOf(m);
      if size < 1400 || 0x8000_0000 <= size then packets == [Short(m.seqno, m.channel + [0] + m.data)]
      else if 65535 * 1400 < size then packets == []
      else (|packets| - 1) * 1400 < size <= |packets| * 1400 && forall i :: 0 <= i < |packets| ==>
        packets[i].Long? && |packets[i].fragment.payload| == Min(1400, size - i * 1400)
  {}

  /** The fragments' data parts are not empty and follow one another from 0 to the
      end of the data. */
  lemma Tiling(m: Message, i: nat)
    requires Fragmented(m) && i < Fragments(m)
    ensures 0 <= Lo(m, i) < Hi(m, i) <= |m.data|
    ensures Hi(m, i) == if i + 1 < Fragments(m) then Lo(m, i + 1) else |m.data|
    ensures var part := FragmentOf(m, i).payload;
      (if i == 0 then part[|m.channel| + 1..] else part) == m.data[Lo(m, i)..Hi(m, i)]
  {
    var c, w := |m.channel| + 1, Wire(m);
    assert i * PIECE < |w| && (i + 1 < Fragments(m) <==> (i + 1) * PIECE < |w|);
    assert w[c..] == m.data;
    hide Wire;
    if i == 0 { assert w[..PIECE][c..] == w[c..][..PIECE - c]; }
  }

  lemma Apart(m: Message, i: nat, j: nat)
    requires i < j
    ensures Hi(m, i) <= Lo(m, j)
  {}

  /** The first piece of the wire form starts with channel and NUL. */
  lemma FirstPayload(m: Message)
    requires Fragmented(m)
    ensures 0 < Fragments(m) && |FragmentOf(m, 0).payload| == PIECE
    ensures FragmentOf(m, 0).payload[..|m.channel|] == m.channel && FragmentOf(m, 0).payload[|m.channel|] == 0
  {
    assert Wire(m)[..|m.channel|] == m.channel && Wire(m)[|m.channel|] == 0;
  }

  /** The header and data the sending loop puts into fragment i. */
  lemma NextFragment(m: Message, i: nat)
    requires Fragmented(m) && 0 < i < Fragments(m)
    ensures var off := Hi(m, i - 1); var len := Min(PIECE, |m.data| - off);
      && 0 <= off <= off + len <= |m.data| && off + len == Hi(m, i)
      && FragmentOf(m, i) == Fragment(m.seqno, |m.data|, off, i, Fragments(m), m.data[off..off + len])
  {
    Tiling(m, i - 1);
    Tiling(m, i);
  }

  lemma FirstFragment(m: Message)
    requires Fragmented(m)
    ensures var first := PIECE - (|m.channel| + 1);
      && 0 < Fragments(m) && 0 <= first <= |m.data| && first == Hi(m, 0)
      && FragmentOf(m, 0) == Fragment(m.seqno, |m.data|, 0, 0, Fragments(m), m.channel + [0] + m.data[..first])
  {
    var first := PIECE - (|m.channel| + 1);
    assert Wire(m)[..PIECE] == m.channel + [0] + m.data[..first];
  }

  class Sender {
    var msgSeqno: nat

    constructor ()
      ensures msgSeqno == 0
    {
      msgSeqno := 0;
    }

    /** lcm_udpm_publish. Of the sendmsg calls the first `budget` succeed. */
    method Publish(channel: seq<byte>, data: seq<byte>, budget: nat) returns (status: int, sent: seq<Packet>)
      requires 0 !in channel && |data| < UINT32
      modifies this
      ensures |channel| > MAX_CHANNEL ==> status == -1 && sent == [] && msgSeqno == old(msgSeqno)
      ensures |channel| <= MAX_CHANNEL ==>
        var packets := PacketsOf(Message(old(msgSeqno), channel, data));
        && sent == packets[..Min(budget, |packets|)]
        && (status == 0 <==> packets != [] && (packets[0].Long? || budget > 0))
        && msgSeqno == if packets == [] then old(msgSeqno) else (old(msgSeqno) + 1) % UINT32
    {
      status, sent := 0, [];
      var channelSize := |channel|;
      if channelSize > MAX_CHANNEL { return -1, []; }
      ghost var m := Message(msgSeqno, channel, data);
      var payloadSize := ToInt32(channelSize + 1 + |data|);
      if payloadSize < PIECE {
        if budget > 0 { sent := [Short(msgSeqno, channel + [0] + data)]; } else { status := -1; }
      } else {
        var nfragments := payloadSize / PIECE + if payloadSize % PIECE != 0 then 1 else 0;
        assert nfragments == Count(payloadSize);
        if nfragments > 65535 { return -1, []; }
        sent := SendFragments(channel, data, nfragments, budget);
      }
      msgSeqno := (msgSeqno + 1) % UINT32;
    }

    method SendFragments(channel: seq<byte>, data: seq<byte>, nfragments: nat, budget: nat) returns (sent: seq<Packet>)
      requires var m := Message(msgSeqno, channel, data); Fragmented(m) && nfragments == Fragments(m)
      ensures var m := Message(msgSeqno, channel, data);
        |sent| == Min(budget, nfragments) && forall i :: 0 <= i < |sent| ==> sent[i] == Long(FragmentOf(m, i))
    {
      hide Hi; hide FragmentOf; hide Fragments; hide Fragmented;
      ghost var m := Message(msgSeqno, channel, data);
      FirstFragment(m);
      var firstfragDatasize := PIECE - (|channel| + 1);
      assert firstfragDatasize <= |data|;
      sent := [];
      var ok := budget > 0;
      if ok { sent := [Long(Fragment(msgSeqno, |data|, 0, 0, nfragments, channel + [0] + data[..firstfragDatasize]))]; }
      var fragmentOffset := firstfragDatasize;
      var fragNo := 1;
      while ok && fragNo < nfragments
        invariant 1 <= fragNo <= nfragments && fragmentOffset == Hi(m, fragNo - 1)
        invariant ok <==> fragNo <= budget
        invariant |sent| == Min(budget, fragNo)
        invariant forall i :: 0 <= i < |sent| ==> sent[i] == Long(FragmentOf(m, i))
      {
        NextFragment(m, fragNo);
        var fraglen := Min(PIECE, |data| - fragmentOffset);
        var payload := data[fragmentOffset..fragmentOffset + fraglen];
        ok := |sent| < budget;
        if ok { sent := sent + [Long(Fragment(msgSeqno, |data|, fragmentOffset, fragNo, nfragments, payload))]; }
        fragmentOffset := fragmentOffset + fraglen;
        fragNo := fragNo + 1;
      }
    }
  }
}
