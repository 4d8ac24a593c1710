/** UDPMulticastProvider with its FragmentBuffer objects, method by method. */
module JavaProvider {
  import opened Buffers
  import opened Bytes
  import opened FragmentSender
  import opened FragmentTable
  import opened JavaFragments

  /** int ++ */
  function Increment(v: int): (r: int)
    requires -0x8000_0000 <= v < 0x8000_0000
    ensures -0x8000_0000 <= r < 0x8000_0000 && (r == v + 1 || r == v + 1 - UINT32)
  {
    if v == 0x7fff_ffff then -0x8000_0000 else v + 1
  }

  lemma JavaFirst(m: Message)
    requires JavaFragmented(m)
    ensures var first := THRESHOLD - (|m.channel| + 1);
      && 1 < JavaCount(m) && 0 <= first <= |m.data| && first == JavaHi(m, 0)
      && JavaFragmentOf(m, 0) == Fragment(m.seqno, |m.data|, 0, 0, JavaCount(m), m.channel + [0] + m.data[..first])
  {
    JavaTiling(m, 0);
    JavaPieceInside(m, 0);
    var first := THRESHOLD - (|m.channel| + 1);
    assert Wire(m)[..THRESHOLD] == m.channel + [0] + m.data[..first];
  }

  lemma JavaNext(m: Message, i: nat)
    requires JavaFragmented(m) && 0 < i < JavaCount(m)
    ensures var off := JavaHi(m, i - 1); var len := Min(THRESHOLD, |m.data| - off);
      && 0 <= off <= off + len <= |m.data| && off + len == JavaHi(m, i)
      && JavaFragmentOf(m, i) == Fragment(m.seqno, |m.data|, off, i, JavaCount(m), m.data[off..off + len])
  {
    JavaTiling(m, i - 1);
    JavaTiling(m, i);
    JavaPieceInside(m, i);
  }

  lemma CountIs(size: nat, n: nat)
    requires n == size / THRESHOLD + if size % THRESHOLD > 0 then 1 else 0
    ensures n == (size + THRESHOLD - 1) / THRESHOLD
  {}

  class Publisher {
    var msgSeqNumber: int

    constructor ()
      ensures Valid() && msgSeqNumber == 0
    {
      msgSeqNumber := 0;
    }

    ghost predicate Valid()
      reads this
    {
      -0x8000_0000 <= msgSeqNumber < 0x8000_0000
    }

    /** publishEx; false stands for the exception that publish catches, and for the
        refusal of too long a message. Arrays have fewer than 2^31 elements; a channel and
        data that are longer together look short, and do not fit into a stream. */
    method PublishEx(channel: seq<byte>, data: seq<byte>, offset: nat, length: nat)
        returns (ok: bool, sent: seq<Packet>)
      requires Valid() && 0 !in channel && offset + length <= |data| < 0x8000_0000 && |channel| < 0x8000_0000
      modifies this
      ensures Valid()
      ensures sent == JavaPacketsOf(Message(old(msgSeqNumber), channel, data[offset..offset + length]))
      ensures ok <==> sent != []
      ensures msgSeqNumber == if ok then Increment(old(msgSeqNumber)) else old(msgSeqNumber)
    {
      ghost var m := Message(msgSeqNumber, channel, data[offset..offset + length]);
      var payloadSize := ToInt32(|channel| + length);
      if payloadSize <= THRESHOLD {
        if payloadSize < 0 { return false, []; }   // no array that large
        sent := [Short(msgSeqNumber, channel + [0] + data[offset..offset + length])];
      } else {
        var nfragments := payloadSize / THRESHOLD;
        if payloadSize % THRESHOLD > 0 { nfragments := nfragments + 1; }
        CountIs(payloadSize, nfragments);
        if nfragments > 65535 { return false, []; }
        var firstfragDatasize := THRESHOLD - (|channel| + 1);
        if firstfragDatasize < 0 { return false, []; }   // IndexOutOfBoundsException
        sent := SendFragments(channel, data[offset..offset + length], nfragments);
        JavaFirst(m);
        assert sent == JavaPacketsOf(m);
      }
      msgSeqNumber := Increment(msgSeqNumber);
      return true, sent;
    }

    method SendFragments(channel: seq<byte>, data: seq<byte>, nfragments: nat) returns (sent: seq<Packet>)
      requires var m := Message(msgSeqNumber, channel, data); JavaFragmented(m) && nfragments == JavaCount(m)
      ensures var m := Message(msgSeqNumber, channel, data);
        |sent| == nfragments && forall i :: 0 <= i < nfragments ==> sent[i] == Long(JavaFragmentOf(m, i))
    {
      hide JavaHi; hide JavaFragmentOf; hide JavaCount; hide JavaFragmented;
      ghost var m := Message(msgSeqNumber, channel, data);
      JavaFirst(m);
      var firstfragDatasize := THRESHOLD - (|channel| + 1);
      sent := [Long(Fragment(msgSeqNumber, |data|, 0, 0, nfragments, channel + [0] + data[..firstfragDatasize]))];
      var fragmentOffset := firstfragDatasize;
      var fragNo := 1;
      while fragNo < nfragments
        invariant 1 <= fragNo <= nfragments && fragmentOffset == JavaHi(m, fragNo - 1)
        invariant |sent| == fragNo
        invariant forall i :: 0 <= i < |sent| ==> sent[i] == Long(JavaFragmentOf(m, i))
      {
        JavaNext(m, fragNo);
        var fraglen := Min(THRESHOLD, |data| - fragmentOffset);
        sent := sent + [Long(Fragment(msgSeqNumber, |data|, fragmentOffset, fragNo, nfragments,
          data[fragmentOffset..fragmentOffset + fraglen]))];
        fragmentOffset := fragmentOffset + fraglen;
        fragNo := fragNo + 1;
      }
    }
  }

  /** System.arraycopy(src, 0, dst, at, src.length) */
  method CopyInto(src: seq<byte>, dst: array<byte>, at: nat)
    requires at + |src| <= dst.Length
    modifies dst
    ensures dst[..] == Splice(old(dst[..]), at, src)
  {
    ghost var was := dst[..];
    var k := 0;
    while k < |src|
      invariant 0 <= k <= |src|
      invariant dst[..] == Splice(was, at, src[..k])
    {
      dst[at + k] := src[k];
      k := k + 1;
    }
    assert src[..k] == src;
  }

  class FragmentBuffer {
    const channel: seq<byte>
    const msgSeqNumber: int
    const dataSize: nat
    var fragmentsRemaining: int
    const data: array<byte>
    const fragReceived: array<bool>

    constructor (channel: seq<byte>, msgSeqNumber: int, dataSize: nat, fragmentsRemaining: nat)
      ensures Valid() && fresh(data) && fresh(fragReceived)
      ensures View() == JavaBuf(channel, msgSeqNumber, seq(dataSize, i => 0), fragmentsRemaining,
        seq(fragmentsRemaining, i => false))
    {
      this.channel, this.msgSeqNumber, this.dataSize, this.fragmentsRemaining := channel, msgSeqNumber, dataSize,
        fragmentsRemaining;
      data := new byte[dataSize](i => 0);
      fragReceived := new bool[fragmentsRemaining](i => false);
      new;
      assert data[..] == seq(dataSize, i => 0);
      assert fragReceived[..] == seq(fragmentsRemaining, i => false);
    }

    ghost predicate Valid()
      reads this
    {
      data.Length == dataSize
    }

    ghost function View(): JavaBuf
      reads this, data, fragReceived
    {
      JavaBuf(channel, msgSeqNumber, data[..], fragmentsRemaining, fragReceived[..])
    }

    /** Mark a fragment that is new and copy its part. */
    method Receive(id: nat, offset: nat, part: seq<byte>)
      requires Valid() && id < fragReceived.Length && !fragReceived[id] && offset + |part| <= dataSize
      modifies this, data, fragReceived
      ensures Valid()
      ensures View() == old(View()).(received := old(View()).received[id := true],
                                     data := Splice(old(View()).data, offset, part),
                                     remaining := old(View()).remaining - 1)
    {
      fragReceived[id] := true;
      CopyInto(part, data, offset);
      fragmentsRemaining := fragmentsRemaining - 1;
    }
  }

  /** The message dropped, the one begun, and what is then done with the fragment. */
  lemma ReceiveUnfolds(t: JavaTable, a: Addr, f: Fragment)
    ensures var t1 := if JavaStale(t, a, f) then t - {a} else t;
      if a in t1 then JavaReceive(t, a, f) == JavaStore(t1, a, f, 0, |f.payload|)
      else if f.no == 0 then
        var start := NameLength(f.payload) + 1;
        JavaReceive(t, a, f) == JavaStore(t1[a := FreshBuf(f)], a, f, start, |f.payload| - start)
      else JavaReceive(t, a, f) == (t1, Pending)
  {
    hide JavaStore; hide FreshBuf; hide NameLength; hide JavaStale;
  }

  class ReaderThread {
    var fragBufs: map<Addr, FragmentBuffer>

    constructor ()
      ensures Valid() && View() == map[]
    {
      fragBufs := map[];
    }

    /** Different senders' buffers share nothing. */
    ghost predicate Valid()
      reads this, fragBufs.Values
    {
      && (forall a :: a in fragBufs ==> fragBufs[a].Valid())
      && (forall a, b :: a in fragBufs && b in fragBufs && a != b ==> Apart(fragBufs[a], fragBufs[b]))
    }

    static predicate Apart(b: FragmentBuffer, c: FragmentBuffer) {
      b != c && b.data != c.data && b.fragReceived != c.fragReceived
    }

    ghost function View(): JavaTable
      reads this, fragBufs.Values, set a | a in fragBufs :: fragBufs[a].data,
        set a | a in fragBufs :: fragBufs[a].fragReceived
    {
      map a | a in fragBufs :: fragBufs[a].View()
    }

    method Remove(a: Addr)
      requires Valid()
      modifies this
      ensures Valid() && fragBufs == old(fragBufs) - {a} && View() == old(View()) - {a}
    {
      fragBufs := fragBufs - {a};
    }

    /** The loop that looks for the NUL behind the channel name. */
    method ChannelLength(payload: seq<byte>) returns (n: nat)
      ensures n == NameLength(payload)
    {
      n := 0;
      while n < |payload| && payload[n] != 0
        invariant n <= |payload| && NameLength(payload) == n + NameLength(payload[n..])
      {
        n := n + 1;
      }
    }

    method Create(a: Addr, f: Fragment) returns (start: nat)
      requires Valid() && a !in fragBufs
      modifies this
      ensures Valid() && View() == old(View())[a := FreshBuf(f)] && start == NameLength(f.payload) + 1
      ensures a in fragBufs && fragBufs == old(fragBufs)[a := fragBufs[a]]
      ensures fresh(fragBufs[a]) && fresh(fragBufs[a].data) && fresh(fragBufs[a].fragReceived)
    {
      var n := ChannelLength(f.payload);
      start := n + 1;
      var fbuf := new FragmentBuffer(f.payload[..n], f.seqno, f.msgSize, f.count);
      Put(a, fbuf);
    }

    method Put(a: Addr, fbuf: FragmentBuffer)
      requires Valid() && fbuf.Valid() && forall x :: x in fragBufs ==> Apart(fragBufs[x], fbuf)
      modifies this
      ensures Valid() && View() == old(View())[a := fbuf.View()] && fragBufs == old(fragBufs)[a := fbuf]
    {
      fragBufs := fragBufs[a := fbuf];
    }

    /** One buffer changes, the others do not. */
    method Mark(a: Addr, id: nat, offset: nat, part: seq<byte>)
      requires Valid() && a in fragBufs
      requires id < fragBufs[a].fragReceived.Length && !fragBufs[a].fragReceived[id]
        && offset + |part| <= fragBufs[a].dataSize
      modifies fragBufs[a], fragBufs[a].data, fragBufs[a].fragReceived
      ensures Valid()
      ensures var b := old(View())[a];
        View() == old(View())[a := b.(received := b.received[id := true], data := Splice(b.data, offset, part),
          remaining := b.remaining - 1)]
    {
      hide Splice;
      fragBufs[a].Receive(id, offset, part);
    }

    method HandleFragment(a: Addr, f: Fragment) returns (o: JavaOutcome)
      requires Valid()
      modifies this, fragBufs.Values, set x | x in fragBufs :: fragBufs[x].data,
        set x | x in fragBufs :: fragBufs[x].fragReceived
      ensures o == JavaReceive(old(View()), a, f).1
      ensures o != Thrown ==> Valid() && View() == JavaReceive(old(View()), a, f).0
    {
      hide JavaStore; hide FreshBuf; hide FragmentBuffer.View; hide NameLength; hide FragmentBuffer.Valid;
      hide JavaReceive; hide JavaStale; hide Apart;
      ReceiveUnfolds(View(), a, f);
      var start := 0;
      DropStale(a, f);
      if a !in fragBufs && f.no == 0 { start := Create(a, f); }
      if a !in fragBufs { return Pending; }
      o := Take(a, f, start, |f.payload| - start);
    }

    method DropStale(a: Addr, f: Fragment)
      requires Valid()
      modifies this
      ensures Valid() && View() == if JavaStale(old(View()), a, f) then old(View()) - {a} else old(View())
      ensures fragBufs == old(fragBufs) || fragBufs == old(fragBufs) - {a}
    {
      if a in fragBufs {
        assert View()[a] == fragBufs[a].View();
        if fragBufs[a].msgSeqNumber != f.seqno || fragBufs[a].dataSize != f.msgSize { Remove(a); }
      }
    }

    method Take(a: Addr, f: Fragment, start: nat, size: int) returns (o: JavaOutcome)
      requires Valid() && a in fragBufs && start + size == |f.payload|
      modifies this, fragBufs[a], fragBufs[a].data, fragBufs[a].fragReceived
      ensures o == JavaStore(old(View()), a, f, start, size).1
      ensures o != Thrown ==> Valid() && View() == JavaStore(old(View()), a, f, start, size).0
    {
      hide Splice;
      var fbuf := fragBufs[a];
      ghost var was := View();
      assert was[a] == fbuf.View();
      if f.offset + size > fbuf.dataSize {
        Remove(a);
        return Pending;
      }
      if f.no >= fbuf.fragReceived.Length { return Thrown; }   // ArrayIndexOutOfBoundsException
      if !fbuf.fragReceived[f.no] {
        if size < 0 { return Thrown; }                         // IndexOutOfBoundsException
        Mark(a, f.no, f.offset, f.payload[start..]);
      }
      o := Pending;
      ghost var t := View();
      assert t[a] == fbuf.View();
      if fbuf.fragmentsRemaining == 0 {
        o := Got(fbuf.channel, fbuf.data[..]);
        Remove(a);
        assert View() == was - {a};
      }
    }
  }
}
