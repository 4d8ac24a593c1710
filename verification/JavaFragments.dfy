/** Fragments in upstream/lcm-java/lcm/lcm/UDPMulticastProvider.java: pieces of 64000
    bytes, and a receiver that remembers which fragments it has. */
module JavaFragments {
  import opened Buffers
  import opened Bytes
  import opened FragmentSender
  import opened FragmentTable

  const THRESHOLD := 64000     // FRAGMENTATION_THRESHOLD

  // ----- what publishEx sends -----

  /** The fragment count leaves the channel's NUL out of account. */
  function JavaCount(m: Message): nat { (|m.channel| + |m.data| + THRESHOLD - 1) / THRESHOLD }

  function JavaLo(m: Message, i: nat): int { if i == 0 then 0 else i * THRESHOLD - (|m.channel| + 1) }
  function JavaHi(m: Message, i: nat): int { Min((i + 1) * THRESHOLD, |Wire(m)|) - (|m.channel| + 1) }

  /** Messages publishEx sends in fragments. */
  predicate JavaFragmented(m: Message) {
    && 0 !in m.channel && |m.channel| < THRESHOLD && THRESHOLD < |m.channel| + |m.data| < 0x8000_0000
    && JavaCount(m) <= MAX_FRAGMENTS
  }

  lemma JavaPieceInside(m: Message, i: nat)
    requires JavaFragmented(m) && i < JavaCount(m)
    ensures i * THRESHOLD + 1 < |Wire(m)|
  {}

  function JavaFragmentOf(m: Message, i: nat): Fragment
    requires JavaFragmented(m) && i < JavaCount(m)
  {
    JavaPieceInside(m, i);
    Fragment(m.seqno, |m.data|, JavaLo(m, i), i, JavaCount(m),
      Wire(m)[i * THRESHOLD..Min((i + 1) * THRESHOLD, |Wire(m)|)])
  }

  /** What publishEx puts on the wire; nothing if it gives up or throws. */
  function JavaPacketsOf(m: Message): seq<Packet>
    requires 0 !in m.channel
  {
    if |m.channel| + |m.data| <= THRESHOLD then [Short(m.seqno, Wire(m))]
    else if !JavaFragmented(m) then []
    else seq(JavaCount(m), i requires 0 <= i < JavaCount(m) => Long(JavaFragmentOf(m, i)))
  }

  /** Does some fragment carry the last byte? */
  predicate Complete(m: Message) { (|m.channel| + |m.data|) % THRESHOLD != 0 }

  /** How much of the data the fragments carry. */
  function Carried(m: Message): int { if Complete(m) then |m.data| else |m.data| - 1 }

  function JavaPart(m: Message, i: nat): seq<byte>
    requires JavaFragmented(m) && i < JavaCount(m)
  {
    if i == 0 then JavaFragmentOf(m, 0).payload[|m.channel| + 1..] else JavaFragmentOf(m, i).payload
  }

  lemma LastPiece(m: Message)
    requires JavaFragmented(m)
    ensures Min(JavaCount(m) * THRESHOLD, |Wire(m)|) == Carried(m) + |m.channel| + 1
  {
    var s, q := |m.channel| + |m.data|, (|m.channel| + |m.data|) / THRESHOLD;
    assert s == q * THRESHOLD + s % THRESHOLD;
    assert JavaCount(m) == if s % THRESHOLD == 0 then q else q + 1;
  }

  lemma JavaHiNext(m: Message, i: nat)
    requires JavaFragmented(m) && i < JavaCount(m)
    ensures JavaHi(m, i) == if i + 1 < JavaCount(m) then JavaLo(m, i + 1) else Carried(m)
  {
    if i + 1 < JavaCount(m) { JavaPieceInside(m, i + 1); } else { LastPiece(m); }
  }

  /** The fragments follow one another from byte 0 and end at the last byte, or one
      byte short of it exactly when channel and data fill whole fragments. */
  lemma JavaTiling(m: Message, i: nat)
    requires JavaFragmented(m) && i < JavaCount(m)
    ensures 0 <= JavaLo(m, i) <= JavaHi(m, i) <= |m.data|
      && (JavaLo(m, i) < JavaHi(m, i) || (i == 0 && |m.channel| == THRESHOLD - 1))
    ensures JavaHi(m, i) == if i + 1 < JavaCount(m) then JavaLo(m, i + 1) else Carried(m)
    ensures JavaPart(m, i) == m.data[JavaLo(m, i)..JavaHi(m, i)]
  {
    var c, w := |m.channel| + 1, Wire(m);
    JavaPieceInside(m, i);
    assert w[c..] == m.data;
    JavaHiNext(m, i);
    hide Wire; hide JavaCount;
    if i == 0 { assert w[..THRESHOLD][c..] == w[c..][..THRESHOLD - c]; }
  }

  lemma JavaApart(m: Message, i: nat, j: nat)
    requires i < j
    ensures JavaHi(m, i) <= JavaLo(m, j)
  {}

  /** What a receiver ends up with when every fragment has arrived. */
  function AsReceived(m: Message): seq<byte>
    requires m.data != []
  {
    if Complete(m) then m.data else m.data[..|m.data| - 1] + [0]
  }

  // ----- handleFragment -----

  /** FragmentBuffer; frag_received by fragment number. */
  datatype JavaBuf = JavaBuf(channel: seq<byte>, seqno: int, data: seq<byte>, remaining: int, received: seq<bool>)

  type JavaTable = map<Addr, JavaBuf>

  /** Thrown stands for an unchecked exception, which ends the reader thread. */
  datatype JavaOutcome = Pending | Got(channel: seq<byte>, data: seq<byte>) | Thrown

  /** The channel name goes up to the first NUL or the end of the packet. */
  function NameLength(payload: seq<byte>): (r: nat)
    ensures r <= |payload| && 0 !in payload[..r] && (r < |payload| ==> payload[r] == 0)
  {
    if payload == [] || payload[0] == 0 then 0 else 1 + NameLength(payload[1..])
  }

  function FreshBuf(f: Fragment): JavaBuf {
    JavaBuf(f.payload[..NameLength(f.payload)], f.seqno, seq(f.msgSize, i => 0), f.count, seq(f.count, i => false))
  }

  /** The part of handleFragment behind the lookup: `size` bytes of the payload from
      `start` go into the buffer of sender a. */
  function JavaStore(t: JavaTable, a: Addr, f: Fragment, start: nat, size: int): (JavaTable, JavaOutcome)
    requires a in t && start + size == |f.payload|
  {
    var b := t[a];
    if f.offset + size > |b.data| then (t - {a}, Pending)
    else if f.no >= |b.received| || (!b.received[f.no] && size < 0) then (t, Thrown)
    else
      var b' := if b.received[f.no] then b
        else b.(received := b.received[f.no := true], data := Splice(b.data, f.offset, f.payload[start..]),
          remaining := b.remaining - 1);
      if b'.remaining == 0 then (t - {a}, Got(b'.channel, b'.data)) else (t[a := b'], Pending)
  }

  predicate JavaStale(t: JavaTable, a: Addr, f: Fragment) {
    a in t && (t[a].seqno != f.seqno || |t[a].data| != f.msgSize)
  }

  function JavaReceive(t: JavaTable, a: Addr, f: Fragment): (JavaTable, JavaOutcome) {
    var t1 := if JavaStale(t, a, f) then t - {a} else t;
    if a in t1 then JavaStore(t1, a, f, 0, |f.payload|)
    else if f.no == 0 then
      var start := NameLength(f.payload) + 1;
      JavaStore(t1[a := FreshBuf(f)], a, f, start, |f.payload| - start)
    else (t1, Pending)
  }

  // ----- what a buffer holds -----

  function CountMissing(received: seq<bool>): nat {
    if received == [] then 0 else CountMissing(received[..|received| - 1]) + if received[|received| - 1] then 0 else 1
  }

  lemma {:induction false} CountMark(received: seq<bool>, i: nat)
    requires i < |received| && !received[i]
    ensures CountMissing(received[i := true]) == CountMissing(received) - 1
    decreases |received|
  {
    var init := received[..|received| - 1];
    if i < |received| - 1 {
      CountMark(init, i);
      assert received[i := true][..|received| - 1] == init[i := true];
    } else {
      assert received[i := true][..|received| - 1] == init;
    }
  }

  lemma {:induction false} CountZero(received: seq<bool>)
    ensures CountMissing(received) == 0 <==> forall i :: 0 <= i < |received| ==> received[i]
  {
    if received != [] { CountZero(received[..|received| - 1]); }
  }

  lemma {:induction false} CountFresh(n: nat)
    ensures CountMissing(seq(n, i => false)) == n
  {
    if n > 0 {
      CountFresh(n - 1);
      assert seq(n, i => false)[..n - 1] == seq(n - 1, i => false);
    }
  }

  predicate JavaArrived(data: seq<byte>, m: Message, i: nat)
    requires JavaFragmented(m) && |data| == |m.data|
  {
    i < JavaCount(m) && 0 <= JavaLo(m, i) <= JavaHi(m, i) <= |m.data|
      && data[JavaLo(m, i)..JavaHi(m, i)] == m.data[JavaLo(m, i)..JavaHi(m, i)]
  }

  /** The buffer's bookkeeping is right: what is marked has arrived, and
      fragments_remaining counts the rest. */
  ghost predicate JavaHolds(b: JavaBuf, m: Message) {
    && JavaFragmented(m) && b.channel == m.channel && b.seqno == m.seqno && |b.data| == |m.data|
    && |b.received| == JavaCount(m) && b.remaining == CountMissing(b.received)
    && (forall i :: 0 <= i < JavaCount(m) && b.received[i] ==> JavaArrived(b.data, m, i))
    && (!Complete(m) ==> b.data[|m.data| - 1] == 0)
  }

  /** A buffer in the table: fragment 0 is in it and something is missing. */
  ghost predicate UnderWay(b: JavaBuf, m: Message) {
    JavaHolds(b, m) && b.received[0] && b.remaining > 0
  }

  lemma JavaCovers(m: Message, i: nat)
    requires JavaFragmented(m) && i < JavaCount(m)
    ensures JavaHi(m, i) <= Carried(m) <= |m.data|
  {
    LastPiece(m);
  }

  lemma JavaSpliceArrives(data: seq<byte>, m: Message, i: nat, j: nat)
    requires JavaFragmented(m) && |data| == |m.data| && i < JavaCount(m)
    requires i == j || JavaArrived(data, m, j)
    ensures JavaLo(m, i) >= 0 && JavaLo(m, i) + |JavaPart(m, i)| <= Carried(m) <= |data|
    ensures JavaArrived(Splice(data, JavaLo(m, i), JavaPart(m, i)), m, j)
  {
    JavaTiling(m, i);
    JavaTiling(m, j);
    JavaCovers(m, i);
    if i < j { JavaApart(m, i, j); } else if j < i { JavaApart(m, j, i); }
    hide JavaFragmented; hide JavaCount; hide JavaLo; hide JavaHi; hide JavaPart; hide Splice; hide Carried;
    if i == j {
      SpliceHits(data, JavaLo(m, i), JavaPart(m, i));
    } else {
      SpliceSpares(data, JavaLo(m, i), JavaPart(m, i), JavaLo(m, j), JavaHi(m, j));
    }
  }

  /** The fragment that carries byte k. */
  lemma JavaCovering(m: Message, k: nat) returns (i: nat)
    requires JavaFragmented(m) && k < Carried(m)
    ensures i < JavaCount(m) && JavaLo(m, i) <= k < JavaHi(m, i)
  {
    i := (k + |m.channel| + 1) / THRESHOLD;
    LastPiece(m);
    JavaTiling(m, 0);
  }

  /** With everything marked the data is the message, up to the byte nobody sends. */
  lemma AllMarked(b: JavaBuf, m: Message)
    requires JavaHolds(b, m) && b.remaining == 0
    ensures m.data != [] && b.data == AsReceived(m)
  {
    CountZero(b.received);
    assert m.data != [];
    forall k | 0 <= k < Carried(m) ensures b.data[k] == m.data[k] {
      var i := JavaCovering(m, k);
      assert JavaArrived(b.data, m, i);
      assert b.data[JavaLo(m, i)..JavaHi(m, i)][k - JavaLo(m, i)] ==
        m.data[JavaLo(m, i)..JavaHi(m, i)][k - JavaLo(m, i)];
    }
  }
}
