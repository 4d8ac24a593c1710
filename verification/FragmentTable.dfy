/** Receiving in upstream/lcm/lcm_udp.c: one fragment buffer per sender, put together
    from whatever order the fragments come in, with a bound on the memory held. */
module FragmentTable {
  import opened Buffers
  import opened Bytes
  import opened FragmentSender
  import opened Wrappers

  const MAX_MESSAGE := 0x1000_0000      // LCM_MAX_MESSAGE_SIZE, 1 << 28
  const MAX_TOTAL := 0x100_0000         // frag_bufs_max_total_size, 1 << 24
  const MAX_BUFS := 1000                // max_n_frag_bufs

  type Addr = nat                       // sockaddr_in of the sender

  /** lcm_frag_buf_t; data_size is |data|. */
  datatype FragBuf = FragBuf(channel: seq<byte>, data: seq<byte>, remaining: nat, seqno: int, lastTime: int,
    firstUtime: int)

  /** frag_bufs and frag_bufs_total_size. */
  datatype Table = Table(bufs: map<Addr, FragBuf>, total: nat)

  const EMPTY := Table(map[], 0)

  datatype Delivery = Delivery(from: Addr, channel: seq<byte>, data: seq<byte>, utime: int)

  /** One datagram with a fragment: the sender, clock readings, what malloc left in a
      fresh buffer, the buffers evicted for it, and whether the channel has handlers. */
  datatype Event = Event(from: Addr, frag: Fragment, now: int, utime: int, junk: seq<byte>, victims: seq<Addr>,
    subscribed: bool)

  /** strlen */
  function Strlen(s: seq<byte>): (r: nat)
    requires 0 in s
    ensures r < |s| && s[r] == 0 && 0 !in s[..r]
  {
    if s[0] == 0 then 0 else 1 + Strlen(s[1..])
  }

  lemma {:induction false} StrlenIs(s: seq<byte>, c: seq<byte>)
    requires |c| < |s| && s[..|c|] == c && 0 !in c && s[|c|] == 0
    ensures 0 in s && Strlen(s) == |c|
  {
    if c != [] {
      assert s[0] == c[0] && s[1..][..|c| - 1] == c[1..];
      StrlenIs(s[1..], c[1..]);
    }
  }

  function Destroy(t: Table, a: Addr): Table
    requires a in t.bufs
  {
    Table(t.bufs - {a}, (t.total - |t.bufs[a].data|) % UINT32)
  }

  predicate OverLimit(t: Table) { t.total > MAX_TOTAL || |t.bufs| > MAX_BUFS }

  predicate LeastRecent(bufs: map<Addr, FragBuf>, v: Addr) {
    v in bufs && forall a :: a in bufs ==> bufs[v].lastTime <= bufs[a].lastTime
  }

  /** The buffers _add_fragment_buffer may throw out: a least recently updated one
      each time, for as long as a limit is exceeded. */
  predicate ValidEviction(t: Table, victims: seq<Addr>)
    decreases |victims|
  {
    if victims == [] then !OverLimit(t)
    else OverLimit(t) && LeastRecent(t.bufs, victims[0]) && ValidEviction(Destroy(t, victims[0]), victims[1..])
  }

  function Evict(t: Table, victims: seq<Addr>): Table
    requires ValidEviction(t, victims)
    decreases |victims|
  {
    if victims == [] then t else Evict(Destroy(t, victims[0]), victims[1..])
  }

  /** A fragment of another message than the one being put together. */
  predicate Stale(t: Table, a: Addr, f: Fragment) {
    a in t.bufs && (t.bufs[a].seqno != f.seqno || |t.bufs[a].data| != f.msgSize)
  }

  function DropStale(t: Table, a: Addr, f: Fragment): Table {
    if Stale(t, a, f) then Destroy(t, a) else t
  }

  /** Packets whose fragment 0 holds a terminated channel name. */
  predicate PacketOk(f: Fragment) {
    (f.no == 0 ==> 0 in f.payload) && f.offset + |f.payload| < UINT32 && f.count <= MAX_FRAGMENTS
  }

  /** Does this fragment make a new buffer? */
  predicate Creates(t: Table, e: Event)
    requires PacketOk(e.frag)
  {
    e.frag.msgSize <= MAX_MESSAGE && e.from !in DropStale(t, e.from, e.frag).bufs && e.frag.no == 0
      && Strlen(e.frag.payload) <= MAX_CHANNEL && e.subscribed
  }

  predicate Enabled(t: Table, e: Event) {
    && PacketOk(e.frag) && |e.junk| == e.frag.msgSize
    && if Creates(t, e) then ValidEviction(DropStale(t, e.from, e.frag), e.victims) else e.victims == []
  }

  function NewBuffer(e: Event): FragBuf
    requires 0 in e.frag.payload
  {
    FragBuf(e.frag.payload[..Strlen(e.frag.payload)], e.junk, e.frag.count, e.frag.seqno, e.now, e.utime)
  }

  function Insert(t: Table, a: Addr, b: FragBuf): Table {
    Table(t.bufs[a := b], (t.total + |b.data|) % UINT32)
  }

  /** The copy into the buffer and the countdown, for the data part of a packet. */
  function Store(t: Table, a: Addr, offset: nat, part: seq<byte>, now: int): (Table, Option<Delivery>)
    requires a in t.bufs
  {
    var b := t.bufs[a];
    if offset + |part| > |b.data| then (Destroy(t, a), None)
    else
      var b' := b.(data := Splice(b.data, offset, part), lastTime := now, remaining := (b.remaining - 1) % 0x1_0000);
      var t' := t.(bufs := t.bufs[a := b']);
      if b'.remaining == 0 then (Destroy(t', a), Some(Delivery(a, b'.channel, b'.data, b'.firstUtime))) else (t', None)
  }

  /** _recv_message_fragment */
  function Receive(t: Table, e: Event): (Table, Option<Delivery>)
    requires Enabled(t, e)
  {
    var f := e.frag;
    var t1 := DropStale(t, e.from, f);
    if Creates(t, e) then
      Store(Insert(Evict(t1, e.victims), e.from, NewBuffer(e)), e.from, f.offset, f.payload[Strlen(f.payload) + 1..],
        e.now)
    else if f.msgSize > MAX_MESSAGE || e.from !in t1.bufs then (t1, None)
    else Store(t1, e.from, f.offset, f.payload, e.now)
  }

  // ----- the memory held -----

  /** The sum of data_size over the table. */
  ghost function SumSizes(bufs: map<Addr, FragBuf>): nat
    decreases |bufs|
  {
    if bufs == map[] then 0
    else
      var a :| a in bufs;
      |bufs[a].data| + SumSizes(bufs - {a})
  }

  lemma {:induction false} SumRemove(bufs: map<Addr, FragBuf>, a: Addr)
    requires a in bufs
    ensures SumSizes(bufs) == |bufs[a].data| + SumSizes(bufs - {a})
    decreases |bufs|
  {
    var b :| b in bufs && SumSizes(bufs) == |bufs[b].data| + SumSizes(bufs - {b});
    if a != b {
      SumRemove(bufs - {b}, a);
      SumRemove(bufs - {a}, b);
      assert bufs - {b} - {a} == bufs - {a} - {b};
    }
  }

  lemma SumUpdate(bufs: map<Addr, FragBuf>, a: Addr, b: FragBuf)
    ensures SumSizes(bufs[a := b]) == SumSizes(bufs - {a}) + |b.data|
    ensures SumSizes(bufs) == SumSizes(bufs - {a}) + if a in bufs then |bufs[a].data| else 0
  {
    SumRemove(bufs[a := b], a);
    assert bufs[a := b] - {a} == bufs - {a};
    if a in bufs { SumRemove(bufs, a); } else { assert bufs - {a} == bufs; }
  }

  ghost predicate Bounded(t: Table) {
    t.total == SumSizes(t.bufs) && t.total <= MAX_TOTAL + MAX_MESSAGE && |t.bufs| <= MAX_BUFS + 1
  }

  lemma DestroyKeepsBounds(t: Table, a: Addr)
    requires Bounded(t) && a in t.bufs
    ensures Bounded(Destroy(t, a)) && Destroy(t, a).total == t.total - |t.bufs[a].data|
      && |Destroy(t, a).bufs| == |t.bufs| - 1
  {
    SumRemove(t.bufs, a);
    assert (t.bufs - {a}).Keys == t.bufs.Keys - {a};
  }

  lemma {:induction false} EvictKeepsBounds(t: Table, victims: seq<Addr>)
    requires Bounded(t) && ValidEviction(t, victims)
    ensures Bounded(Evict(t, victims)) && !OverLimit(Evict(t, victims))
    decreases |victims|
  {
    if victims != [] {
      DestroyKeepsBounds(t, victims[0]);
      EvictKeepsBounds(Destroy(t, victims[0]), victims[1..]);
    }
  }

  /** Eviction leaves the other buffers alone. */
  lemma {:induction false} EvictSpares(t: Table, victims: seq<Addr>, a: Addr)
    requires ValidEviction(t, victims)
    ensures a in Evict(t, victims).bufs <==> a in t.bufs && a !in victims
    ensures a in t.bufs && a !in victims ==> Evict(t, victims).bufs[a] == t.bufs[a]
    decreases |victims|
  {
    if victims != [] {
      EvictSpares(Destroy(t, victims[0]), victims[1..], a);
    }
  }

  /** The buffers left when these senders' buffers are thrown out. */
  function Without(bufs: map<Addr, FragBuf>, victims: seq<Addr>): map<Addr, FragBuf> {
    bufs - (set v | v in victims)
  }

  lemma WithoutFirst(t: Table, victims: seq<Addr>, k: nat)
    requires 0 < k <= |victims| && victims[0] in t.bufs
    ensures Without(Destroy(t, victims[0]).bufs, victims[1..][..k - 1]) == Without(t.bufs, victims[..k])
  {
    assert victims[..k] == [victims[0]] + victims[1..][..k - 1];
  }

  /** A buffer is thrown out only while those left hold more than 16 MiB or are more than
      1000, and then it is one of those not touched the longest; in the end neither limit
      is exceeded. */
  lemma {:induction false} EvictsExactly(t: Table, victims: seq<Addr>, k: nat)
    requires Bounded(t) && ValidEviction(t, victims) && k <= |victims|
    ensures var left := Without(t.bufs, victims[..k]);
      (k == |victims| <==> SumSizes(left) <= 0x100_0000 && |left| <= 1000)
      && (k < |victims| ==> LeastRecent(left, victims[k]))
    decreases k
  {
    if k == 0 {
      assert Without(t.bufs, victims[..0]) == t.bufs;
    } else {
      DestroyKeepsBounds(t, victims[0]);
      EvictsExactly(Destroy(t, victims[0]), victims[1..], k - 1);
      WithoutFirst(t, victims, k);
    }
  }

  lemma InsertKeepsBounds(t: Table, a: Addr, b: FragBuf)
    requires Bounded(t) && !OverLimit(t) && a !in t.bufs && |b.data| <= MAX_MESSAGE
    ensures Bounded(Insert(t, a, b))
  {
    SumUpdate(t.bufs, a, b);
    assert t.bufs[a := b].Keys == t.bufs.Keys + {a};
  }

  lemma StoreKeepsBounds(t: Table, a: Addr, offset: nat, part: seq<byte>, now: int)
    requires Bounded(t) && a in t.bufs
    ensures Bounded(Store(t, a, offset, part, now).0)
  {
    var b := t.bufs[a];
    if offset + |part| > |b.data| { DestroyKeepsBounds(t, a); }
    else {
      var b' := b.(data := Splice(b.data, offset, part), lastTime := now, remaining := (b.remaining - 1) % 0x1_0000);
      SumUpdate(t.bufs, a, b');
      assert t.bufs[a := b'].Keys == t.bufs.Keys;
      DestroyKeepsBounds(t.(bufs := t.bufs[a := b']), a);
    }
  }

  /** Every datagram, wanted or not, keeps the accounting exact and the memory bounded. */
  lemma ReceiveKeepsBounds(t: Table, e: Event)
    requires Bounded(t) && Enabled(t, e)
    ensures Bounded(Receive(t, e).0)
  {
    var f := e.frag;
    var t1 := DropStale(t, e.from, f);
    if Stale(t, e.from, f) { DestroyKeepsBounds(t, e.from); }
    if Creates(t, e) {
      EvictKeepsBounds(t1, e.victims);
      EvictSpares(t1, e.victims, e.from);
      var t2 := Evict(t1, e.victims);
      InsertKeepsBounds(t2, e.from, NewBuffer(e));
      StoreKeepsBounds(Insert(t2, e.from, NewBuffer(e)), e.from, f.offset, f.payload[Strlen(f.payload) + 1..], e.now);
    } else if e.from in t1.bufs {
      StoreKeepsBounds(t1, e.from, f.offset, f.payload, e.now);
    }
  }

  // ----- runs -----

  predicate ValidRun(t: Table, events: seq<Event>)
    decreases |events|
  {
    events == [] || (Enabled(t, events[0]) && ValidRun(Receive(t, events[0]).0, events[1..]))
  }

  function TableAfter(t: Table, events: seq<Event>): Table
    requires ValidRun(t, events)
    decreases |events|
  {
    if events == [] then t else TableAfter(Receive(t, events[0]).0, events[1..])
  }

  /** What one sender's fragments led to. */
  function Deliveries(t: Table, events: seq<Event>, a: Addr): seq<Delivery>
    requires ValidRun(t, events)
    decreases |events|
  {
    if events == [] then []
    else
      var (t', d) := Receive(t, events[0]);
      if d.Some? && d.value.from == a then [d.value] + Deliveries(t', events[1..], a)
      else Deliveries(t', events[1..], a)
  }

  lemma {:induction false} RunKeepsBounds(t: Table, events: seq<Event>)
    requires Bounded(t) && ValidRun(t, events)
    ensures Bounded(TableAfter(t, events))
    decreases |events|
  {
    if events != [] {
      ReceiveKeepsBounds(t, events[0]);
      RunKeepsBounds(Receive(t, events[0]).0, events[1..]);
    }
  }

  /** A datagram throws out other senders' buffers only if the sum of the sizes or the
      number of buffers is over its limit. */
  lemma NothingEvicted(events: seq<Event>, e: Event)
    requires ValidRun(EMPTY, events) && Enabled(TableAfter(EMPTY, events), e)
    requires var bufs := TableAfter(EMPTY, events).bufs; SumSizes(bufs) <= 0x100_0000 && |bufs| <= 1000
    ensures e.victims == []
  {
    RunKeepsBounds(EMPTY, events);
    var t := TableAfter(EMPTY, events);
    if Stale(t, e.from, e.frag) { DestroyKeepsBounds(t, e.from); }
  }

  // ----- messages nobody subscribed to -----

  /** A datagram adds no buffer but its sender's, and that only if it is the first fragment
      of a message that has subscribers. */
  lemma NewBuffers(t: Table, e: Event, a: Addr)
    requires Enabled(t, e) && a !in t.bufs && (e.from == a ==> !e.subscribed || e.frag.no != 0)
    ensures a !in Receive(t, e).0.bufs
    ensures Receive(t, e).1.Some? ==> Receive(t, e).1.value.from != a
  {
    if Creates(t, e) { EvictSpares(DropStale(t, e.from, e.frag), e.victims, a); }
  }

  /** A first fragment starts a message exactly if its channel is subscribed to and named in
      at most 63 bytes, the size is at most 256 MiB, and the message is not under way. */
  lemma CreatesExactly(t: Table, e: Event, n: nat)
    requires PacketOk(e.frag) && e.frag.no == 0
    requires n < |e.frag.payload| && e.frag.payload[n] == 0 && 0 !in e.frag.payload[..n]
    ensures Creates(t, e) <==>
      && e.subscribed && n <= 63 && e.frag.msgSize <= 0x1000_0000
      && (e.from in t.bufs ==> t.bufs[e.from].seqno != e.frag.seqno || |t.bufs[e.from].data| != e.frag.msgSize)
  {
    StrlenIs(e.frag.payload, e.frag.payload[..n]);
  }

  /** Larger messages are dropped, each fragment of them. */
  lemma HugeIsDropped(t: Table, e: Event)
    requires Enabled(t, e) && e.frag.msgSize > 0x1000_0000
    ensures Receive(t, e).1 == None
    ensures forall a :: a in Receive(t, e).0.bufs ==> a in t.bufs && Receive(t, e).0.bufs[a] == t.bufs[a]
  {}

  /** Fragments on channels without subscribers deliver nothing and leave nothing behind. */
  lemma {:induction false} Unsubscribed(t: Table, events: seq<Event>, a: Addr)
    requires ValidRun(t, events) && a !in t.bufs
    requires forall e :: e in events && e.from == a ==> !e.subscribed
    ensures Deliveries(t, events, a) == [] && a !in TableAfter(t, events).bufs
    decreases |events|
  {
    if events != [] {
      NewBuffers(t, events[0], a);
      hide Receive;
      Unsubscribed(Receive(t, events[0]).0, events[1..], a);
    }
  }

  /** frag_bufs_total_size is the sum of the sizes, so its 32 bits never wrap. */
  lemma MemoryBound(events: seq<Event>)
    requires ValidRun(EMPTY, events)
    ensures var t := TableAfter(EMPTY, events);
      t.total == SumSizes(t.bufs) <= 0x1100_0000 && |t.bufs| <= 1001
  {
    RunKeepsBounds(EMPTY, events);
  }
}
