/** What the receiver of FragmentTable makes of the fragments FragmentSender sends. */
module FragmentDelivery {
  import opened Buffers
  import opened Bytes
  import opened FragmentSender
  import opened FragmentTable
  import opened Wrappers

  // ----- one buffer -----

  /** Fragment i's part of the data has arrived. */
  ghost predicate Arrived(data: seq<byte>, m: Message, i: nat)
    requires Fragmented(m) && |data| == |m.data|
  {
    i < Fragments(m) && 0 <= Lo(m, i) <= Hi(m, i) <= |m.data| && data[Lo(m, i)..Hi(m, i)] == m.data[Lo(m, i)..Hi(m, i)]
  }

  /** The buffer after the fragments `got`, each once. */
  ghost predicate Holds(b: FragBuf, m: Message, got: seq<nat>, utime: int) {
    && Fragmented(m)
    && b.channel == m.channel && b.seqno == m.seqno && |b.data| == |m.data| && b.firstUtime == utime
    && 0 < |got| < Fragments(m) && b.remaining == Fragments(m) - |got|
    && forall k :: 0 <= k < |got| ==> Arrived(b.data, m, got[k])
  }

  function PartOf(m: Message, i: nat): seq<byte>
    requires Fragmented(m) && i < Fragments(m)
  {
    if i == 0 then FragmentOf(m, 0).payload[|m.channel| + 1..] else FragmentOf(m, i).payload
  }

  /** Storing a fragment's part leaves what arrived before in place. */
  lemma SpliceArrives(data: seq<byte>, m: Message, i: nat, j: nat)
    requires Fragmented(m) && |data| == |m.data| && i < Fragments(m)
    requires i == j || Arrived(data, m, j)
    ensures Lo(m, i) >= 0 && Lo(m, i) + |PartOf(m, i)| <= |data|
    ensures Arrived(Splice(data, Lo(m, i), PartOf(m, i)), m, j)
  {
    Tiling(m, i);
    Tiling(m, j);
    if i < j { Apart(m, i, j); } else if j < i { Apart(m, j, i); }
    hide Fragmented; hide Fragments; hide Lo; hide Hi; hide PartOf; hide Splice;
    if i == j {
      SpliceHits(data, Lo(m, i), PartOf(m, i));
    } else {
      SpliceSpares(data, Lo(m, i), PartOf(m, i), Lo(m, j), Hi(m, j));
    }
  }

  /** The fragment that carries byte k. */
  function Covering(m: Message, k: nat): (i: nat)
    requires Fragmented(m) && k < |m.data|
    ensures i < Fragments(m) && 0 <= Lo(m, i) <= k < Hi(m, i) <= |m.data|
  {
    var i := (k + |m.channel| + 1) / PIECE;
    Tiling(m, i);
    i
  }

  /** All parts together are the message. */
  lemma AllArrived(data: seq<byte>, m: Message)
    requires Fragmented(m) && |data| == |m.data| && forall i :: 0 <= i < Fragments(m) ==> Arrived(data, m, i)
    ensures data == m.data
  {
    forall k | 0 <= k < |data| ensures data[k] == m.data[k] {
      var i := Covering(m, k);
      assert Arrived(data, m, i);
      assert data[Lo(m, i)..Hi(m, i)][k - Lo(m, i)] == m.data[Lo(m, i)..Hi(m, i)][k - Lo(m, i)];
    }
  }

  // ----- one datagram -----

  /** e brings fragment i of m. */
  predicate Brings(e: Event, m: Message, i: nat) {
    Fragmented(m) && i < Fragments(m) && e.frag == FragmentOf(m, i) && (i == 0 ==> e.subscribed)
  }

  lemma BringsOk(e: Event, m: Message, i: nat)
    requires Brings(e, m, i)
    ensures PacketOk(e.frag) && e.frag.msgSize == |m.data| <= MAX_MESSAGE && e.frag.offset == Lo(m, i)
    ensures i == 0 ==> Strlen(e.frag.payload) == |m.channel| && e.frag.payload[..|m.channel|] == m.channel
    ensures i == 0 ==> e.frag.payload[|m.channel| + 1..] == PartOf(m, 0)
  {
    FirstPayload(m);
    if i == 0 { StrlenIs(e.frag.payload, m.channel); }
  }

  /** No unfinished message of this sender could be mistaken for m. */
  predicate NotUnderWay(t: Table, a: Addr, m: Message) {
    a !in t.bufs || t.bufs[a].seqno != m.seqno || |t.bufs[a].data| != |m.data|
  }

  /** What Store does to the buffer, with the countdown not at its end. */
  lemma StoreEffect(t: Table, a: Addr, offset: nat, part: seq<byte>, now: int)
    requires a in t.bufs && 0 < t.bufs[a].remaining < 0x1_0000
    ensures var (t', d) := Store(t, a, offset, part, now);
      var b := t.bufs[a];
      if offset + |part| > |b.data| then a !in t'.bufs && d == None
      else
        var data := Splice(b.data, offset, part);
        if b.remaining == 1 then a !in t'.bufs && d == Some(Delivery(a, b.channel, data, b.firstUtime))
        else
          && a in t'.bufs && d == None
          && t'.bufs[a] == b.(data := data, lastTime := now, remaining := b.remaining - 1)
  {}

  lemma KnownGoes(t: Table, e: Event)
    requires Enabled(t, e) && e.from in t.bufs && !Stale(t, e.from, e.frag) && e.frag.msgSize <= MAX_MESSAGE
    ensures Receive(t, e) == Store(t, e.from, e.frag.offset, e.frag.payload, e.now)
  {
    hide Store;
  }

  lemma UnknownDrops(t: Table, e: Event)
    requires Enabled(t, e) && e.from !in t.bufs && e.frag.no != 0
    ensures Receive(t, e) == (t, None)
  {}

  /** Fragment 0 opens a buffer. */
  lemma FirstOpens(t: Table, e: Event, m: Message)
    requires Enabled(t, e) && Brings(e, m, 0) && NotUnderWay(t, e.from, m)
    ensures var b := FragBuf(m.channel, e.junk, Fragments(m), m.seqno, e.now, e.utime);
      var t1 := DropStale(t, e.from, e.frag);
      ValidEviction(t1, e.victims)
        && Receive(t, e) == Store(Insert(Evict(t1, e.victims), e.from, b), e.from, 0, PartOf(m, 0), e.now)
  {
    BringsOk(e, m, 0);
    hide Store; hide Strlen; hide PartOf; hide ValidEviction; hide Evict;
  }

  lemma BringsSizes(e: Event, m: Message, i: nat)
    requires Brings(e, m, i)
    ensures e.frag.no == i && e.frag.seqno == m.seqno && 0 < Fragments(m) <= MAX_FRAGMENTS
      && (i > 0 ==> e.frag.payload == PartOf(m, i))
    ensures e.frag.payload == FragmentOf(m, i).payload && e.frag.offset == Lo(m, i)
  {}

  lemma FirstArrives(t: Table, e: Event, m: Message)
    requires Enabled(t, e) && Brings(e, m, 0) && NotUnderWay(t, e.from, m)
    ensures var (t', d) := Receive(t, e);
      if Fragments(m) == 1 then d == Some(Delivery(e.from, m.channel, m.data, e.utime)) && e.from !in t'.bufs
      else d == None && e.from in t'.bufs && Holds(t'.bufs[e.from], m, [0], e.utime)
  {
    FirstOpens(t, e, m);
    BringsOk(e, m, 0);
    BringsSizes(e, m, 0);
    SpliceArrives(e.junk, m, 0, 0);
    var t1 := Evict(DropStale(t, e.from, e.frag), e.victims);
    hide Receive; hide Store; hide Brings; hide PartOf; hide Splice; hide Arrived;
    StoreEffect(Insert(t1, e.from, FragBuf(m.channel, e.junk, Fragments(m), m.seqno, e.now, e.utime)), e.from, 0,
      PartOf(m, 0), e.now);
    var data := Splice(e.junk, 0, PartOf(m, 0));
    if Fragments(m) == 1 { AllArrived(data, m); }
  }

  /** Each further fragment is put in its place; the last one delivers the message. */
  lemma NextArrives(t: Table, e: Event, m: Message, i: nat, got: seq<nat>, utime: int)
    requires Enabled(t, e) && Brings(e, m, i) && i != 0
    requires e.from in t.bufs && Holds(t.bufs[e.from], m, got, utime)
    requires |got| + 1 == Fragments(m) ==> forall j :: 0 <= j < Fragments(m) ==> j in got + [i]
    ensures var (t', d) := Receive(t, e);
      if |got| + 1 == Fragments(m) then d == Some(Delivery(e.from, m.channel, m.data, utime)) && e.from !in t'.bufs
      else d == None && e.from in t'.bufs && Holds(t'.bufs[e.from], m, got + [i], utime)
  {
    BringsOk(e, m, i);
    BringsSizes(e, m, i);
    var b := t.bufs[e.from];
    KnownGoes(t, e);
    SpliceArrives(b.data, m, i, i);
    hide Receive; hide Store; hide Brings; hide PartOf; hide Splice; hide Arrived; hide Enabled;
    StoreEffect(t, e.from, e.frag.offset, e.frag.payload, e.now);
    var data := Splice(b.data, Lo(m, i), PartOf(m, i));
    forall k | 0 <= k < |got| ensures Arrived(data, m, got[k]) { SpliceArrives(b.data, m, i, got[k]); }
    assert forall k :: 0 <= k < |got + [i]| ==> Arrived(data, m, (got + [i])[k]);
    if |got| + 1 == Fragments(m) {
      forall j | 0 <= j < Fragments(m) ensures Arrived(data, m, j) { assert j in got + [i]; }
      AllArrived(data, m);
    }
  }

  /** Other senders do not touch the buffer unless they evict it. */
  lemma OthersSpare(t: Table, e: Event, a: Addr)
    requires Enabled(t, e) && e.from != a && a !in e.victims
    ensures var (t', d) := Receive(t, e);
      (a in t'.bufs <==> a in t.bufs) && (a in t.bufs ==> t'.bufs[a] == t.bufs[a])
        && (d.Some? ==> d.value.from == e.from)
  {
    if Creates(t, e) { EvictSpares(DropStale(t, e.from, e.frag), e.victims, a); }
  }

  // ----- a whole message -----

  /** Sender a contributes exactly these fragments of m, in this order; whatever
      else arrives comes from others and evicts nothing of a's. */
  predicate Carries(events: seq<Event>, a: Addr, m: Message, order: seq<nat>) {
    if events == [] then order == []
    else if events[0].from == a then
      order != [] && Brings(events[0], m, order[0]) && Carries(events[1..], a, m, order[1..])
    else a !in events[0].victims && Carries(events[1..], a, m, order)
  }

  /** Fragment 0 first, then the others in any order, each once. */
  predicate InOrder(m: Message, order: seq<nat>) {
    && |order| == Fragments(m) > 0 && order[0] == 0
    && (forall k :: 0 <= k < |order| ==> order[k] < Fragments(m))
    && (forall k, l :: 0 <= k < l < |order| ==> order[k] != order[l])
  }

  /** The receive time of the fragment that came first. */
  function FirstUtime(events: seq<Event>, a: Addr): int {
    if events == [] then 0 else if events[0].from == a then events[0].utime else FirstUtime(events[1..], a)
  }

  lemma {:induction false} NothingMore(t: Table, events: seq<Event>, a: Addr, m: Message)
    requires ValidRun(t, events) && Carries(events, a, m, [])
    ensures Deliveries(t, events, a) == []
    decreases |events|
  {
    if events != [] {
      OthersSpare(t, events[0], a);
      hide Receive; hide Enabled;
      NothingMore(Receive(t, events[0]).0, events[1..], a, m);
    }
  }

  function Elements(s: seq<nat>): (r: set<nat>)
    ensures forall x :: x in r <==> x in s
  {
    if s == [] then {} else Elements(s[..|s| - 1]) + {s[|s| - 1]}
  }

  function Below(n: nat): (r: set<nat>)
    ensures |r| == n && forall i: nat :: i in r <==> i < n
  {
    if n == 0 then {} else Below(n - 1) + {n - 1}
  }

  lemma SubsetSize(a: set<nat>, b: set<nat>)
    requires a <= b && |a| == |b|
    ensures a == b
  {
    assert b == a + (b - a) && |b| == |a| + |b - a|;
  }

  lemma {:induction false} DistinctSize(s: seq<nat>)
    requires forall k, l :: 0 <= k < l < |s| ==> s[k] != s[l]
    ensures |Elements(s)| == |s|
  {
    if s != [] { DistinctSize(s[..|s| - 1]); }
  }

  /** n distinct numbers below n are all of them. */
  lemma Pigeonhole(s: seq<nat>, n: nat)
    requires |s| == n && forall k :: 0 <= k < |s| ==> s[k] < n
    requires forall k, l :: 0 <= k < l < |s| ==> s[k] != s[l]
    ensures forall i :: 0 <= i < n ==> i in s
  {
    DistinctSize(s);
    SubsetSize(Elements(s), Below(n));
  }

  lemma RestStep(m: Message, got: seq<nat>, rest: seq<nat>)
    requires InOrder(m, got + rest) && got != [] && rest != []
    ensures rest[0] != 0 && InOrder(m, got + [rest[0]] + rest[1..])
    ensures |rest| == 1 ==> forall j :: 0 <= j < Fragments(m) ==> j in got + [rest[0]]
  {
    assert got + [rest[0]] + rest[1..] == got + rest;
    assert (got + rest)[|got|] == rest[0] && (got + rest)[0] == 0;
    if |rest| == 1 {
      assert got + [rest[0]] == got + rest;
      Pigeonhole(got + rest, Fragments(m));
    }
  }

  /** From the middle: got so far, rest to come. */
  lemma {:induction false} Finishes(t: Table, events: seq<Event>, a: Addr, m: Message, got: seq<nat>, rest: seq<nat>,
      utime: int)
    requires ValidRun(t, events) && Carries(events, a, m, rest) && InOrder(m, got + rest)
    requires a in t.bufs && Holds(t.bufs[a], m, got, utime)
    ensures Deliveries(t, events, a) == [Delivery(a, m.channel, m.data, utime)]
    decreases |events|
  {
    assert |got + rest| == Fragments(m);
    if events == [] {
    } else if events[0].from != a {
      OthersSpare(t, events[0], a);
      hide Receive; hide Enabled; hide Holds;
      Finishes(Receive(t, events[0]).0, events[1..], a, m, got, rest, utime);
    } else {
      RestStep(m, got, rest);
      var i := rest[0];
      NextArrives(t, events[0], m, i, got, utime);
      hide Receive; hide Enabled; hide Holds; hide Brings;
      if |got| + 1 == Fragments(m) {
        assert rest[1..] == [];
        NothingMore(Receive(t, events[0]).0, events[1..], a, m);
      } else {
        Finishes(Receive(t, events[0]).0, events[1..], a, m, got + [i], rest[1..], utime);
      }
    }
  }

  /** Fragment 0 first and the rest in any order, between any traffic of others that
      does not evict it: the message is delivered once, exactly as it was sent. */
  lemma {:induction false} DeliveredOnce(t: Table, events: seq<Event>, a: Addr, m: Message, order: seq<nat>)
    requires ValidRun(t, events) && Carries(events, a, m, order) && InOrder(m, order) && NotUnderWay(t, a, m)
    ensures Deliveries(t, events, a) == [Delivery(a, m.channel, m.data, FirstUtime(events, a))]
    decreases |events|
  {
    if events[0].from != a {
      OthersSpare(t, events[0], a);
      hide Receive; hide Enabled; hide Brings;
      DeliveredOnce(Receive(t, events[0]).0, events[1..], a, m, order);
    } else {
      assert order[0] == 0;
      FirstArrives(t, events[0], m);
      hide Receive; hide Enabled; hide Holds; hide Brings;
      var t' := Receive(t, events[0]).0;
      if Fragments(m) == 1 {
        assert order[1..] == [];
        NothingMore(t', events[1..], a, m);
      } else {
        assert [order[0]] + order[1..] == order;
        Finishes(t', events[1..], a, m, [0], order[1..], events[0].utime);
      }
    }
  }
}
