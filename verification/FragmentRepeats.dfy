/** The C receiver keeps a count of fragments, not a set: what a repeat does to one
    round of fragments, and the short packets beside it. */
module FragmentRepeats {
  import opened Buffers
  import opened Bytes
  import opened FragmentSender
  import opened FragmentTable
  import opened FragmentDelivery
  import opened Wrappers

  /** Fragment numbers a receiver may see for m. */
  predicate NumbersOf(m: Message, order: seq<nat>) {
    Fragmented(m) && forall k :: 0 <= k < |order| ==> order[k] < Fragments(m)
  }

  /** One sender's fragments with nothing in between; malloc returns `junk`. */
  function Feed(m: Message, order: seq<nat>, junk: seq<byte>): seq<Event>
    requires NumbersOf(m, order)
  {
    if order == [] then []
    else [Event(0, FragmentOf(m, order[0]), 0, 0, junk, [], true)] + Feed(m, order[1..], junk)
  }

  /** Nobody else has a buffer. */
  ghost predicate Alone(t: Table) { Bounded(t) && t.bufs.Keys <= {0} }

  lemma NothingHeld()
    ensures SumSizes(map[]) == 0
  {}

  lemma FeedBrings(m: Message, order: seq<nat>, junk: seq<byte>)
    requires NumbersOf(m, order) && order != []
    ensures var es := Feed(m, order, junk);
      es != [] && es[0].from == 0 && es[0].junk == junk && es[0].victims == [] && Brings(es[0], m, order[0])
  {}

  lemma {:induction false} FeedStep(t: Table, m: Message, order: seq<nat>, junk: seq<byte>)
    requires NumbersOf(m, order) && order != [] && |junk| == |m.data| && Alone(t)
    ensures var e := Feed(m, order, junk)[0];
      Enabled(t, e) && Brings(e, m, order[0]) && Alone(Receive(t, e).0)
  {
    hide SumSizes; hide FragmentOf; hide Strlen; hide Feed; hide Brings; hide Fragmented;
    NothingHeld();
    FeedBrings(m, order, junk);
    var e := Feed(m, order, junk)[0];
    BringsOk(e, m, order[0]);
    var t1 := DropStale(t, 0, e.frag);
    if 0 in t.bufs { DestroyKeepsBounds(t, 0); }
    if Creates(t, e) { assert t1.bufs == map[]; }
    ReceiveKeepsBounds(t, e);
  }

  lemma {:induction false} FeedRuns(t: Table, m: Message, order: seq<nat>, junk: seq<byte>)
    requires NumbersOf(m, order) && |junk| == |m.data| && Alone(t)
    ensures ValidRun(t, Feed(m, order, junk)) && Carries(Feed(m, order, junk), 0, m, order)
    decreases |order|
  {
    if order != [] {
      FeedStep(t, m, order, junk);
      FeedRuns(Receive(t, Feed(m, order, junk)[0]).0, m, order[1..], junk);
    }
  }

  /** What a receiver without other traffic delivers. */
  ghost function Received(m: Message, order: seq<nat>, junk: seq<byte>): seq<Delivery>
    requires NumbersOf(m, order) && |junk| == |m.data|
  {
    FeedRuns(EMPTY, m, order, junk);
    Deliveries(EMPTY, Feed(m, order, junk), 0)
  }

  /** Whatever the bytes and whatever malloc leaves in the buffer, the message
      arrives as it was sent. */
  ghost predicate RoundIntact(m: Message, order: seq<nat>)
    requires NumbersOf(m, order)
  {
    forall data: seq<byte>, junk: seq<byte> {:trigger Received(m.(data := data), order, junk)} ::
      |data| == |junk| == |m.data| ==>
      Received(m.(data := data), order, junk) == [Delivery(0, m.channel, data, 0)]
  }

  // ----- repeats do harm -----

  /** Byte 0 or the first byte of the fragment that never came is wrong. */
  predicate Spoiled(data: seq<byte>, m: Message, miss: nat)
    requires Fragmented(m) && 0 < miss < Fragments(m) && |data| == |m.data|
  {
    Tiling(m, miss);
    data[0] != m.data[0] || data[Lo(m, miss)] != m.data[Lo(m, miss)]
  }

  /** With `left` fragments to come, the message cannot be completed correctly. */
  ghost predicate Doomed(t: Table, m: Message, miss: nat, left: nat)
    requires Fragmented(m) && 0 < miss < Fragments(m)
  {
    && Alone(t)
    && (0 !in t.bufs ==> left < Fragments(m))
    && (0 in t.bufs ==>
          var b := t.bufs[0];
          && b.seqno == m.seqno && |b.data| == |m.data| && 0 < b.remaining <= Fragments(m) && left <= b.remaining
          && (left == b.remaining ==> Spoiled(b.data, m, miss)))
  }

  /** The first wire byte differs from the first data byte. */
  predicate Differs(m: Message)
    requires Fragmented(m)
  {
    Tiling(m, 0);
    Wire(m)[0] != m.data[0]
  }

  lemma StaysSpoiled(data: seq<byte>, m: Message, i: nat, miss: nat)
    requires Fragmented(m) && 0 < i < Fragments(m) && 0 < miss < Fragments(m) && i != miss && |data| == |m.data|
      && Spoiled(data, m, miss)
    ensures 0 <= Lo(m, i) && Lo(m, i) + |PartOf(m, i)| <= |data|
      && Spoiled(Splice(data, Lo(m, i), PartOf(m, i)), m, miss)
  {
    Tiling(m, i);
    Tiling(m, miss);
    if i < miss { Apart(m, i, miss); } else { Apart(m, miss, i); }
    SpliceAt(data, Lo(m, i), PartOf(m, i), 0);
    SpliceAt(data, Lo(m, i), PartOf(m, i), Lo(m, miss));
  }

  /** A repeated fragment 0 is copied with its channel name. */
  lemma RepeatSpoils(data: seq<byte>, m: Message, miss: nat)
    requires Fragmented(m) && Differs(m) && 0 < miss < Fragments(m) && |data| == |m.data| && PIECE <= |data|
    ensures |FragmentOf(m, 0).payload| == PIECE && Spoiled(Splice(data, 0, FragmentOf(m, 0).payload), m, miss)
  {
    FirstPayload(m);
    SpliceAt(data, 0, FragmentOf(m, 0).payload, 0);
  }

  lemma SpoiledIsWrong(m: Message, miss: nat)
    requires Fragmented(m) && 0 < miss < Fragments(m)
    ensures forall data: seq<byte> :: |data| == |m.data| && Spoiled(data, m, miss) ==> data != m.data
  {}

  /** A fragment comes to an open buffer. */
  lemma DoomedStore(t: Table, m: Message, miss: nat, i: nat, e: Event, left: nat)
    requires Fragmented(m) && Differs(m) && 0 < miss < Fragments(m) && i != miss && left > 0
    requires Doomed(t, m, miss, left) && 0 in t.bufs && Brings(e, m, i)
    requires var r := Store(t, 0, e.frag.offset, e.frag.payload, e.now); Alone(r.0)
    ensures var r := Store(t, 0, e.frag.offset, e.frag.payload, e.now);
      Doomed(r.0, m, miss, left - 1) && (r.1.Some? ==> r.1.value.data != m.data)
  {
    var b := t.bufs[0];
    BringsSizes(e, m, i);
    FirstPayload(m);
    if i == 0 {
      if PIECE <= |b.data| { RepeatSpoils(b.data, m, miss); }
    } else {
      Tiling(m, i);
      if left == b.remaining { StaysSpoiled(b.data, m, i, miss); }
    }
    assert i == 0 ==> |e.frag.payload| == PIECE;
    StoreEffect(t, 0, e.frag.offset, e.frag.payload, e.now);
    hide Store; hide Splice; hide Brings; hide Alone; hide PartOf; hide FragmentOf;
    SpoiledIsWrong(m, miss);
  }

  /** Fragment 0 opens a buffer too late for it to be filled. */
  lemma DoomedOpen(t: Table, m: Message, miss: nat, e: Event)
    requires Brings(e, m, 0) && 0 < miss < Fragments(m) && |e.junk| == |m.data| && e.from == 0
    requires var t1 := DropStale(t, 0, e.frag); ValidEviction(t1, e.victims)
    ensures var b := FragBuf(m.channel, e.junk, Fragments(m), m.seqno, e.now, e.utime);
      var r := Store(Insert(Evict(DropStale(t, 0, e.frag), e.victims), 0, b), 0, 0, PartOf(m, 0), e.now);
      && r.1 == None && 0 in r.0.bufs && |PartOf(m, 0)| <= |m.data|
      && r.0.bufs[0] == b.(data := Splice(e.junk, 0, PartOf(m, 0)), remaining := Fragments(m) - 1)
  {
    SpliceArrives(e.junk, m, 0, 0);
    BringsSizes(e, m, 0);
    var t1 := Evict(DropStale(t, 0, e.frag), e.victims);
    StoreEffect(Insert(t1, 0, FragBuf(m.channel, e.junk, Fragments(m), m.seqno, e.now, e.utime)), 0, 0, PartOf(m, 0),
      e.now);
  }

  lemma DoomedStep(t: Table, m: Message, miss: nat, i: nat, e: Event, left: nat)
    requires Fragmented(m) && Differs(m) && 0 < miss < Fragments(m) && i != miss && left > 0
    requires Doomed(t, m, miss, left) && Enabled(t, e) && e.from == 0 && Brings(e, m, i) && Alone(Receive(t, e).0)
    ensures Doomed(Receive(t, e).0, m, miss, left - 1)
    ensures Receive(t, e).1.Some? ==> Receive(t, e).1.value.data != m.data
  {
    BringsSizes(e, m, i);
    BringsOk(e, m, i);
    if 0 in t.bufs {
      KnownGoes(t, e);
      DoomedStore(t, m, miss, i, e, left);
    } else if i == 0 {
      hide Receive; hide Enabled; hide Store; hide Brings; hide Alone;
      FirstOpens(t, e, m);
      DoomedOpen(t, m, miss, e);
    } else {
      UnknownDrops(t, e);
    }
  }

  lemma {:induction false} DoomedRun(t: Table, m: Message, miss: nat, order: seq<nat>, junk: seq<byte>)
    requires NumbersOf(m, order) && |junk| == |m.data| && Differs(m) && 0 < miss < Fragments(m) && miss !in order
    requires Doomed(t, m, miss, |order|) && ValidRun(t, Feed(m, order, junk))
    ensures forall d :: d in Deliveries(t, Feed(m, order, junk), 0) ==> d.data != m.data
    decreases |order|
  {
    if order != [] {
      var e := Feed(m, order, junk)[0];
      FeedStep(t, m, order, junk);
      assert order[0] in order;
      DoomedStep(t, m, miss, order[0], e, |order|);
      hide Receive; hide Doomed; hide Brings; hide Enabled; hide Alone;
      DoomedRun(Receive(t, e).0, m, miss, order[1..], junk);
    }
  }

  /** After fragment 0 alone, bytes of the missing fragment are still malloc's. */
  lemma DoomedFromStart(t: Table, e: Event, m: Message, miss: nat)
    requires Alone(t) && 0 !in t.bufs && Enabled(t, e) && e.from == 0 && Brings(e, m, 0) && Alone(Receive(t, e).0)
    requires 0 < miss < Fragments(m) && |e.junk| == |m.data|
    requires forall k :: 0 <= k < |e.junk| ==> e.junk[k] != m.data[k]
    ensures Doomed(Receive(t, e).0, m, miss, Fragments(m) - 1) && Receive(t, e).1 == None
  {
    FirstOpens(t, e, m);
    DoomedOpen(t, m, miss, e);
    BringsSizes(e, m, 0);
    Tiling(m, 0);
    Tiling(m, miss);
    Apart(m, 0, miss);
    SpliceAt(e.junk, 0, PartOf(m, 0), Lo(m, miss));
    hide Receive; hide Store; hide Brings; hide Splice; hide Alone; hide FragmentOf;
    assert Spoiled(Splice(e.junk, 0, PartOf(m, 0)), m, miss);
  }

  lemma {:induction false} ElementsAtMost(s: seq<nat>)
    ensures |Elements(s)| <= |s|
  {
    if s != [] { ElementsAtMost(s[..|s| - 1]); }
  }

  lemma {:induction false} RepeatSize(s: seq<nat>, k: nat, l: nat)
    requires k < l < |s| && s[k] == s[l]
    ensures |Elements(s)| < |s|
  {
    var init := s[..|s| - 1];
    if l == |s| - 1 {
      assert init[k] in Elements(init);
      assert Elements(s) == Elements(init);
      ElementsAtMost(init);
    } else {
      RepeatSize(init, k, l);
    }
  }

  lemma SubsetLess(a: set<nat>, b: set<nat>)
    requires a <= b
    ensures |a| <= |b|
  {
    assert b == a + (b - a) && |b| == |a| + |b - a|;
  }

  /** n numbers with a repeat leave one out. */
  lemma SomeMissing(s: seq<nat>, n: nat, k: nat, l: nat) returns (miss: nat)
    requires |s| == n && k < l < |s| && s[k] == s[l]
    ensures miss < n && miss !in s
  {
    RepeatSize(s, k, l);
    if Below(n) <= Elements(s) { SubsetLess(Below(n), Elements(s)); }
    miss :| miss in Below(n) && miss !in Elements(s);
  }

  /** A message of one repeated byte that no channel name can imitate. */
  function Witness(m: Message): Message {
    var c: byte := if Wire(m)[0] == 1 then 2 else 1;
    m.(data := seq(|m.data|, i => c))
  }

  lemma NotSingle(s: seq<Delivery>, good: Delivery)
    requires forall d :: d in s ==> d.data != good.data
    ensures s != [good]
  {
    assert good !in s && good in [good];
  }

  lemma WitnessDiffers(m: Message)
    requires Fragmented(m)
    ensures var w := Witness(m); Fragmented(w) && Fragments(w) == Fragments(m) && Differs(w)
  {
    var w := Witness(m);
    Tiling(m, 0);
    assert Wire(w)[0] == Wire(m)[0];
  }

  lemma HarmedRun(m: Message, order: seq<nat>, junk: seq<byte>, miss: nat)
    requires NumbersOf(m, order) && |order| == Fragments(m) > 0 && order[0] == 0 && Differs(m)
    requires 0 < miss < Fragments(m) && miss !in order && |junk| == |m.data|
    requires forall k :: 0 <= k < |junk| ==> junk[k] != m.data[k]
    ensures forall d :: d in Received(m, order, junk) ==> d.data != m.data
  {
    var t := EMPTY;
    var e := Feed(m, order, junk)[0];
    FeedStep(t, m, order, junk);
    FeedRuns(t, m, order, junk);
    DoomedFromStart(t, e, m, miss);
    hide Receive; hide Doomed; hide Brings; hide Enabled; hide Alone;
    DoomedRun(Receive(t, e).0, m, miss, order[1..], junk);
  }

  lemma RepeatHarmsRound(m: Message, order: seq<nat>, k: nat, l: nat)
    requires NumbersOf(m, order) && |order| == Fragments(m) > 0 && order[0] == 0
    requires k < l < |order| && order[k] == order[l]
    ensures !RoundIntact(m, order)
  {
    var w := Witness(m);
    var junk: seq<byte> := seq(|m.data|, i => 0);
    var miss := SomeMissing(order, Fragments(m), k, l);
    WitnessDiffers(m);
    assert NumbersOf(w, order);
    HarmedRun(w, order, junk, miss);
    NotSingle(Received(w, order, junk), Delivery(0, m.channel, w.data, 0));
    assert w == m.(data := w.data);
  }

  /** One round, as many fragments as the message has with fragment 0 first: the message
      is sure to arrive intact exactly when none is repeated. */
  lemma RoundIntactExactly(m: Message, order: seq<nat>)
    requires NumbersOf(m, order) && |order| == Fragments(m) && order != [] && order[0] == 0
    ensures RoundIntact(m, order) <==> InOrder(m, order)
  {
    if InOrder(m, order) {
      forall data: seq<byte>, junk: seq<byte> | |data| == |junk| == |m.data|
        ensures Received(m.(data := data), order, junk) == [Delivery(0, m.channel, data, 0)]
      {
        var m' := m.(data := data);
        assert Fragmented(m') && InOrder(m', order);
        var t := EMPTY;
        FeedRuns(t, m', order, junk);
        DeliveredOnce(t, Feed(m', order, junk), 0, m', order);
        assert FirstUtime(Feed(m', order, junk), 0) == 0;
      }
    } else {
      var k, l :| 0 <= k < l < |order| && order[k] == order[l];
      RepeatHarmsRound(m, order, k, l);
    }
  }

  // ----- short packets -----

  /** _recv_short_message for the bytes behind the header: channel and payload. */
  function ReceiveShort(payload: seq<byte>, subscribed: bool): Option<(seq<byte>, seq<byte>)>
    requires 0 in payload
  {
    var n := Strlen(payload);
    if n > MAX_CHANNEL || !subscribed then None else Some((payload[..n], payload[n + 1..]))
  }

  /** A short message is taken exactly if it has subscribers and its channel name, up to the
      first NUL, has at most 63 bytes. */
  lemma ShortTakenExactly(payload: seq<byte>, subscribed: bool, n: nat)
    requires n < |payload| && payload[n] == 0 && 0 !in payload[..n]
    ensures ReceiveShort(payload, subscribed) ==
      if subscribed && n <= 63 then Some((payload[..n], payload[n + 1..])) else None
  {
    StrlenIs(payload, payload[..n]);
  }

  /** Every short packet published comes out as channel and data again. */
  lemma ShortRoundTrip(m: Message)
    requires Sendable(m)
    ensures 0 in Wire(m) && ReceiveShort(Wire(m), true) == Some((m.channel, m.data))
  {
    var w := Wire(m);
    assert w[..|m.channel|] == m.channel && w[|m.channel|] == 0 && w[|m.channel| + 1..] == m.data;
    StrlenIs(w, m.channel);
  }
}
