/** What the C receiver delivers of a message whose fragments come in any order, any
    number of times: every delivery is counted, and said exactly when to be intact. */
module FragmentRounds {
  import opened Buffers
  import opened Bytes
  import opened FragmentDelivery
  import opened FragmentRepeats
  import opened FragmentSender
  import opened FragmentTable
  import opened Wrappers

  // ----- what completes a message -----

  /** The receiver ignores fragments up to the next fragment 0 and then counts to the
      number of fragments: the rounds that it takes for messages. */
  function Rounds(order: seq<nat>, n: nat): (r: seq<seq<nat>>)
    requires n > 0
    ensures forall k :: 0 <= k < |r| ==> |r[k]| == n && r[k][0] == 0 && forall j :: 0 <= j < n ==> r[k][j] in order
  {
    if order == [] then []
    else if order[0] != 0 then Rounds(order[1..], n)
    else if |order| < n then []
    else [order[..n]] + Rounds(order[n..], n)
  }

  /** Fragments 1 that come right behind an odd number of fragments 0; `zeros` came before. */
  function AfterOddZeros(order: seq<nat>, zeros: nat): nat {
    if order == [] then 0
    else if order[0] == 0 then AfterOddZeros(order[1..], zeros + 1)
    else (if zeros % 2 == 1 then 1 else 0) + AfterOddZeros(order[1..], 0)
  }

  lemma CountPositive(m: Message)
    requires Fragmented(m)
    ensures 0 < Fragments(m) && (PIECE <= |m.data| ==> 1 < Fragments(m)) && (|m.data| < PIECE ==> Fragments(m) <= 2)
  {}

  /** How many messages the receiver makes of the fragments. A message with less data
      than one piece has one fragment or two; a repeated fragment 0, too long for its
      buffer, gives the buffer up. */
  function Completions(m: Message, order: seq<nat>): nat
    requires NumbersOf(m, order)
  {
    CountPositive(m);
    if PIECE <= |m.data| then |Rounds(order, Fragments(m))|
    else if Fragments(m) == 1 then |order|
    else AfterOddZeros(order, 0)
  }

  // ----- a buffer that is filling up -----

  lemma EmptyTable(t: Table)
    requires Alone(t) && 0 !in t.bufs
    ensures t == EMPTY
  {
    assert t.bufs == map[];
  }

  /** The sender's buffer, with `left` fragments to come. */
  ghost predicate Open(t: Table, m: Message, left: nat) {
    && Alone(t) && 0 in t.bufs && Fragmented(m) && 0 < left < Fragments(m)
    && t.bufs[0].seqno == m.seqno && |t.bufs[0].data| == |m.data| && t.bufs[0].remaining == left
  }

  lemma OpenStep(t: Table, m: Message, i: nat, e: Event, left: nat)
    requires Open(t, m, left) && Enabled(t, e) && e.from == 0 && Brings(e, m, i) && Alone(Receive(t, e).0)
    requires PIECE <= |m.data| || i != 0
    ensures var (t', d) := Receive(t, e);
      if left == 1 then d.Some? && d.value.from == 0 && t' == EMPTY else d == None && Open(t', m, left - 1)
  {
    BringsOk(e, m, i);
    BringsSizes(e, m, i);
    KnownGoes(t, e);
    FirstPayload(m);
    Tiling(m, i);
    hide Receive; hide Store; hide Brings; hide Enabled; hide Splice;
    StoreEffect(t, 0, e.frag.offset, e.frag.payload, e.now);
    if left == 1 { EmptyTable(Receive(t, e).0); }
  }

  /** A fragment 0 for a buffer it does not fit into. */
  lemma TooLong(t: Table, m: Message, e: Event, left: nat)
    requires Open(t, m, left) && Enabled(t, e) && e.from == 0 && Brings(e, m, 0) && Alone(Receive(t, e).0)
    requires |m.data| < PIECE
    ensures Receive(t, e).1 == None && Receive(t, e).0 == EMPTY
  {
    BringsOk(e, m, 0);
    BringsSizes(e, m, 0);
    KnownGoes(t, e);
    FirstPayload(m);
    hide Receive; hide Store; hide Brings; hide Enabled; hide Splice;
    StoreEffect(t, 0, e.frag.offset, e.frag.payload, e.now);
    EmptyTable(Receive(t, e).0);
  }

  lemma OpenStart(m: Message, e: Event)
    requires Enabled(EMPTY, e) && e.from == 0 && Brings(e, m, 0) && Alone(Receive(EMPTY, e).0) && 1 < Fragments(m)
    ensures Receive(EMPTY, e).1 == None && Open(Receive(EMPTY, e).0, m, Fragments(m) - 1)
  {
    FirstArrives(EMPTY, e, m);
  }

  // ----- runs of one sender -----

  ghost function From(t: Table, m: Message, order: seq<nat>, junk: seq<byte>): seq<Delivery>
    requires NumbersOf(m, order) && |junk| == |m.data| && Alone(t)
  {
    FeedRuns(t, m, order, junk);
    Deliveries(t, Feed(m, order, junk), 0)
  }

  lemma FromStep(t: Table, m: Message, order: seq<nat>, junk: seq<byte>)
    requires NumbersOf(m, order) && |junk| == |m.data| && Alone(t) && order != []
    ensures var e := Feed(m, order, junk)[0];
      && Enabled(t, e) && e.from == 0 && Brings(e, m, order[0]) && e.utime == 0
      && Alone(Receive(t, e).0) && NumbersOf(m, order[1..])
      && From(t, m, order, junk) ==
           var (t', d) := Receive(t, e);
           if d.Some? && d.value.from == 0 then [d.value] + From(t', m, order[1..], junk)
           else From(t', m, order[1..], junk)
  {
    FeedStep(t, m, order, junk);
    FeedRuns(t, m, order, junk);
    hide Receive; hide Enabled; hide Brings; hide Alone;
  }

  lemma Parts(m: Message, order: seq<nat>, k: nat)
    requires NumbersOf(m, order) && k <= |order|
    ensures NumbersOf(m, order[..k]) && NumbersOf(m, order[k..])
  {}

  /** With `left` fragments to come, the next `left` ones of any numbers complete it. */
  lemma {:induction false} CountDown(t: Table, m: Message, order: seq<nat>, junk: seq<byte>, left: nat)
    requires NumbersOf(m, order) && |junk| == |m.data| && PIECE <= |m.data| && Open(t, m, left)
    ensures |order| < left ==> From(t, m, order, junk) == []
    ensures left <= |order| ==>
      && NumbersOf(m, order[..left]) && NumbersOf(m, order[left..])
      && |From(t, m, order[..left], junk)| == 1
      && From(t, m, order, junk) == From(t, m, order[..left], junk) + From(EMPTY, m, order[left..], junk)
    decreases |order|
  {
    if order != [] {
      var e := Feed(m, order, junk)[0];
      FromStep(t, m, order, junk);
      OpenStep(t, m, order[0], e, left);
      var t' := Receive(t, e).0;
      if left <= |order| {
        Parts(m, order, left);
        FromStep(t, m, order[..left], junk);
        assert order[..left][1..] == order[1..][..left - 1] && order[left..] == order[1..][left - 1..];
        assert Feed(m, order[..left], junk)[0] == e;
      }
      hide Receive; hide Enabled; hide Brings; hide Alone; hide From; hide Feed;
      if left > 1 { CountDown(t', m, order[1..], junk, left - 1); }
    }
  }

  lemma RoundNumbers(m: Message, order: seq<nat>, k: nat)
    requires NumbersOf(m, order) && 0 < Fragments(m) && k < |Rounds(order, Fragments(m))|
    ensures NumbersOf(m, Rounds(order, Fragments(m))[k])
  {
    var round := Rounds(order, Fragments(m))[k];
    forall j | 0 <= j < |round| ensures round[j] < Fragments(m) { assert round[j] in order; }
  }

  /** Fragment 0 and the ones behind it. */
  lemma FirstRound(m: Message, order: seq<nat>, junk: seq<byte>)
    requires NumbersOf(m, order) && |junk| == |m.data| && PIECE <= |m.data| && order != [] && order[0] == 0
    ensures |order| < Fragments(m) ==> From(EMPTY, m, order, junk) == []
    ensures var n := Fragments(m); n <= |order| ==>
      && NumbersOf(m, order[..n]) && NumbersOf(m, order[n..])
      && |From(EMPTY, m, order[..n], junk)| == 1
      && From(EMPTY, m, order, junk) == From(EMPTY, m, order[..n], junk) + From(EMPTY, m, order[n..], junk)
  {
    var n := Fragments(m);
    CountPositive(m);
    var e := Feed(m, order, junk)[0];
    FromStep(EMPTY, m, order, junk);
    OpenStart(m, e);
    CountDown(Receive(EMPTY, e).0, m, order[1..], junk, n - 1);
    if n <= |order| {
      Parts(m, order, n);
      FromStep(EMPTY, m, order[..n], junk);
      assert order[..n][1..] == order[1..][..n - 1] && order[n..] == order[1..][n - 1..];
      assert Feed(m, order[..n], junk)[0] == e;
    }
    hide *;
  }

  /** Without fragment 0 there is no buffer. */
  lemma NotYet(m: Message, order: seq<nat>, junk: seq<byte>)
    requires NumbersOf(m, order) && |junk| == |m.data| && 0 < Fragments(m) && order != [] && order[0] != 0
    ensures NumbersOf(m, order[1..]) && From(EMPTY, m, order, junk) == From(EMPTY, m, order[1..], junk)
    ensures Rounds(order, Fragments(m)) == Rounds(order[1..], Fragments(m))
  {
    FromStep(EMPTY, m, order, junk);
    hide From;
    UnknownDrops(EMPTY, Feed(m, order, junk)[0]);
  }

  lemma RoundsStep(order: seq<nat>, n: nat)
    requires n > 0 && order != [] && order[0] == 0
    ensures Rounds(order, n) == if |order| < n then [] else [order[..n]] + Rounds(order[n..], n)
  {}

  /** What is delivered is what the rounds deliver, one message a round. */
  lemma {:induction false} RoundByRound(m: Message, order: seq<nat>, junk: seq<byte>, k: nat)
    requires NumbersOf(m, order) && |junk| == |m.data| && PIECE <= |m.data| && 0 < Fragments(m)
    ensures |From(EMPTY, m, order, junk)| == |Rounds(order, Fragments(m))|
    ensures k < |Rounds(order, Fragments(m))| ==>
      var round := Rounds(order, Fragments(m))[k];
      && NumbersOf(m, round) && |From(EMPTY, m, round, junk)| == 1
      && From(EMPTY, m, order, junk)[k] == From(EMPTY, m, round, junk)[0]
    decreases |order|
  {
    var n := Fragments(m);
    if order == [] {
      assert From(EMPTY, m, order, junk) == [];
    } else if order[0] != 0 {
      NotYet(m, order, junk);
    } else {
      FirstRound(m, order, junk);
      RoundsStep(order, n);
    }
    assert order == [] ==> Rounds(order, n) == [];
    hide *;
    if order != [] {
      if order[0] != 0 {
        RoundByRound(m, order[1..], junk, k);
      } else if n <= |order| {
        RoundByRound(m, order[n..], junk, if k == 0 then 0 else k - 1);
      }
    }
  }

  // ----- messages with less data than a piece -----

  function Copies(d: Delivery, n: nat): (r: seq<Delivery>)
    ensures |r| == n && forall i :: 0 <= i < n ==> r[i] == d
  {
    seq(n, i => d)
  }

  lemma OneMore(d: Delivery, n: nat)
    ensures [d] + Copies(d, n) == Copies(d, n + 1)
  {}

  /** A two-fragment message: fragment 0 opens the buffer or gives it up, fragment 1
      completes it or is dropped. */
  lemma SmallStep(t: Table, m: Message, e: Event, i: nat, open: bool)
    requires |m.data| < PIECE && Fragments(m) == 2 && Alone(t)
    requires Enabled(t, e) && e.from == 0 && e.utime == 0 && Brings(e, m, i) && Alone(Receive(t, e).0)
    requires if open then 0 in t.bufs && Holds(t.bufs[0], m, [0], 0) else t == EMPTY
    ensures var (t', d) := Receive(t, e);
      && d == (if open && i == 1 then Some(Delivery(0, m.channel, m.data, 0)) else None)
      && if i == 0 && !open then 0 in t'.bufs && Holds(t'.bufs[0], m, [0], 0) else t' == EMPTY
  {
    hide Receive; hide Enabled; hide Arrived; hide Splice;
    if i == 0 {
      if open { TooLong(t, m, e, 1); } else { FirstArrives(t, e, m); }
    } else if open {
      NextArrives(t, e, m, 1, [0], 0);
      EmptyTable(Receive(t, e).0);
    } else {
      BringsSizes(e, m, i);
      UnknownDrops(t, e);
    }
  }

  lemma SmallNext(t: Table, m: Message, order: seq<nat>, junk: seq<byte>, open: bool) returns (t': Table)
    requires NumbersOf(m, order) && |junk| == |m.data| && |m.data| < PIECE && Fragments(m) == 2 && Alone(t)
      && order != []
    requires if open then 0 in t.bufs && Holds(t.bufs[0], m, [0], 0) else t == EMPTY
    ensures Alone(t') && NumbersOf(m, order[1..])
    ensures if order[0] == 0 && !open then 0 in t'.bufs && Holds(t'.bufs[0], m, [0], 0) else t' == EMPTY
    ensures From(t, m, order, junk) ==
      if order[0] != 0 && open then [Delivery(0, m.channel, m.data, 0)] + From(t', m, order[1..], junk)
      else From(t', m, order[1..], junk)
  {
    var e := Feed(m, order, junk)[0];
    FromStep(t, m, order, junk);
    hide Receive; hide Brings; hide Feed; hide From; hide Enabled; hide Alone; hide Holds;
    SmallStep(t, m, e, order[0], open);
    t' := Receive(t, e).0;
  }

  lemma OddStep(order: seq<nat>, zeros: nat)
    requires order != []
    ensures order[0] == 0 ==>
      AfterOddZeros(order, zeros) == AfterOddZeros(order[1..], zeros + 1) && (zeros % 2 == 1 <==> (zeros + 1) % 2 != 1)
    ensures order[0] != 0 ==>
      AfterOddZeros(order, zeros) == (if zeros % 2 == 1 then 1 else 0) + AfterOddZeros(order[1..], 0)
  {}

  /** Fragments of a two-fragment message: nothing but the message is ever delivered. */
  lemma {:induction false} SmallRun(t: Table, m: Message, order: seq<nat>, junk: seq<byte>, zeros: nat)
    requires NumbersOf(m, order) && |junk| == |m.data| && |m.data| < PIECE && Fragments(m) == 2 && Alone(t)
    requires if zeros % 2 == 1 then 0 in t.bufs && Holds(t.bufs[0], m, [0], 0) else t == EMPTY
    ensures From(t, m, order, junk) == Copies(Delivery(0, m.channel, m.data, 0), AfterOddZeros(order, zeros))
    decreases |order|
  {
    if order == [] {
      assert From(t, m, order, junk) == Copies(Delivery(0, m.channel, m.data, 0), 0);
    } else {
      OddStep(order, zeros);
      hide *;
      var t' := SmallNext(t, m, order, junk, zeros % 2 == 1);
      SmallRun(t', m, order[1..], junk, if order[0] == 0 then zeros + 1 else 0);
      OneMore(Delivery(0, m.channel, m.data, 0), AfterOddZeros(order[1..], 0));
    }
  }

  lemma SingleNext(m: Message, order: seq<nat>, junk: seq<byte>)
    requires NumbersOf(m, order) && |junk| == |m.data| && Fragments(m) == 1 && order != []
    ensures NumbersOf(m, order[1..])
    ensures From(EMPTY, m, order, junk) == [Delivery(0, m.channel, m.data, 0)] + From(EMPTY, m, order[1..], junk)
  {
    hide Receive; hide Brings; hide Enabled; hide Holds; hide From; hide Arrived;
    FromStep(EMPTY, m, order, junk);
    var e := Feed(m, order, junk)[0];
    assert order[0] == 0;
    FirstArrives(EMPTY, e, m);
    EmptyTable(Receive(EMPTY, e).0);
  }

  lemma {:induction false} SingleRun(m: Message, order: seq<nat>, junk: seq<byte>)
    requires NumbersOf(m, order) && |junk| == |m.data| && Fragments(m) == 1
    ensures From(EMPTY, m, order, junk) == Copies(Delivery(0, m.channel, m.data, 0), |order|)
    decreases |order|
  {
    if order != [] {
      SingleNext(m, order, junk);
    } else {
      assert From(EMPTY, m, order, junk) == [];
    }
    hide *;
    if order != [] {
      SingleRun(m, order[1..], junk);
      OneMore(Delivery(0, m.channel, m.data, 0), |order| - 1);
    }
  }

  // ----- every delivery -----

  /** However fragments are lost, repeated and reordered, the receiver makes this many
      messages of them. */
  lemma DeliveryCount(m: Message, order: seq<nat>, junk: seq<byte>)
    requires NumbersOf(m, order) && |junk| == |m.data|
    ensures |Received(m, order, junk)| == Completions(m, order)
  {
    CountPositive(m);
    assert Received(m, order, junk) == From(EMPTY, m, order, junk);
    hide From;
    if PIECE <= |m.data| { RoundByRound(m, order, junk, 0); }
    else if Fragments(m) == 1 { SingleRun(m, order, junk); }
    else { SmallRun(EMPTY, m, order, junk, 0); }
  }

  /** Whatever the bytes and whatever malloc leaves in the buffers, there is a k-th
      delivery and it is the message as it was sent. */
  ghost predicate IntactAt(m: Message, order: seq<nat>, k: nat)
    requires NumbersOf(m, order)
  {
    forall data: seq<byte>, junk: seq<byte> {:trigger Received(m.(data := data), order, junk)} ::
      |data| == |junk| == |m.data| ==>
      var r := Received(m.(data := data), order, junk);
      k < |r| && r[k] == Delivery(0, m.channel, data, 0)
  }

  predicate NoRepeat(round: seq<nat>) { forall i, j :: 0 <= i < j < |round| ==> round[i] != round[j] }

  lemma SmallIntact(m: Message, order: seq<nat>, k: nat)
    requires NumbersOf(m, order) && |m.data| < PIECE && k < Completions(m, order)
    ensures IntactAt(m, order, k)
  {
    forall data: seq<byte>, junk: seq<byte> | |data| == |junk| == |m.data|
      ensures var r := Received(m.(data := data), order, junk); k < |r| && r[k] == Delivery(0, m.channel, data, 0)
    {
      var m' := m.(data := data);
      CountPositive(m');
      var r := Received(m', order, junk);
      assert r == From(EMPTY, m', order, junk);
      DeliveryCount(m', order, junk);
      hide From; hide Received;
      assert Completions(m', order) == Completions(m, order);
      if Fragments(m) == 1 { SingleRun(m', order, junk); } else { SmallRun(EMPTY, m', order, junk, 0); }
    }
  }

  lemma SameAsRound(m: Message, order: seq<nat>, junk: seq<byte>, k: nat, round: seq<nat>)
    requires NumbersOf(m, order) && |junk| == |m.data| && PIECE <= |m.data| && 0 < Fragments(m)
    requires k < |Rounds(order, Fragments(m))| && round == Rounds(order, Fragments(m))[k]
    ensures NumbersOf(m, round) && k < |Received(m, order, junk)| && |Received(m, round, junk)| == 1
    ensures Received(m, order, junk)[k] == Received(m, round, junk)[0]
  {
    RoundNumbers(m, order, k);
    RoundByRound(m, order, junk, k);
    assert Received(m, order, junk) == From(EMPTY, m, order, junk)
      && Received(m, round, junk) == From(EMPTY, m, round, junk);
  }

  lemma GoodRound(m: Message, order: seq<nat>, k: nat, round: seq<nat>)
    requires NumbersOf(m, order) && PIECE <= |m.data| && 0 < Fragments(m) && k < |Rounds(order, Fragments(m))|
    requires round == Rounds(order, Fragments(m))[k] && NumbersOf(m, round) && RoundIntact(m, round)
    ensures IntactAt(m, order, k)
  {
    hide Received; hide Rounds;
    forall data: seq<byte>, junk: seq<byte> | |data| == |junk| == |m.data|
      ensures var r := Received(m.(data := data), order, junk); k < |r| && r[k] == Delivery(0, m.channel, data, 0)
    {
      SameAsRound(m.(data := data), order, junk, k, round);
      assert Received(m.(data := data), round, junk) == [Delivery(0, m.channel, data, 0)];
    }
  }

  lemma GoodDelivery(m: Message, order: seq<nat>, k: nat, round: seq<nat>)
    requires NumbersOf(m, order) && PIECE <= |m.data| && 0 < Fragments(m) && k < |Rounds(order, Fragments(m))|
    requires round == Rounds(order, Fragments(m))[k] && NumbersOf(m, round) && IntactAt(m, order, k)
    ensures RoundIntact(m, round)
  {
    hide Received; hide Rounds;
    forall data: seq<byte>, junk: seq<byte> | |data| == |junk| == |m.data|
      ensures Received(m.(data := data), round, junk) == [Delivery(0, m.channel, data, 0)]
    {
      SameAsRound(m.(data := data), order, junk, k, round);
      assert Received(m.(data := data), order, junk)[k] == Delivery(0, m.channel, data, 0);
    }
  }

  lemma LargeIntact(m: Message, order: seq<nat>, k: nat)
    requires NumbersOf(m, order) && PIECE <= |m.data| && 0 < Fragments(m) && k < |Rounds(order, Fragments(m))|
    ensures IntactAt(m, order, k) <==> NoRepeat(Rounds(order, Fragments(m))[k])
  {
    var round := Rounds(order, Fragments(m))[k];
    RoundNumbers(m, order, k);
    RoundIntactExactly(m, round);
    hide RoundIntact; hide IntactAt;
    assert InOrder(m, round) <==> NoRepeat(round);
    if NoRepeat(round) {
      GoodRound(m, order, k, round);
    } else if IntactAt(m, order, k) {
      GoodDelivery(m, order, k, round);
    }
  }

  /** The k-th delivery is intact whatever the bytes exactly when the k-th round comes to
      its end and repeats no fragment. Messages with less data than one piece are always
      intact when they are delivered. */
  lemma IntactExactly(m: Message, order: seq<nat>, k: nat)
    requires NumbersOf(m, order)
    ensures IntactAt(m, order, k) <==>
      k < Completions(m, order) && (PIECE <= |m.data| ==> NoRepeat(Rounds(order, Fragments(m))[k]))
  {
    CountPositive(m);
    var junk: seq<byte> := seq(|m.data|, i => 0);
    DeliveryCount(m, order, junk);
    assert m.(data := m.data) == m;
    if k < Completions(m, order) {
      if PIECE <= |m.data| { LargeIntact(m, order, k); } else { SmallIntact(m, order, k); }
    }
  }
}
