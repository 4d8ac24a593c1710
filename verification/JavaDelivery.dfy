/** What the Java receiver makes of genuine fragments, however they are repeated,
    lost or reordered. */
module JavaDelivery {
  import opened Buffers
  import opened Bytes
  import opened FragmentSender
  import opened FragmentTable
  import opened JavaFragments

  lemma {:induction false} NameLengthIs(s: seq<byte>, c: seq<byte>)
    requires |c| < |s| && s[..|c|] == c && 0 !in c && s[|c|] == 0
    ensures NameLength(s) == |c|
  {
    if c != [] {
      assert s[0] == c[0] && s[1..][..|c| - 1] == c[1..];
      NameLengthIs(s[1..], c[1..]);
    }
  }

  lemma JavaFragmentFields(m: Message, i: nat)
    requires JavaFragmented(m) && i < JavaCount(m)
    ensures var f := JavaFragmentOf(m, i);
      && f.seqno == m.seqno && f.msgSize == |m.data| && f.no == i && f.count == JavaCount(m) >= 2
        && f.offset == JavaLo(m, i)
      && (i > 0 ==> f.payload == JavaPart(m, i))
      && (i == 0 ==> f.offset == 0 && |f.payload| == THRESHOLD && NameLength(f.payload) == |m.channel|
                     && f.payload[..|m.channel|] == m.channel && f.payload[|m.channel| + 1..] == JavaPart(m, 0))
  {
    JavaPieceInside(m, i);
    if i == 0 {
      JavaPieceInside(m, 1);
      var p := JavaFragmentOf(m, 0).payload;
      assert Wire(m)[..|m.channel|] == m.channel && Wire(m)[|m.channel|] == 0;
      assert p[..|m.channel|] == m.channel && p[|m.channel|] == 0;
      NameLengthIs(p, m.channel);
    }
  }

  /** Marking fragment i, its part copied in. */
  function Mark(b: JavaBuf, m: Message, i: nat): JavaBuf
    requires JavaFragmented(m) && i < JavaCount(m) == |b.received| && |b.data| == |m.data|
  {
    JavaSpliceArrives(b.data, m, i, i);
    b.(received := b.received[i := true], data := Splice(b.data, JavaLo(m, i), JavaPart(m, i)),
      remaining := b.remaining - 1)
  }

  lemma SpliceTail(data: seq<byte>, offset: nat, part: seq<byte>)
    requires offset + |part| <= |data|
    ensures forall k :: offset + |part| <= k < |data| ==> Splice(data, offset, part)[k] == data[k]
  {}

  lemma MarkHolds(b: JavaBuf, m: Message, i: nat)
    requires JavaHolds(b, m) && i < JavaCount(m) && !b.received[i]
    ensures JavaHolds(Mark(b, m, i), m)
  {
    var b' := Mark(b, m, i);
    CountMark(b.received, i);
    JavaSpliceArrives(b.data, m, i, i);
    forall j | 0 <= j < JavaCount(m) && b'.received[j] ensures JavaArrived(b'.data, m, j) {
      JavaSpliceArrives(b.data, m, i, j);
    }
    hide JavaFragmented; hide JavaArrived; hide JavaCount; hide JavaLo; hide JavaPart;
    if !Complete(m) { SpliceTail(b.data, JavaLo(m, i), JavaPart(m, i)); }
  }

  lemma FreshHolds(m: Message)
    requires JavaFragmented(m) && 0 < JavaCount(m)
    ensures JavaHolds(FreshBuf(JavaFragmentOf(m, 0)), m) && FreshBuf(JavaFragmentOf(m, 0)).remaining == JavaCount(m)
    ensures FreshBuf(JavaFragmentOf(m, 0)).received == seq(JavaCount(m), i => false)
  {
    JavaFragmentFields(m, 0);
    CountFresh(JavaCount(m));
  }

  /** No unfinished message of a's under m's number and size, other than m. */
  ghost predicate Ready(t: JavaTable, a: Addr, m: Message) {
    a in t && t[a].seqno == m.seqno && |t[a].data| == |m.data| ==> UnderWay(t[a], m)
  }

  /** Fragments of m that a's buffer has, if there is one for m. */
  predicate Open(t: JavaTable, a: Addr, m: Message) {
    a in t && t[a].seqno == m.seqno && |t[a].data| == |m.data|
  }

  /** A fragment for an open buffer: a repeated fragment 0 drops the buffer exactly
      when the message is shorter than a packet; other repeats change nothing. */
  lemma FragmentComes(t: JavaTable, a: Addr, m: Message, i: nat)
    requires Open(t, a, m) && UnderWay(t[a], m) && i < JavaCount(m)
    ensures var (b, r) := (t[a], JavaReceive(t, a, JavaFragmentOf(m, i)));
      if i == 0 && |m.data| < THRESHOLD then r == (t - {a}, Pending)
      else if b.received[i] then r == (t, Pending)
      else if Mark(b, m, i).remaining == 0 then r == (t - {a}, Got(m.channel, AsReceived(m)))
      else r == (t[a := Mark(b, m, i)], Pending)
    ensures Ready(JavaReceive(t, a, JavaFragmentOf(m, i)).0, a, m)
  {
    JavaFragmentFields(m, i);
    JavaSpliceArrives(t[a].data, m, i, i);
    var (b, f) := (t[a], JavaFragmentOf(m, i));
    if b.received[i] {
      assert t[a := b] == t;
    } else {
      MarkHolds(b, m, i);
      if Mark(b, m, i).remaining == 0 { AllMarked(Mark(b, m, i), m); }
    }
  }

  lemma FirstStored(t: JavaTable, a: Addr, m: Message)
    requires JavaFragmented(m) && !Open(t, a, m) && 0 < JavaCount(m)
    requires JavaHolds(FreshBuf(JavaFragmentOf(m, 0)), m)
      && FreshBuf(JavaFragmentOf(m, 0)).received == seq(JavaCount(m), i => false)
    ensures JavaReceive(t, a, JavaFragmentOf(m, 0)) == (t[a := Mark(FreshBuf(JavaFragmentOf(m, 0)), m, 0)], Pending)
  {
    JavaFragmentFields(m, 0);
    var f, b := JavaFragmentOf(m, 0), FreshBuf(JavaFragmentOf(m, 0));
    JavaSpliceArrives(b.data, m, 0, 0);
    CountFresh(JavaCount(m));
    var t1: JavaTable := if JavaStale(t, a, f) then t - {a} else t;
    var t2: JavaTable := t1[a := b];
    assert t2[a := Mark(b, m, 0)] == t[a := Mark(b, m, 0)];
  }

  /** A fragment when no buffer for m is open: only fragment 0 opens one. */
  lemma FragmentOpens(t: JavaTable, a: Addr, m: Message, i: nat)
    requires JavaFragmented(m) && !Open(t, a, m) && i < JavaCount(m)
    ensures var r := JavaReceive(t, a, JavaFragmentOf(m, i));
      if i == 0 then r == (t[a := Mark(FreshBuf(JavaFragmentOf(m, 0)), m, 0)], Pending) else r == (t - {a}, Pending)
    ensures Ready(JavaReceive(t, a, JavaFragmentOf(m, i)).0, a, m)
    ensures i == 0 ==> Mark(FreshBuf(JavaFragmentOf(m, 0)), m, 0).received == seq(JavaCount(m), j => false)[0 := true]
  {
    JavaFragmentFields(m, i);
    if i == 0 {
      FreshHolds(m);
      FirstStored(t, a, m);
      MarkHolds(FreshBuf(JavaFragmentOf(m, 0)), m, 0);
    } else {
      assert a !in t ==> t - {a} == t;
    }
  }

  // ----- runs -----

  datatype Arrival = Arrival(from: Addr, frag: Fragment)

  datatype Handed = Handed(channel: seq<byte>, data: seq<byte>)

  /** What sender a's packets made the reader thread hand on; an exception ends it. */
  function JavaDeliveries(t: JavaTable, events: seq<Arrival>, a: Addr): seq<Handed>
    decreases |events|
  {
    if events == [] then []
    else
      var (t', o) := JavaReceive(t, events[0].from, events[0].frag);
      match o
      case Thrown => []
      case Pending => JavaDeliveries(t', events[1..], a)
      case Got(channel, data) =>
        if events[0].from == a then [Handed(channel, data)] + JavaDeliveries(t', events[1..], a)
        else JavaDeliveries(t', events[1..], a)
  }

  lemma OthersLeave(t: JavaTable, b: Addr, f: Fragment, a: Addr)
    requires a != b
    ensures var t' := JavaReceive(t, b, f).0; (a in t' <==> a in t) && (a in t ==> t'[a] == t[a])
  {}

  /** f is a fragment of the message sent under its number. */
  ghost predicate Genuine(f: Fragment, sent: map<int, Message>) {
    f.seqno in sent && var m := sent[f.seqno];
      m.seqno == f.seqno && JavaFragmented(m) && f.no < JavaCount(m) && f == JavaFragmentOf(m, f.no)
  }

  /** Sender a's buffer, if any, is for one of its messages. */
  ghost predicate TableOk(t: JavaTable, a: Addr, sent: map<int, Message>) {
    a in t ==> t[a].seqno in sent && UnderWay(t[a], sent[t[a].seqno])
  }

  /** One of the sent messages, up to the byte that may be missing. */
  ghost predicate IsSent(d: Handed, sent: map<int, Message>) {
    exists s :: s in sent && JavaFragmented(sent[s]) && sent[s].data != []
      && d == Handed(sent[s].channel, AsReceived(sent[s]))
  }

  lemma GenuineStep(t: JavaTable, a: Addr, f: Fragment, sent: map<int, Message>)
    requires Genuine(f, sent) && TableOk(t, a, sent)
    ensures var (t', o) := JavaReceive(t, a, f);
      TableOk(t', a, sent) && o != Thrown && (o.Got? ==> IsSent(Handed(o.channel, o.data), sent))
  {
    var m := sent[f.seqno];
    JavaFragmentFields(m, f.no);
    if Open(t, a, m) { FragmentComes(t, a, m, f.no); } else { FragmentOpens(t, a, m, f.no); }
    hide JavaReceive; hide JavaFragmentOf; hide Mark; hide FreshBuf; hide JavaCount; hide JavaFragmented;
    hide AsReceived; hide UnderWay;
  }

  /** Fragments in any order, any number of times, lost or mixed with other traffic:
      what is handed on is always a message that was sent. */
  lemma {:induction false} OnlySentMessages(t: JavaTable, events: seq<Arrival>, a: Addr, sent: map<int, Message>)
    requires TableOk(t, a, sent)
    requires forall k :: 0 <= k < |events| && events[k].from == a ==> Genuine(events[k].frag, sent)
    ensures forall d :: d in JavaDeliveries(t, events, a) ==> IsSent(d, sent)
    decreases |events|
  {
    if events != [] {
      var e := events[0];
      if e.from == a { GenuineStep(t, a, e.frag, sent); } else { OthersLeave(t, e.from, e.frag, a); }
      hide JavaReceive; hide Genuine; hide IsSent; hide UnderWay;
      OnlySentMessages(JavaReceive(t, e.from, e.frag).0, events[1..], a, sent);
    }
  }

  /** Sender a contributes these fragments of m; nobody's packets end the thread. */
  ghost predicate JavaCarries(t: JavaTable, events: seq<Arrival>, a: Addr, m: Message, order: seq<nat>)
    decreases |events|
  {
    if events == [] then order == []
    else
      var (t', o) := JavaReceive(t, events[0].from, events[0].frag);
      if events[0].from == a then
        order != [] && JavaFragmented(m) && order[0] < JavaCount(m) && events[0].frag == JavaFragmentOf(m, order[0])
          && JavaCarries(t', events[1..], a, m, order[1..])
      else o != Thrown && JavaCarries(t', events[1..], a, m, order)
  }

  /** All fragments are there, the last one for the first time, and no repeat of
      fragment 0 drops the buffer. */
  predicate Completes(m: Message, order: seq<nat>) {
    && order != [] && order[|order| - 1] !in order[..|order| - 1]
    && (forall i: nat :: i < JavaCount(m) ==> i in order)
    && (|m.data| < THRESHOLD ==> 0 !in order[1..])
  }

  ghost predicate Marked(b: JavaBuf, m: Message, got: seq<nat>) {
    UnderWay(b, m) && forall i :: 0 <= i < JavaCount(m) ==> (b.received[i] <==> i in got)
  }

  lemma {:induction false} NoneLeft(t: JavaTable, events: seq<Arrival>, a: Addr, m: Message)
    requires JavaCarries(t, events, a, m, [])
    ensures JavaDeliveries(t, events, a) == []
    decreases |events|
  {
    if events != [] {
      hide JavaReceive;
      NoneLeft(JavaReceive(t, events[0].from, events[0].frag).0, events[1..], a, m);
    }
  }

  lemma MarkStep(t: JavaTable, a: Addr, m: Message, got: seq<nat>, i: nat)
    requires Open(t, a, m) && Marked(t[a], m, got) && i < JavaCount(m) && (i == 0 ==> |m.data| >= THRESHOLD)
    ensures var (t', o) := JavaReceive(t, a, JavaFragmentOf(m, i));
      if forall j: nat :: j < JavaCount(m) ==> j in got + [i] then o == Got(m.channel, AsReceived(m)) && a !in t'
      else o == Pending && Open(t', a, m) && Marked(t'[a], m, got + [i])
  {
    hide JavaReceive; hide JavaFragmentOf; hide JavaArrived; hide JavaFragmented; hide JavaCount; hide AsReceived;
    FragmentComes(t, a, m, i);
    var b := t[a];
    CountZero(b.received);
    if b.received[i] {
      var j: nat :| j < JavaCount(m) && !b.received[j];
      assert j !in got + [i];
      assert forall j :: 0 <= j < JavaCount(m) ==> (j in got <==> j in got + [i]);
    } else {
      var b' := Mark(b, m, i);
      MarkHolds(b, m, i);
      CountZero(b'.received);
      assert forall j :: 0 <= j < JavaCount(m) ==> (b'.received[j] <==> j in got + [i]);
    }
  }

  lemma RestSplit(m: Message, got: seq<nat>, rest: seq<nat>)
    requires Completes(m, got + rest) && got != [] && rest != []
    ensures rest[0] == 0 ==> |m.data| >= THRESHOLD
    ensures got + [rest[0]] + rest[1..] == got + rest
    ensures |rest| == 1 ==> forall j: nat :: j < JavaCount(m) ==> j in got + [rest[0]]
    ensures |rest| > 1 ==> rest[|rest| - 1] !in got + [rest[0]]
  {
    var all := got + rest;
    assert all[1..][|got| - 1] == rest[0];
    if |rest| == 1 {
      assert all == got + [rest[0]];
    } else {
      var front := all[..|all| - 1];
      assert all[|all| - 1] == rest[|rest| - 1] && front == got + [rest[0]] + rest[1..|rest| - 1];
      assert forall x :: x in got + [rest[0]] ==> x in front;
    }
  }

  lemma {:induction false} LastInRange(t: JavaTable, events: seq<Arrival>, a: Addr, m: Message, rest: seq<nat>)
    requires JavaCarries(t, events, a, m, rest)
    ensures forall k :: 0 <= k < |rest| ==> rest[k] < JavaCount(m)
    decreases |events|
  {
    if events != [] {
      hide JavaReceive;
      var t' := JavaReceive(t, events[0].from, events[0].frag).0;
      LastInRange(t', events[1..], a, m, if events[0].from == a then rest[1..] else rest);
    }
  }

  lemma {:induction false} JavaFinishes(t: JavaTable, events: seq<Arrival>, a: Addr, m: Message, got: seq<nat>,
      rest: seq<nat>)
    requires JavaCarries(t, events, a, m, rest) && Completes(m, got + rest) && got != [] && rest != []
    requires Open(t, a, m) && Marked(t[a], m, got)
    ensures m.data != [] && JavaDeliveries(t, events, a) == [Handed(m.channel, AsReceived(m))]
    decreases |events|
  {
    var e := events[0];
    var t' := JavaReceive(t, e.from, e.frag).0;
    if e.from != a {
      OthersLeave(t, e.from, e.frag, a);
      hide JavaReceive; hide Marked; hide Completes;
      JavaFinishes(t', events[1..], a, m, got, rest);
    } else {
      var i := rest[0];
      RestSplit(m, got, rest);
      LastInRange(t, events, a, m, rest);
      MarkStep(t, a, m, got, i);
      hide JavaReceive; hide Marked; hide JavaFragmentOf; hide AsReceived; hide Open;
      if forall j: nat :: j < JavaCount(m) ==> j in got + [i] {
        NoneLeft(t', events[1..], a, m);
      } else {
        hide Completes;
        JavaFinishes(t', events[1..], a, m, got + [i], rest[1..]);
      }
    }
  }

  /** Fragment 0 first and then the others, repeated or not: the message is handed on
      once, when its last missing fragment comes. */
  lemma {:induction false} JavaDeliveredOnce(t: JavaTable, events: seq<Arrival>, a: Addr, m: Message, order: seq<nat>)
    requires JavaCarries(t, events, a, m, order) && Completes(m, order) && order[0] == 0 && !Open(t, a, m)
    ensures m.data != [] && JavaDeliveries(t, events, a) == [Handed(m.channel, AsReceived(m))]
    decreases |events|
  {
    var e := events[0];
    var t' := JavaReceive(t, e.from, e.frag).0;
    if e.from != a {
      OthersLeave(t, e.from, e.frag, a);
      hide JavaReceive; hide Completes;
      JavaDeliveredOnce(t', events[1..], a, m, order);
    } else {
      FragmentOpens(t, a, m, 0);
      JavaFragmentFields(m, 0);
      assert [0] + order[1..] == order && 1 in order;
      hide JavaReceive; hide JavaFragmentOf; hide AsReceived; hide Mark; hide Completes;
      JavaFinishes(t', events[1..], a, m, [0], order[1..]);
    }
  }

  // ----- any repeats -----

  /** Fragment 0 first comes at i, and with the n-th fragment all are there. */
  predicate AllCome(m: Message, order: seq<nat>, i: nat, n: nat) {
    i < n <= |order| && 0 !in order[..i] && order[i] == 0 && Completes(m, order[i..n])
  }

  /** However the fragments are repeated, lost and reordered, each message handed on is
      this one, up to the byte that may be missing. */
  lemma {:induction false} OnlyWhole(t: JavaTable, events: seq<Arrival>, a: Addr, m: Message, order: seq<nat>)
    requires JavaCarries(t, events, a, m, order) && JavaFragmented(m) && m.data != [] && Ready(t, a, m)
    ensures forall d :: d in JavaDeliveries(t, events, a) ==> d == Handed(m.channel, AsReceived(m))
    decreases |events|
  {
    hide JavaReceive; hide JavaFragmentOf; hide AsReceived; hide UnderWay; hide Mark; hide FreshBuf;
    hide JavaFragmented;
    if events != [] {
      var e := events[0];
      if e.from == a {
        if Open(t, a, m) { FragmentComes(t, a, m, order[0]); } else { FragmentOpens(t, a, m, order[0]); }
      } else {
        OthersLeave(t, e.from, e.frag, a);
      }
      OnlyWhole(JavaReceive(t, e.from, e.frag).0, events[1..], a, m, if e.from == a then order[1..] else order);
    }
  }

  lemma StaysOpen(t: JavaTable, b: Addr, f: Fragment, a: Addr, m: Message, got: seq<nat>)
    requires a != b && Open(t, a, m) && Marked(t[a], m, got)
    ensures var t' := JavaReceive(t, b, f).0; Open(t', a, m) && Marked(t'[a], m, got)
  {
    OthersLeave(t, b, f, a);
    hide JavaReceive; hide Marked;
  }

  /** From an open buffer the message is handed on when its last missing fragment comes. */
  lemma {:induction false} HandsOn(t: JavaTable, events: seq<Arrival>, a: Addr, m: Message, got: seq<nat>,
      rest: seq<nat>,
                                   n: nat)
    requires JavaCarries(t, events, a, m, rest) && 0 < n <= |rest| && got != [] && Completes(m, got + rest[..n])
    requires Open(t, a, m) && Marked(t[a], m, got)
    ensures JavaDeliveries(t, events, a) != []
    decreases |events|
  {
    hide JavaReceive; hide JavaFragmentOf; hide AsReceived; hide Marked; hide Completes; hide Open;
    var e := events[0];
    var t' := JavaReceive(t, e.from, e.frag).0;
    if e.from != a {
      StaysOpen(t, e.from, e.frag, a, m, got);
      HandsOn(t', events[1..], a, m, got, rest, n);
    } else {
      RestSplit(m, got, rest[..n]);
      MarkStep(t, a, m, got, rest[0]);
      if exists j: nat :: j < JavaCount(m) && j !in got + [rest[0]] {
        assert rest[..n][1..] == rest[1..][..n - 1];
        HandsOn(t', events[1..], a, m, got + [rest[0]], rest[1..], n - 1);
      }
    }
  }

  lemma FirstIsMarked(t: JavaTable, a: Addr, m: Message)
    requires JavaFragmented(m) && !Open(t, a, m) && 0 < JavaCount(m)
    ensures var t' := JavaReceive(t, a, JavaFragmentOf(m, 0)).0; Open(t', a, m) && Marked(t'[a], m, [0])
  {
    FragmentOpens(t, a, m, 0);
    JavaFragmentFields(m, 0);
    hide JavaReceive; hide JavaFragmentOf; hide Mark;
  }

  lemma MoreThanOne(m: Message, order: seq<nat>)
    requires Completes(m, order) && JavaFragmented(m)
    ensures |order| > 1
  {
    assert 0 in order && 1 in order;
  }

  lemma {:induction false} HandsOnSome(t: JavaTable, events: seq<Arrival>, a: Addr, m: Message, order: seq<nat>, i: nat,
                                       n: nat)
    requires JavaCarries(t, events, a, m, order) && AllCome(m, order, i, n) && !Open(t, a, m)
    ensures JavaDeliveries(t, events, a) != []
    decreases |events|
  {
    hide JavaReceive; hide JavaFragmentOf; hide AsReceived; hide Mark; hide FreshBuf; hide Completes;
    var e := events[0];
    var t' := JavaReceive(t, e.from, e.frag).0;
    if e.from != a {
      OthersLeave(t, e.from, e.frag, a);
      HandsOnSome(t', events[1..], a, m, order, i, n);
    } else if i > 0 {
      assert order[..i][0] == order[0] && order[1..][..i - 1] == order[..i][1..];
      assert order[1..][i - 1..n - 1] == order[i..n];
      FragmentOpens(t, a, m, order[0]);
      HandsOnSome(t', events[1..], a, m, order[1..], i - 1, n - 1);
    } else {
      FragmentOpens(t, a, m, 0);
      FirstIsMarked(t, a, m);
      MoreThanOne(m, order[..n]);
      assert [0] + order[1..][..n - 1] == order[..n];
      HandsOn(t', events[1..], a, m, [0], order[1..], n - 1);
    }
  }

  // ----- the byte nobody sends -----

  /** A run that brings all fragments of m from a, fragment 0 before any other counts;
      fragments may be repeated, before and afterwards. */
  ghost predicate BringsAll(t: JavaTable, events: seq<Arrival>, a: Addr, m: Message, order: seq<nat>) {
    JavaCarries(t, events, a, m, order) && !Open(t, a, m) && exists i, n :: AllCome(m, order, i, n)
  }

  ghost predicate HandsOnOnly(t: JavaTable, events: seq<Arrival>, a: Addr, d: Handed) {
    JavaDeliveries(t, events, a) != [] && forall x :: x in JavaDeliveries(t, events, a) ==> x == d
  }

  /** The same message but for the bytes of its data. */
  predicate OtherData(m: Message, m': Message) { m' == m.(data := m'.data) && |m'.data| == |m.data| }

  /** Whatever the data of this size, every such run hands on the message, and nothing but
      the message as it was sent. */
  ghost predicate AlwaysWhole(m: Message) {
    forall m': Message, t: JavaTable, events: seq<Arrival>, a: Addr, order: seq<nat> ::
      OtherData(m, m') && BringsAll(t, events, a, m', order) ==>
      HandsOnOnly(t, events, a, Handed(m'.channel, m'.data))
  }

  /** The fragments from i on, in order, and their numbers. */
  function Straight(m: Message, i: nat): seq<Arrival>
    requires JavaFragmented(m) && i <= JavaCount(m)
    decreases JavaCount(m) - i
  {
    if i == JavaCount(m) then [] else [Arrival(0, JavaFragmentOf(m, i))] + Straight(m, i + 1)
  }

  function Upwards(i: nat, n: nat): (r: seq<nat>)
    requires i <= n
    ensures |r| == n - i && forall k :: 0 <= k < |r| ==> r[k] == i + k
    decreases n - i
  {
    if i == n then [] else [i] + Upwards(i + 1, n)
  }

  lemma {:induction false} StraightCarries(t: JavaTable, m: Message, i: nat)
    requires JavaFragmented(m) && i <= JavaCount(m)
    ensures JavaCarries(t, Straight(m, i), 0, m, Upwards(i, JavaCount(m)))
    decreases JavaCount(m) - i
  {
    if i < JavaCount(m) {
      var e := Arrival(0, JavaFragmentOf(m, i));
      hide JavaReceive; hide JavaFragmented; hide JavaCount; hide JavaFragmentOf;
      StraightCarries(JavaReceive(t, 0, e.frag).0, m, i + 1);
      assert Straight(m, i)[1..] == Straight(m, i + 1);
      assert Upwards(i, JavaCount(m))[1..] == Upwards(i + 1, JavaCount(m));
    }
  }

  lemma StraightCompletes(m: Message)
    requires JavaFragmented(m)
    ensures var order := Upwards(0, JavaCount(m)); Completes(m, order) && order[0] == 0
  {
    var n := JavaCount(m);
    var order := Upwards(0, n);
    assert n >= 2;
    forall i: nat | i < n ensures i in order { assert order[i] == i; }
    assert 0 !in order[1..];
    assert order[n - 1] == n - 1 && order[n - 1] !in order[..n - 1];
  }

  lemma StraightBringsAll(m: Message)
    requires JavaFragmented(m)
    ensures BringsAll(map[], Straight(m, 0), 0, m, Upwards(0, JavaCount(m)))
  {
    hide JavaCarries; hide JavaFragmented; hide JavaCount; hide Upwards; hide Completes; hide Straight;
    var order := Upwards(0, JavaCount(m));
    StraightCarries(map[], m, 0);
    StraightCompletes(m);
    assert order[0..|order|] == order && order[..0] == [];
    assert AllCome(m, order, 0, |order|);
  }

  lemma AllHandedOn(t: JavaTable, events: seq<Arrival>, a: Addr, m: Message, order: seq<nat>)
    requires JavaFragmented(m) && m.data != [] && BringsAll(t, events, a, m, order)
    ensures HandsOnOnly(t, events, a, Handed(m.channel, AsReceived(m)))
  {
    hide JavaCarries; hide AllCome; hide JavaDeliveries; hide JavaFragmented; hide AsReceived;
    var i, n :| AllCome(m, order, i, n);
    OnlyWhole(t, events, a, m, order);
    HandsOnSome(t, events, a, m, order, i, n);
  }

  lemma LostIn(m: Message)
    requires JavaFragmented(m) && !Complete(m) && m.data != [] && m.data[|m.data| - 1] == 1
    ensures !HandsOnOnly(map[], Straight(m, 0), 0, Handed(m.channel, m.data))
  {
    hide JavaDeliveries; hide Straight; hide JavaFragmented; hide JavaCount; hide JavaCarries; hide Completes;
    var order := Upwards(0, JavaCount(m));
    StraightCarries(map[], m, 0);
    StraightCompletes(m);
    JavaDeliveredOnce(map[], Straight(m, 0), 0, m, order);
    var d := Handed(m.channel, AsReceived(m));
    assert d.data[|m.data| - 1] == 0 && d != Handed(m.channel, m.data);
    assert d in JavaDeliveries(map[], Straight(m, 0), 0);
  }

  /** A message of ones, its fragments in order from an empty table: the last byte is 0. */
  lemma LastByteLost(m: Message)
    requires JavaFragmented(m) && !Complete(m)
    ensures !AlwaysWhole(m)
  {
    hide BringsAll; hide HandsOnOnly; hide Straight; hide Upwards;
    var ones: seq<byte> := seq(|m.data|, i => 1);
    var m' := m.(data := ones);
    assert OtherData(m, m') && JavaFragmented(m') && !Complete(m') && m'.data != [];
    LostIn(m');
    StraightBringsAll(m');
    var t: JavaTable, order := map[], Upwards(0, JavaCount(m'));
    assert BringsAll(t, Straight(m', 0), 0, m', order);
  }

  /** A message of this size is sure to arrive whole exactly when channel and data do not
      fill whole fragments; otherwise no fragment carries its last byte. */
  lemma WholeExactly(m: Message)
    requires JavaFragmented(m)
    ensures AlwaysWhole(m) <==> (|m.channel| + |m.data|) % THRESHOLD != 0
  {
    if Complete(m) {
      forall m': Message, t: JavaTable, events: seq<Arrival>, a: Addr, order: seq<nat>
        | OtherData(m, m') && BringsAll(t, events, a, m', order)
        ensures HandsOnOnly(t, events, a, Handed(m'.channel, m'.data))
      {
        AllHandedOn(t, events, a, m', order);
      }
    } else {
      LastByteLost(m);
    }
  }
}
