/** upstream/lcm-java/lcm/lcm/MessageAggregator.java: a queue of received messages
    limited in bytes and in number. */
module Aggregator {
  import opened Bytes
  import opened Wrappers

  datatype Message = Message(channel: seq<byte>, data: seq<byte>)

  function DataSize(ms: seq<Message>): nat {
    if ms == [] then 0 else |ms[0].data| + DataSize(ms[1..])
  }

  lemma {:induction false} DataSizeSnoc(ms: seq<Message>, m: Message)
    ensures DataSize(ms + [m]) == DataSize(ms) + |m.data|
  {
    if ms == [] {
      assert [m][1..] == [];
    } else {
      assert (ms + [m])[1..] == ms[1..] + [m];
      DataSizeSnoc(ms[1..], m);
    }
  }

  predicate Within(ms: seq<Message>, maxSize: int, maxLength: int) { DataSize(ms) <= maxSize && |ms| <= maxLength }

  /** The queue after dropping the oldest messages one by one until it fits. */
  function Trim(ms: seq<Message>, maxSize: int, maxLength: int): seq<Message> {
    if ms == [] || Within(ms, maxSize, maxLength) then ms else Trim(ms[1..], maxSize, maxLength)
  }

  /** What is kept is the longest suffix within both limits. */
  lemma {:induction false} TrimIsLongestSuffix(ms: seq<Message>, maxSize: nat, maxLength: nat) returns (k: nat)
    ensures k <= |ms| && Trim(ms, maxSize, maxLength) == ms[k..]
    ensures Within(ms[k..], maxSize, maxLength) && forall j :: 0 <= j < k ==> !Within(ms[j..], maxSize, maxLength)
  {
    if ms == [] || Within(ms, maxSize, maxLength) {
      k := 0;
      assert ms[0..] == ms;
    } else {
      var i := TrimIsLongestSuffix(ms[1..], maxSize, maxLength);
      k := i + 1;
      forall j | 0 <= j < k ensures !Within(ms[j..], maxSize, maxLength) {
        if j == 0 { assert ms[0..] == ms; } else { assert ms[j..] == ms[1..][j - 1..]; }
      }
      assert ms[k..] == ms[1..][i..];
    }
  }

  datatype State = State(messages: seq<Message>, maxSize: int, maxLength: int)

  function Receive(s: State, m: Message): State {
    s.(messages := Trim(s.messages + [m], s.maxSize, s.maxLength))
  }

  /** From the k-th message on the queue fits, and from none before. */
  predicate IsLongest(all: seq<Message>, k: nat, maxSize: int, maxLength: int) {
    && k <= |all| && DataSize(all[k..]) <= maxSize && |all| - k <= maxLength
    && forall j :: 0 <= j < k ==> DataSize(all[j..]) > maxSize || |all| - j > maxLength
  }

  ghost predicate LongestKept(all: seq<Message>, kept: seq<Message>, maxSize: int, maxLength: int) {
    exists k: nat :: IsLongest(all, k, maxSize, maxLength) && kept == all[k..]
  }

  /** With limits that are not negative, what is kept of queue and new message is the
      longest suffix of at most maxSize data bytes and at most maxLength messages. */
  lemma ReceiveKeepsLongest(s: State, m: Message) returns (k: nat)
    requires 0 <= s.maxSize && 0 <= s.maxLength
    ensures var all := s.messages + [m];
      IsLongest(all, k, s.maxSize, s.maxLength) && Receive(s, m) == s.(messages := all[k..])
  {
    k := TrimIsLongestSuffix(s.messages + [m], s.maxSize, s.maxLength);
  }

  function ReceiveAll(s: State, ms: seq<Message>): State
    decreases |ms|
  {
    if ms == [] then s else ReceiveAll(Receive(s, ms[0]), ms[1..])
  }

  function Take(s: State): (State, Option<Message>) {
    if s.messages == [] then (s, None) else (s.(messages := s.messages[1..]), Some(s.messages[0]))
  }

  class MessageAggregator {
    var messages: seq<Message>
    var queueDataSize: int
    var maxQueueDataSize: int
    var maxQueueLength: int

    ghost predicate Valid()
      reads this
    {
      queueDataSize == DataSize(messages)
    }

    ghost function View(): State
      reads this
    {
      State(messages, maxQueueDataSize, maxQueueLength)
    }

    constructor ()
      ensures Valid() && View() == State([], 100 * 0x10_0000, 0x7fff_ffff)
    {
      messages, queueDataSize, maxQueueDataSize, maxQueueLength := [], 0, 100 * 0x10_0000, 0x7fff_ffff;
    }

    /** messageReceived. With a negative limit even the empty queue is too big, and
        removeFirst throws; then false is returned. */
    method MessageReceived(m: Message) returns (ok: bool)
      requires Valid()
      modifies this`messages, this`queueDataSize
      ensures Valid() && View() == Receive(old(View()), m)
      ensures ok <==> 0 <= maxQueueDataSize && 0 <= maxQueueLength
      ensures ok ==> LongestKept(old(messages) + [m], messages, maxQueueDataSize, maxQueueLength)
    {
      DataSizeSnoc(messages, m);
      ghost var before := View();
      if 0 <= maxQueueDataSize && 0 <= maxQueueLength { ghost var k := ReceiveKeepsLongest(before, m); }
      messages := messages + [m];
      queueDataSize := queueDataSize + |m.data|;
      ghost var all := messages;
      while queueDataSize > maxQueueDataSize || |messages| > maxQueueLength
        invariant Valid()
        invariant Trim(messages, maxQueueDataSize, maxQueueLength) == Trim(all, maxQueueDataSize, maxQueueLength)
        decreases |messages|
      {
        if messages == [] { return false; }
        queueDataSize := queueDataSize - |messages[0].data|;
        messages := messages[1..];
      }
      return true;
    }

    method SetMaxBufferSize(val: int)
      modifies this`maxQueueDataSize
      ensures View() == old(View()).(maxSize := val)
    {
      maxQueueDataSize := val;
    }

    method SetMaxMessages(val: int)
      modifies this`maxQueueLength
      ensures View() == old(View()).(maxLength := val)
    {
      maxQueueLength := val;
    }

    method TakeFirst() returns (m: Message)
      requires Valid() && messages != []
      modifies this`messages, this`queueDataSize
      ensures Valid() && m == old(messages)[0] && messages == old(messages)[1..]
    {
      m := messages[0];
      messages := messages[1..];
      queueDataSize := queueDataSize - |m.data|;
    }

    /** getNextMessage; `during` is what is received while it waits. */
    method GetNextMessage(timeout: int, during: seq<Message>) returns (r: Option<Message>)
      requires Valid()
      modifies this`messages, this`queueDataSize
      ensures Valid()
      ensures var before := if old(messages) == [] && timeout != 0 then ReceiveAll(old(View()), during)
        else old(View());
        View() == Take(before).0 && r == Take(before).1
    {
      if messages != [] {
        var m := TakeFirst();
        return Some(m);
      }
      if timeout == 0 { return None; }
      var i := 0;
      while i < |during|
        invariant 0 <= i <= |during| && Valid()
        invariant ReceiveAll(View(), during[i..]) == ReceiveAll(old(View()), during)
      {
        var _ := MessageReceived(during[i]);
        i := i + 1;
      }
      if messages != [] {
        var m := TakeFirst();
        return Some(m);
      }
      return None;
    }
  }

  // ----- runs -----

  datatype Op = Arrive(m: Message) | LimitSize(n: int) | LimitLength(n: int) | Next

  function Perform(s: State, op: Op): (State, seq<Message>) {
    match op
    case Arrive(m) => (Receive(s, m), [])
    case LimitSize(n) => (s.(maxSize := n), [])
    case LimitLength(n) => (s.(maxLength := n), [])
    case Next => var (s', r) := Take(s); (s', if r.Some? then [r.value] else [])
  }

  /** Everything handed out over a run. */
  function Handed(s: State, ops: seq<Op>): seq<Message>
    decreases |ops|
  {
    if ops == [] then []
    else var (s', out) := Perform(s, ops[0]); out + Handed(s', ops[1..])
  }

  /** Everything received over a run. */
  function Received(ops: seq<Op>): seq<Message> {
    if ops == [] then [] else (if ops[0].Arrive? then [ops[0].m] else []) + Received(ops[1..])
  }

  /** out is what is at the positions idx, which rise. */
  ghost predicate PickedInOrder(out: seq<Message>, all: seq<Message>, idx: seq<nat>, from: nat) {
    && |idx| == |out|
    && (forall i :: 0 <= i < |idx| ==> from <= idx[i] < |all| && all[idx[i]] == out[i])
    && (forall i, j :: 0 <= i < j < |idx| ==> idx[i] < idx[j])
  }

  lemma {:induction false} TrimIsSuffix(ms: seq<Message>, maxSize: int, maxLength: int) returns (k: nat)
    ensures k <= |ms| && Trim(ms, maxSize, maxLength) == ms[k..]
  {
    if ms == [] || Within(ms, maxSize, maxLength) {
      k := 0;
    } else {
      k := TrimIsSuffix(ms[1..], maxSize, maxLength);
      assert ms[k + 1..] == ms[1..][k..];
      k := k + 1;
    }
  }

  /** The queue holds the last messages received. */
  predicate Window(before: seq<Message>, messages: seq<Message>) {
    |messages| <= |before| && before[|before| - |messages|..] == messages
  }

  lemma WindowArrive(before: seq<Message>, s: State, m: Message)
    requires Window(before, s.messages)
    ensures Window(before + [m], Receive(s, m).messages) && |Receive(s, m).messages| <= |s.messages| + 1
  {
    var k := TrimIsSuffix(s.messages + [m], s.maxSize, s.maxLength);
    hide Trim;
    var now := before + [m];
    assert now[|before| - |s.messages|..] == s.messages + [m];
    assert now[|before| - |s.messages| + k..] == (s.messages + [m])[k..];
  }

  lemma WindowTake(before: seq<Message>, messages: seq<Message>)
    requires Window(before, messages) && messages != []
    ensures Window(before, messages[1..]) && before[|before| - |messages|] == messages[0]
  {
    var start := |before| - |messages|;
    assert before[start..][0] == messages[0] && before[start..][1..] == before[start + 1..];
  }

  lemma PickWeaken(out: seq<Message>, all: seq<Message>, idx: seq<nat>, later: nat, from: nat)
    requires PickedInOrder(out, all, idx, later) && from <= later
    ensures PickedInOrder(out, all, idx, from)
  {}

  lemma PickFirst(x: Message, out: seq<Message>, all: seq<Message>, idx: seq<nat>, start: nat)
    requires PickedInOrder(out, all, idx, start + 1) && start < |all| && all[start] == x
    ensures PickedInOrder([x] + out, all, [start] + idx, start)
  {
    var i' := [start] + idx;
    forall i | 0 <= i < |i'| ensures start <= i'[i] < |all| && all[i'[i]] == ([x] + out)[i] {
      if i > 0 { assert i'[i] == idx[i - 1]; }
    }
  }

  lemma NothingBefore(x: seq<Message>)
    ensures [] + x == x
  {}

  lemma StepUnfolds(s: State, ops: seq<Op>, before: seq<Message>)
    requires ops != []
    ensures ops[0].Arrive? ==>
      Handed(s, ops) == Handed(Receive(s, ops[0].m), ops[1..])
        && before + Received(ops) == before + [ops[0].m] + Received(ops[1..])
    ensures !ops[0].Arrive? ==> Received(ops) == Received(ops[1..])
    ensures ops[0].Next? && s.messages == [] ==> Handed(s, ops) == Handed(s, ops[1..])
    ensures ops[0].Next? && s.messages != [] ==>
      Handed(s, ops) == [s.messages[0]] + Handed(s.(messages := s.messages[1..]), ops[1..])
    ensures ops[0].LimitSize? ==> Handed(s, ops) == Handed(s.(maxSize := ops[0].n), ops[1..])
    ensures ops[0].LimitLength? ==> Handed(s, ops) == Handed(s.(maxLength := ops[0].n), ops[1..])
  {
    hide Receive;
    NothingBefore(Received(ops[1..]));
    NothingBefore(Handed(Perform(s, ops[0]).0, ops[1..]));
    if ops[0].Arrive? { assert before + ([ops[0].m] + Received(ops[1..])) == before + [ops[0].m] + Received(ops[1..]); }
  }

  /** What comes after a queue that holds the last messages of `before`. */
  lemma {:induction false} HandedFrom(s: State, ops: seq<Op>, before: seq<Message>) returns (idx: seq<nat>)
    requires Window(before, s.messages)
    ensures PickedInOrder(Handed(s, ops), before + Received(ops), idx, |before| - |s.messages|)
    decreases |ops|
  {
    var start := |before| - |s.messages|;
    if ops == [] {
      idx := [];
    } else {
      StepUnfolds(s, ops, before);
      hide PickedInOrder; hide Handed; hide Received; hide Window; hide Receive;
      match ops[0] {
        case Arrive(m) =>
          WindowArrive(before, s, m);
          idx := HandedFrom(Receive(s, m), ops[1..], before + [m]);
          PickWeaken(Handed(s, ops), before + Received(ops), idx, |before| + 1 - |Receive(s, m).messages|, start);
        case Next =>
          if s.messages == [] {
            idx := HandedFrom(s, ops[1..], before);
          } else {
            WindowTake(before, s.messages);
            idx := HandedFrom(s.(messages := s.messages[1..]), ops[1..], before);
            PickFirst(s.messages[0], Handed(s.(messages := s.messages[1..]), ops[1..]), before + Received(ops), idx,
              start);
            idx := [start] + idx;
          }
        case LimitSize(n) => idx := HandedFrom(s.(maxSize := n), ops[1..], before);
        case LimitLength(n) => idx := HandedFrom(s.(maxLength := n), ops[1..], before);
      }
    }
  }

  /** Whatever the limits do, messages come out in the order they came in, and none
      comes out twice. */
  lemma InOrderOnce(maxSize: int, maxLength: int, ops: seq<Op>)
    ensures exists idx :: PickedInOrder(Handed(State([], maxSize, maxLength), ops), Received(ops), idx, 0)
  {
    var idx := HandedFrom(State([], maxSize, maxLength), ops, []);
    assert [] + Received(ops) == Received(ops);
  }

  function AfterOps(s: State, ops: seq<Op>): State
    decreases |ops|
  {
    if ops == [] then s else AfterOps(Perform(s, ops[0]).0, ops[1..])
  }

  predicate KeepsLimits(ops: seq<Op>) { forall i :: 0 <= i < |ops| ==> ops[i].Arrive? || ops[i].Next? }

  lemma {:induction false} DataSizeConcat(a: seq<Message>, b: seq<Message>)
    ensures DataSize(a + b) == DataSize(a) + DataSize(b)
    decreases |a|
  {
    if a == [] {
      assert a + b == b;
    } else {
      assert (a + b)[1..] == a[1..] + b;
      DataSizeConcat(a[1..], b);
    }
  }

  lemma Regroup(a: seq<Message>, b: seq<Message>, c: seq<Message>)
    ensures a + b + c == a + (b + c)
  {}

  lemma EmptyOps(s: State)
    ensures Handed(s, []) + s.messages == s.messages + Received([])
  {}

  lemma FitsNow(s: State, m: Message, rest: seq<Message>)
    requires var all := s.messages + [m] + rest; DataSize(all) <= s.maxSize && |all| <= s.maxLength
    ensures Receive(s, m) == s.(messages := s.messages + [m])
  {
    DataSizeConcat(s.messages + [m], rest);
  }

  lemma TakeSplits(s: State, rest: seq<Message>)
    requires s.messages != []
    ensures var all := s.messages[1..] + rest;
      s.messages + rest == [s.messages[0]] + all && DataSize(s.messages + rest) == |s.messages[0].data| + DataSize(all)
  {
    DataSizeConcat([s.messages[0]], s.messages[1..] + rest);
    assert s.messages + rest == [s.messages[0]] + (s.messages[1..] + rest);
    assert DataSize([s.messages[0]]) == |s.messages[0].data|;
  }

  /** As long as all that is held or comes in fits into the limits, nothing is lost: what
      was held and came in is what was handed out, in order, and what is still held. */
  lemma {:induction false} NothingLost(s: State, ops: seq<Op>)
    requires KeepsLimits(ops)
    requires DataSize(s.messages + Received(ops)) <= s.maxSize && |s.messages + Received(ops)| <= s.maxLength
    ensures Handed(s, ops) + AfterOps(s, ops).messages == s.messages + Received(ops)
    decreases |ops|
  {
    hide DataSize; hide Received; hide Handed; hide Receive;
    if ops == [] {
      EmptyOps(s);
    } else {
      var rest := Received(ops[1..]);
      StepUnfolds(s, ops, s.messages);
      if ops[0].Arrive? {
        FitsNow(s, ops[0].m, rest);
        NothingLost(Receive(s, ops[0].m), ops[1..]);
      } else if s.messages == [] {
        NothingLost(s, ops[1..]);
      } else {
        var s' := s.(messages := s.messages[1..]);
        TakeSplits(s, rest);
        NothingLost(s', ops[1..]);
        Regroup([s.messages[0]], Handed(s', ops[1..]), AfterOps(s', ops[1..]).messages);
      }
    }
  }
}
