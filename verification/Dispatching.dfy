/** lcm_dispatch_handlers of upstream/lcm/lcm.c: the callbacks are called off the live
    array of the channel, which they may change. */
module Dispatching {
  import opened Registry

  function Ids(hs: seq<Sub>): set<nat> {
    if hs == [] then {} else Ids(hs[..|hs| - 1]) + {hs[|hs| - 1].id}
  }

  function Head(script: seq<seq<Op>>): seq<Op> { if script == [] then [] else script[0] }

  function Rest(script: seq<seq<Op>>): seq<seq<Op>> { if script == [] then [] else script[1..] }

  /** The handlers from i on, read from the live array; the k-th call made performs
      script[k] inside its callback. */
  function CallFrom(s: State, channel: string, i: nat, n: nat, script: seq<seq<Op>>, m: Matcher): (State, seq<Sub>)
    requires ListsOk(s)
    decreases if i < n then n - i else 0
  {
    if i >= n || channel !in s.lists || i >= |s.lists[channel].slots| then (s, [])
    else
      var h := s.lists[channel].slots[i];
      if h.id in s.marked then CallFrom(s, channel, i + 1, n, script, m)
      else
        var (s', calls) := CallFrom(PerformAll(s, Head(script), m), channel, i + 1, n, Rest(script), m);
        (s', [h] + calls)
  }

  /** The lookup and the references taken. */
  function Prepare(s: State, channel: string, m: Matcher): (r: State)
    requires ListsOk(s)
    ensures ListsOk(r) && channel in r.lists
  {
    var s1 := Lookup(s, channel, m);
    s1.(scheduled := s1.scheduled + Ids(s1.lists[channel].Elements()))
  }

  /** lcm_dispatch_handlers up to the last callback: the state and the handlers called. */
  function Calls(s: State, channel: string, script: seq<seq<Op>>, m: Matcher): (State, seq<Sub>)
    requires ListsOk(s)
  {
    var s1 := Prepare(s, channel, m);
    CallFrom(s1, channel, 0, s1.lists[channel].len, script, m)
  }

  /** The references dropped, and the handlers marked meanwhile, in the order in which
      they are then removed: the last one first. */
  function Unreferenced(s: State, hs: seq<Sub>): (State, seq<Sub>)
    decreases |hs|
  {
    if hs == [] then (s, [])
    else
      var (s', gone) := Unreferenced(s, hs[..|hs| - 1]);
      var h := hs[|hs| - 1];
      (s'.(scheduled := s'.scheduled - {h.id}), if h.id in s.marked then [h] + gone else gone)
  }

  function RemoveGone(s: State, gone: seq<Sub>): (r: State)
    requires ListsOk(s)
    ensures ListsOk(r)
    decreases |gone|
  {
    if gone == [] then s
    else RemoveGone(s.(all := Remove(s.all, gone[0]), lists := RemoveFromLists(s.lists, gone[0])), gone[1..])
  }

  /** A channel's array never gives back a slot. */
  lemma {:induction false} SlotsStay(s: State, ops: seq<Op>, channel: string, m: Matcher)
    requires ListsOk(s) && channel in s.lists
    ensures var r := PerformAll(s, ops, m).lists; channel in r && |r[channel].slots| >= |s.lists[channel].slots|
    decreases |ops|
  {
    if ops != [] { SlotsStay(Perform(s, ops[0], m), ops[1..], channel, m); }
  }

  lemma {:induction false} CallFromKeepsOk(s: State, channel: string, i: nat, n: nat, script: seq<seq<Op>>, m: Matcher)
    requires ListsOk(s) && channel in s.lists
    ensures var s' := CallFrom(s, channel, i, n, script, m).0;
      ListsOk(s') && channel in s'.lists && |s'.lists[channel].slots| >= |s.lists[channel].slots|
    decreases if i < n then n - i else 0
  {
    if i < n && i < |s.lists[channel].slots| {
      if s.lists[channel].slots[i].id in s.marked {
        CallFromKeepsOk(s, channel, i + 1, n, script, m);
      } else {
        SlotsStay(s, Head(script), channel, m);
        CallFromKeepsOk(PerformAll(s, Head(script), m), channel, i + 1, n, Rest(script), m);
      }
    }
  }

  lemma CallsKeepOk(s: State, channel: string, script: seq<seq<Op>>, m: Matcher)
    requires ListsOk(s)
    ensures ListsOk(Calls(s, channel, script, m).0) && channel in Calls(s, channel, script, m).0.lists
    ensures Prepare(s, channel, m).lists[channel].len <= |Calls(s, channel, script, m).0.lists[channel].slots|
  {
    var s1 := Prepare(s, channel, m);
    CallFromKeepsOk(s1, channel, 0, s1.lists[channel].len, script, m);
  }

  /** The list to_remove. */
  function Gone(s: State, channel: string, script: seq<seq<Op>>, m: Matcher): seq<Sub>
    requires ListsOk(s)
  {
    CallsKeepOk(s, channel, script, m);
    var s1 := Calls(s, channel, script, m).0;
    Unreferenced(s1, s1.lists[channel].slots[..Prepare(s, channel, m).lists[channel].len]).1
  }

  lemma {:induction false} UnreferencedKeeps(s: State, hs: seq<Sub>)
    ensures var (r, gone) := Unreferenced(s, hs);
      r == s.(scheduled := r.scheduled) && (forall h :: h in gone ==> h.id in s.marked)
    decreases |hs|
  {
    if hs != [] { UnreferencedKeeps(s, hs[..|hs| - 1]); }
  }

  /** lcm_dispatch_handlers: the new state and the handlers called. */
  function Dispatch(s: State, channel: string, script: seq<seq<Op>>, m: Matcher): (State, seq<Sub>)
    requires ListsOk(s)
  {
    CallsKeepOk(s, channel, script, m);
    var (s1, calls) := Calls(s, channel, script, m);
    var listed := s1.lists[channel].slots[..Prepare(s, channel, m).lists[channel].len];
    UnreferencedKeeps(s1, listed);
    (RemoveGone(Unreferenced(s1, listed).0, Gone(s, channel, script, m)), calls)
  }

  // ----- handlers still to be called -----

  ghost predicate SlotHolds(s: State, channel: string, j: nat, h: Sub, m: Matcher)
    requires channel in s.lists && j < |s.lists[channel].slots|
  {
    s.lists[channel].slots[j] == h && h in s.all && h.id in s.scheduled && m(h.pattern, channel)
  }

  /** The handlers from i on are still in their slots, subscribed and referenced. */
  ghost predicate Ahead(s: State, channel: string, i: nat, hs: seq<Sub>, m: Matcher) {
    && Inv(s, m) && channel in s.lists && i <= |hs| <= |s.lists[channel].slots|
    && (forall j :: i <= j < |hs| ==> SlotHolds(s, channel, j, hs[j], m))
  }

  ghost predicate Once(hs: seq<Sub>) { forall i, j :: 0 <= i < j < |hs| ==> hs[i] != hs[j] }

  /** An operation in the i-th callback that disturbs no handler behind it: what it
      unsubscribes is not still to be called, and what it subscribes to the channel
      does not take the slot of one that is. */
  predicate OpCareful(s: State, op: Op, channel: string, i: nat, hs: seq<Sub>, m: Matcher)
    requires i < |hs|
  {
    match op
    case DoUnsubscribe(h) => h !in hs[i + 1..]
    case DoSubscribe(p) =>
      var live := |Matching(s.all, channel, m)|;
      m(p, channel) ==> live <= i || |hs| <= live
    case DoLookup(c) => true
  }

  predicate OpsCareful(s: State, ops: seq<Op>, channel: string, i: nat, hs: seq<Sub>, m: Matcher)
    requires ListsOk(s) && i < |hs|
    decreases |ops|
  {
    ops == [] ||
    (OpCareful(s, ops[0], channel, i, hs, m) && OpsCareful(Perform(s, ops[0], m), ops[1..], channel, i, hs, m))
  }

  /** Every operation of every callback is careful, in the state it finds. */
  predicate Careful(s: State, channel: string, i: nat, hs: seq<Sub>, script: seq<seq<Op>>, m: Matcher)
    requires ListsOk(s)
    decreases |script|
  {
    script == [] || i >= |hs| ||
    (OpsCareful(s, script[0], channel, i, hs, m)
      && Careful(PerformAll(s, script[0], m), channel, i + 1, hs, script[1..], m))
  }

  lemma LiveCount(s: State, channel: string, m: Matcher)
    requires Inv(s, m) && channel in s.lists
    ensures s.lists[channel].len == |Matching(s.all, channel, m)|
  {
    var e, f := s.lists[channel].Elements(), Matching(s.all, channel, m);
    assert |e| == |multiset(e)| && |f| == |multiset(f)|;
  }

  /** y is neither live nor listed from i on, and is not a new subscription. */
  ghost predicate Passed(s: State, channel: string, i: nat, n: nat, y: Sub) {
    && ListsOk(s) && channel in s.lists && n <= |s.lists[channel].slots| && y.id < s.nextId
    && (forall j :: i <= j < |s.lists[channel].slots| && (j < n || j < s.lists[channel].len) ==>
          s.lists[channel].slots[j] != y)
  }

  lemma RemovePasses(a: PtrArray, h: Sub, i: nat, n: nat, y: Sub)
    requires a.Ok() && forall j :: i <= j < |a.slots| && (j < n || j < a.len) ==> a.slots[j] != y
    ensures var r := a.RemoveFast(h);
      && |r.slots| == |a.slots| && r.len <= a.len
      && forall j :: i <= j < |r.slots| && (j < n || j < r.len) ==> r.slots[j] != y
  {}

  lemma PassedStep(s: State, op: Op, channel: string, i: nat, n: nat, y: Sub, m: Matcher)
    requires Passed(s, channel, i, n, y)
    ensures Passed(Perform(s, op, m), channel, i, n, y)
  {
    hide Matching; hide Remove;
    match op
    case DoSubscribe(p) =>
    case DoUnsubscribe(h) => if h in s.all { RemovePasses(s.lists[channel], h, i, n, y); }
    case DoLookup(c) =>
  }

  lemma {:induction false} PassedOps(s: State, ops: seq<Op>, channel: string, i: nat, n: nat, y: Sub, m: Matcher)
    requires Passed(s, channel, i, n, y)
    ensures Passed(PerformAll(s, ops, m), channel, i, n, y)
    decreases |ops|
  {
    if ops != [] {
      PassedStep(s, ops[0], channel, i, n, y, m);
      hide Perform; hide Passed;
      PassedOps(Perform(s, ops[0], m), ops[1..], channel, i, n, y, m);
    }
  }

  lemma {:induction false} MarkedStays(s: State, ops: seq<Op>, y: Sub, m: Matcher)
    requires ListsOk(s) && y.id in s.marked
    ensures y.id in PerformAll(s, ops, m).marked
    decreases |ops|
  {
    if ops != [] { MarkedStays(Perform(s, ops[0], m), ops[1..], y, m); }
  }

  ghost predicate Missed(s: State, channel: string, i: nat, n: nat, y: Sub) {
    ListsOk(s) && (y.id in s.marked || Passed(s, channel, i, n, y))
  }

  /** One of the handlers from i on will not be called. */
  ghost predicate SomeMissed(s: State, channel: string, i: nat, hs: seq<Sub>) {
    exists j :: i <= j < |hs| && Missed(s, channel, i, |hs|, hs[j])
  }

  lemma MissedOps(s: State, ops: seq<Op>, channel: string, i: nat, n: nat, y: Sub, m: Matcher)
    requires Missed(s, channel, i, n, y)
    ensures Missed(PerformAll(s, ops, m), channel, i, n, y)
  {
    hide PerformAll;
    if y.id in s.marked { MarkedStays(s, ops, y, m); } else { PassedOps(s, ops, channel, i, n, y, m); }
  }

  /** A handler that is marked, or that the walk has left behind, is not called any more. */
  lemma {:induction false} MissedIsNotCalled(s: State, channel: string, i: nat, n: nat, script: seq<seq<Op>>, y: Sub,
      m: Matcher)
    requires Missed(s, channel, i, n, y)
    ensures y !in CallFrom(s, channel, i, n, script, m).1
    decreases if i < n then n - i else 0
  {
    if i < n && channel in s.lists && i < |s.lists[channel].slots| {
      if s.lists[channel].slots[i].id in s.marked {
        MissedIsNotCalled(s, channel, i + 1, n, script, y, m);
      } else {
        MissedOps(s, Head(script), channel, i, n, y, m);
        MissedIsNotCalled(PerformAll(s, Head(script), m), channel, i + 1, n, Rest(script), y, m);
      }
    }
  }

  // ----- careful callbacks, and only those -----

  /** The new subscription takes the slot of a handler that is still to be called. */
  lemma SubscribePasses(s: State, p: string, channel: string, i: nat, hs: seq<Sub>, m: Matcher)
    requires i < |hs| && Ahead(s, channel, i + 1, hs, m) && Once(hs) && m(p, channel)
    requires i < s.lists[channel].len < |hs|
    ensures Passed(Subscribe(s, p, m), channel, i + 1, |hs|, hs[s.lists[channel].len])
  {
    hide Matching;
    var r, live := Subscribe(s, p, m), s.lists[channel].len;
    assert SlotHolds(s, channel, live, hs[live], m);
    forall j | i + 1 <= j < |hs| ensures r.lists[channel].slots[j] != hs[live] {
      assert SlotHolds(s, channel, j, hs[j], m);
    }
  }

  lemma SubscribeAhead(s: State, p: string, channel: string, i: nat, hs: seq<Sub>, m: Matcher)
    requires i < |hs| && Ahead(s, channel, i + 1, hs, m) && Once(hs)
    ensures OpCareful(s, DoSubscribe(p), channel, i, hs, m) ==> Ahead(Subscribe(s, p, m), channel, i + 1, hs, m)
    ensures !OpCareful(s, DoSubscribe(p), channel, i, hs, m) ==>
      SomeMissed(Subscribe(s, p, m), channel, i + 1, hs)
  {
    SubscribeKeepsInv(s, p, m);
    LiveCount(s, channel, m);
    hide Inv; hide Matching;
    var r := Subscribe(s, p, m);
    if OpCareful(s, DoSubscribe(p), channel, i, hs, m) {
      forall j | i + 1 <= j < |hs| ensures SlotHolds(r, channel, j, hs[j], m) {
        assert SlotHolds(s, channel, j, hs[j], m);
      }
    } else {
      var live := s.lists[channel].len;
      assert SlotHolds(s, channel, live, hs[live], m);
      SubscribePasses(s, p, channel, i, hs, m);
      assert Missed(r, channel, i + 1, |hs|, hs[live]);
    }
  }

  lemma UnsubscribeAhead(s: State, h: Sub, channel: string, i: nat, hs: seq<Sub>, m: Matcher)
    requires i < |hs| && Ahead(s, channel, i + 1, hs, m)
    ensures h !in hs[i + 1..] ==> Ahead(Unsubscribe(s, h), channel, i + 1, hs, m)
    ensures h in hs[i + 1..] ==> SomeMissed(Unsubscribe(s, h), channel, i + 1, hs)
  {
    UnsubscribeKeepsInv(s, h, m);
    assert Distinct(s.all);
    RemoveKeepsDistinct(s.all, h);
    hide Inv; hide Matching; hide Remove; hide Distinct;
    var r := Unsubscribe(s, h);
    if h !in hs[i + 1..] {
      forall j | i + 1 <= j < |hs| ensures SlotHolds(r, channel, j, hs[j], m) {
        assert SlotHolds(s, channel, j, hs[j], m) && hs[i + 1..][j - i - 1] == hs[j];
      }
    } else {
      var j :| 0 <= j < |hs[i + 1..]| && hs[i + 1..][j] == h;
      assert SlotHolds(s, channel, i + 1 + j, hs[i + 1 + j], m);
    }
  }

  lemma OpAhead(s: State, op: Op, channel: string, i: nat, hs: seq<Sub>, m: Matcher)
    requires i < |hs| && Ahead(s, channel, i + 1, hs, m) && Once(hs)
    ensures OpCareful(s, op, channel, i, hs, m) ==> Ahead(Perform(s, op, m), channel, i + 1, hs, m)
    ensures !OpCareful(s, op, channel, i, hs, m) ==>
      SomeMissed(Perform(s, op, m), channel, i + 1, hs)
  {
    match op
    case DoSubscribe(p) => SubscribeAhead(s, p, channel, i, hs, m);
    case DoUnsubscribe(h) => UnsubscribeAhead(s, h, channel, i, hs, m);
    case DoLookup(c) =>
      PerformKeepsInv(s, op, m);
      forall j | i + 1 <= j < |hs| ensures SlotHolds(Lookup(s, c, m), channel, j, hs[j], m) {
        assert SlotHolds(s, channel, j, hs[j], m);
      }
  }

  lemma {:induction false} OpsAhead(s: State, ops: seq<Op>, channel: string, i: nat, hs: seq<Sub>, m: Matcher)
    requires i < |hs| && Ahead(s, channel, i + 1, hs, m) && Once(hs)
    ensures OpsCareful(s, ops, channel, i, hs, m) ==> Ahead(PerformAll(s, ops, m), channel, i + 1, hs, m)
    ensures !OpsCareful(s, ops, channel, i, hs, m) ==>
      SomeMissed(PerformAll(s, ops, m), channel, i + 1, hs)
    decreases |ops|
  {
    if ops != [] {
      var s1 := Perform(s, ops[0], m);
      OpAhead(s, ops[0], channel, i, hs, m);
      hide Perform; hide Ahead; hide Missed; hide OpCareful;
      if OpCareful(s, ops[0], channel, i, hs, m) {
        OpsAhead(s1, ops[1..], channel, i, hs, m);
      } else {
        var j :| i + 1 <= j < |hs| && Missed(s1, channel, i + 1, |hs|, hs[j]);
        MissedOps(s1, ops[1..], channel, i + 1, |hs|, hs[j], m);
      }
    }
  }

  lemma CarefulStep(s: State, channel: string, i: nat, hs: seq<Sub>, script: seq<seq<Op>>, m: Matcher)
    requires ListsOk(s) && i < |hs|
    ensures Careful(s, channel, i, hs, script, m) <==>
      OpsCareful(s, Head(script), channel, i, hs, m) &&
      Careful(PerformAll(s, Head(script), m), channel, i + 1, hs, Rest(script), m)
  {}

  /** The handler at i is called. */
  lemma CallStep(s: State, channel: string, i: nat, hs: seq<Sub>, script: seq<seq<Op>>, m: Matcher)
    requires Ahead(s, channel, i, hs, m) && i < |hs|
    ensures CallFrom(s, channel, i, |hs|, script, m).1 ==
      [hs[i]] + CallFrom(PerformAll(s, Head(script), m), channel, i + 1, |hs|, Rest(script), m).1
    ensures Ahead(s, channel, i + 1, hs, m)
  {
    assert SlotHolds(s, channel, i, hs[i], m);
    hide PerformAll; hide Matching;
  }

  lemma AheadBounds(s: State, channel: string, i: nat, hs: seq<Sub>, m: Matcher)
    requires Ahead(s, channel, i, hs, m)
    ensures ListsOk(s) && i <= |hs|
  {}

  lemma FirstOff(hs: seq<Sub>, i: nat)
    requires i < |hs|
    ensures hs[i..] == [hs[i]] + hs[i + 1..]
  {}

  lemma CallsDone(s: State, channel: string, i: nat, hs: seq<Sub>, script: seq<seq<Op>>, m: Matcher)
    requires ListsOk(s) && i == |hs|
    ensures Careful(s, channel, i, hs, script, m) && CallFrom(s, channel, i, |hs|, script, m).1 == hs[i..]
  {}

  /** One of the handlers from i on is not among these. */
  ghost predicate LeavesOut(hs: seq<Sub>, i: nat, calls: seq<Sub>) {
    exists j :: i <= j < |hs| && hs[j] !in calls
  }

  lemma MissedIsLeftOut(s: State, channel: string, i: nat, hs: seq<Sub>, script: seq<seq<Op>>, m: Matcher)
    requires SomeMissed(s, channel, i, hs)
    ensures LeavesOut(hs, i, CallFrom(s, channel, i, |hs|, script, m).1)
  {
    var j :| i <= j < |hs| && Missed(s, channel, i, |hs|, hs[j]);
    hide CallFrom; hide Missed;
    MissedIsNotCalled(s, channel, i, |hs|, script, hs[j], m);
  }

  lemma LeavesOutToo(hs: seq<Sub>, i: nat, calls: seq<Sub>)
    requires i < |hs| && Once(hs)
    ensures LeavesOut(hs, i + 1, calls) ==> LeavesOut(hs, i, [hs[i]] + calls)
  {
    if LeavesOut(hs, i + 1, calls) {
      var j :| i + 1 <= j < |hs| && hs[j] !in calls;
      assert hs[j] !in [hs[i]] + calls;
    }
  }

  lemma {:induction false} CallsAhead(s: State, channel: string, i: nat, hs: seq<Sub>, script: seq<seq<Op>>, m: Matcher)
    requires Ahead(s, channel, i, hs, m) && Once(hs)
    ensures Careful(s, channel, i, hs, script, m) ==> CallFrom(s, channel, i, |hs|, script, m).1 == hs[i..]
    ensures !Careful(s, channel, i, hs, script, m) ==>
      LeavesOut(hs, i, CallFrom(s, channel, i, |hs|, script, m).1)
    decreases |hs| - i
  {
    AheadBounds(s, channel, i, hs, m);
    hide *;
    if i == |hs| {
      CallsDone(s, channel, i, hs, script, m);
    } else {
      var s1 := PerformAll(s, Head(script), m);
      CallStep(s, channel, i, hs, script, m);
      CarefulStep(s, channel, i, hs, script, m);
      OpsAhead(s, Head(script), channel, i, hs, m);
      FirstOff(hs, i);
      if OpsCareful(s, Head(script), channel, i, hs, m) {
        CallsAhead(s1, channel, i + 1, hs, Rest(script), m);
      } else {
        MissedIsLeftOut(s1, channel, i + 1, hs, Rest(script), m);
      }
      LeavesOutToo(hs, i, CallFrom(s1, channel, i + 1, |hs|, Rest(script), m).1);
    }
  }

  lemma {:induction false} MatchingOnce(all: seq<Sub>, c: string, m: Matcher)
    requires Distinct(all)
    ensures forall h :: multiset(Matching(all, c, m))[h] == if h in all && m(h.pattern, c) then 1 else 0
  {
    if all != [] {
      var front, last := all[..|all| - 1], all[|all| - 1];
      MatchingOnce(front, c, m);
      assert all == front + [last];
      assert last !in front;
    }
  }

  lemma CountedOnce(e: seq<Sub>)
    requires forall h :: multiset(e)[h] <= 1
    ensures Once(e)
  {
    forall i, j | 0 <= i < j < |e| ensures e[i] != e[j] {
      var a, b := e[..j], e[j..];
      assert e == a + b && a[i] in a && b[0] in b;
      assert a[i] in multiset(a) && b[0] in multiset(b) && multiset(e)[a[i]] == multiset(a)[a[i]] + multiset(b)[a[i]];
    }
  }

  /** A cached list holds each matching subscription once. */
  lemma ListedOnce(s: State, channel: string, m: Matcher)
    requires Inv(s, m) && channel in s.lists
    ensures Once(s.lists[channel].Elements())
    ensures forall h :: h in s.lists[channel].Elements() <==> h in s.all && m(h.pattern, channel)
    ensures forall h :: multiset(s.lists[channel].Elements())[h] == if h in s.all && m(h.pattern, channel) then 1 else 0
  {
    MatchingOnce(s.all, channel, m);
    var e, f := s.lists[channel].Elements(), Matching(s.all, channel, m);
    assert multiset(e) == multiset(f);
    hide Inv; hide Matching;
    CountedOnce(e);
    forall h ensures h in e <==> multiset(e)[h] > 0 { assert h in e <==> h in multiset(e); }
  }

  lemma {:induction false} IdsAre(hs: seq<Sub>)
    ensures forall j :: 0 <= j < |hs| ==> hs[j].id in Ids(hs)
  {
    if hs != [] { IdsAre(hs[..|hs| - 1]); }
  }

  /** The list dispatch walks through. */
  function Listed(s: State, channel: string, m: Matcher): seq<Sub>
    requires ListsOk(s)
  {
    Prepare(s, channel, m).lists[channel].Elements()
  }

  lemma PrepareKeepsInv(s: State, channel: string, m: Matcher)
    requires Inv(s, m)
    ensures var r := Prepare(s, channel, m);
      Inv(r, m) && r.all == s.all && Ids(r.lists[channel].Elements()) <= r.scheduled
  {
    PerformKeepsInv(s, DoLookup(channel), m);
  }

  lemma PreparedAhead(s: State, channel: string, m: Matcher)
    requires Inv(s, m)
    ensures var hs := Listed(s, channel, m); Once(hs) && Ahead(Prepare(s, channel, m), channel, 0, hs, m)
    ensures Prepare(s, channel, m).lists[channel].len == |Listed(s, channel, m)| && Prepare(s, channel, m).all == s.all
    ensures forall h :: multiset(Listed(s, channel, m))[h] == if h in s.all && m(h.pattern, channel) then 1 else 0
  {
    PrepareKeepsInv(s, channel, m);
    var s1, hs := Prepare(s, channel, m), Listed(s, channel, m);
    ListedOnce(s1, channel, m);
    IdsAre(hs);
    hide Matching; hide Inv; hide Prepare; hide Once; hide Ids;
    forall j | 0 <= j < |hs| ensures SlotHolds(s1, channel, j, hs[j], m) { assert hs[j] in hs; }
  }

  /** Each handler that matches at the start is called once, and no other. */
  ghost predicate AllCalledOnce(s: State, channel: string, script: seq<seq<Op>>, m: Matcher)
    requires ListsOk(s)
  {
    forall h :: multiset(Dispatch(s, channel, script, m).1)[h] == if h in s.all && m(h.pattern, channel) then 1 else 0
  }

  /** Exactly the handlers that match at the start are called, once each, if and only if
      all callbacks are careful; and then in the order of the list. */
  lemma DispatchCallsAll(s: State, channel: string, script: seq<seq<Op>>, m: Matcher)
    requires Inv(s, m)
    ensures AllCalledOnce(s, channel, script, m) <==>
      Careful(Prepare(s, channel, m), channel, 0, Listed(s, channel, m), script, m)
    ensures AllCalledOnce(s, channel, script, m) ==> Dispatch(s, channel, script, m).1 == Listed(s, channel, m)
  {
    var s1, hs := Prepare(s, channel, m), Listed(s, channel, m);
    PreparedAhead(s, channel, m);
    CallsAhead(s1, channel, 0, hs, script, m);
    assert hs[0..] == hs;
    var calls := Dispatch(s, channel, script, m).1;
    assert calls == CallFrom(s1, channel, 0, |hs|, script, m).1;
    hide CallFrom; hide Careful; hide Dispatch; hide Prepare; hide Listed; hide Ahead;
    if !Careful(s1, channel, 0, hs, script, m) {
      var j :| 0 <= j < |hs| && hs[j] !in calls;
      assert hs[j] in hs && multiset(hs)[hs[j]] == 1 && multiset(calls)[hs[j]] == 0;
    }
  }

  /** The failing half: a careless callback leaves out a handler that matched at the start. */
  lemma CarelessMisses(s: State, channel: string, script: seq<seq<Op>>, m: Matcher) returns (h: Sub)
    requires Inv(s, m) && !Careful(Prepare(s, channel, m), channel, 0, Listed(s, channel, m), script, m)
    ensures h in s.all && m(h.pattern, channel) && h !in Dispatch(s, channel, script, m).1
  {
    var s1, hs := Prepare(s, channel, m), Listed(s, channel, m);
    PreparedAhead(s, channel, m);
    CallsAhead(s1, channel, 0, hs, script, m);
    var j :| 0 <= j < |hs| && hs[j] !in CallFrom(s1, channel, 0, |hs|, script, m).1;
    assert SlotHolds(s1, channel, j, hs[j], m);
    h := hs[j];
  }

  predicate OpsSpare(ops: seq<Op>, hs: seq<Sub>) {
    forall k :: 0 <= k < |ops| && ops[k].DoUnsubscribe? ==> ops[k].h !in hs
  }

  /** No callback unsubscribes one of these. */
  predicate Spares(script: seq<seq<Op>>, hs: seq<Sub>) {
    forall k :: 0 <= k < |script| ==> OpsSpare(script[k], hs)
  }

  ghost predicate AllThere(s: State, channel: string, hs: seq<Sub>, m: Matcher) {
    Inv(s, m) && Once(hs) && forall h :: h in hs ==> h in s.all && m(h.pattern, channel)
  }

  lemma OnceCounts(hs: seq<Sub>, h: Sub)
    requires Once(hs) && h in hs
    ensures multiset(hs)[h] == 1
  {
    var p :| 0 <= p < |hs| && hs[p] == h;
    assert hs == hs[..p] + [h] + hs[p + 1..];
    assert h !in hs[..p] && h !in hs[p + 1..];
  }

  lemma NoFewerLive(s: State, channel: string, hs: seq<Sub>, m: Matcher)
    requires AllThere(s, channel, hs, m)
    ensures |hs| <= |Matching(s.all, channel, m)|
  {
    var f := Matching(s.all, channel, m);
    MatchingIs(s.all, channel, m);
    hide Matching; hide Inv;
    forall h | h in hs ensures multiset(hs)[h] <= multiset(f)[h] { OnceCounts(hs, h); assert h in multiset(f); }
    assert multiset(hs) <= multiset(f);
    assert |multiset(hs)| + |multiset(f) - multiset(hs)| == |multiset(f)|;
  }

  lemma {:induction false} SparingOps(s: State, ops: seq<Op>, channel: string, i: nat, hs: seq<Sub>, m: Matcher)
    requires AllThere(s, channel, hs, m) && OpsSpare(ops, hs) && i < |hs|
    ensures OpsCareful(s, ops, channel, i, hs, m) && AllThere(PerformAll(s, ops, m), channel, hs, m)
    decreases |ops|
  {
    if ops != [] {
      NoFewerLive(s, channel, hs, m);
      PerformKeepsInv(s, ops[0], m);
      assert Distinct(s.all);
      if ops[0].DoUnsubscribe? { RemoveKeepsDistinct(s.all, ops[0].h); }
      hide Inv; hide Matching; hide Remove; hide Distinct;
      SparingOps(Perform(s, ops[0], m), ops[1..], channel, i, hs, m);
    }
  }

  /** Callbacks that unsubscribe no listed handler are careful, whatever they subscribe. */
  lemma {:induction false} SparingIsCareful(s: State, channel: string, i: nat, hs: seq<Sub>, script: seq<seq<Op>>,
      m: Matcher)
    requires AllThere(s, channel, hs, m) && Spares(script, hs)
    ensures Careful(s, channel, i, hs, script, m)
    decreases |script|
  {
    if script != [] && i < |hs| {
      SparingOps(s, script[0], channel, i, hs, m);
      hide AllThere; hide OpsCareful; hide OpsSpare;
      SparingIsCareful(PerformAll(s, script[0], m), channel, i + 1, hs, script[1..], m);
    }
  }

  // ----- what dispatch leaves behind -----

  lemma {:induction false} CallFromKeepsInv(s: State, channel: string, i: nat, n: nat, script: seq<seq<Op>>, m: Matcher)
    requires Inv(s, m)
    ensures Inv(CallFrom(s, channel, i, n, script, m).0, m)
    decreases if i < n then n - i else 0
  {
    if i < n && channel in s.lists && i < |s.lists[channel].slots| {
      if s.lists[channel].slots[i].id in s.marked {
        CallFromKeepsInv(s, channel, i + 1, n, script, m);
      } else {
        CacheAgrees(s, Head(script), m);
        CallFromKeepsInv(PerformAll(s, Head(script), m), channel, i + 1, n, Rest(script), m);
      }
    }
  }

  lemma RemoveAbsent(s: State, h: Sub, m: Matcher)
    requires Inv(s, m) && h !in s.all
    ensures Remove(s.all, h) == s.all && RemoveFromLists(s.lists, h) == s.lists
  {
    forall c | c in s.lists ensures s.lists[c].RemoveFast(h) == s.lists[c] {
      ListedOnce(s, c, m);
      var i := Find(s.lists[c].Elements(), h);
    }
  }

  /** Taking out what is marked changes nothing: it was taken out when it was marked. */
  lemma {:induction false} RemoveGoneIdle(s: State, gone: seq<Sub>, m: Matcher)
    requires Inv(s, m) && forall h :: h in gone ==> h.id in s.marked
    ensures RemoveGone(s, gone) == s
    decreases |gone|
  {
    if gone != [] {
      var h := gone[0];
      assert h.id in s.marked && h !in s.all;
      RemoveAbsent(s, h, m);
      RemoveGoneIdle(s, gone[1..], m);
    }
  }

  /** Dropping the references and removing what is marked keeps the lists as they are. */
  lemma ClearedKeepsInv(s: State, listed: seq<Sub>, m: Matcher)
    requires Inv(s, m)
    ensures ListsOk(Unreferenced(s, listed).0)
    ensures Inv(RemoveGone(Unreferenced(s, listed).0, Unreferenced(s, listed).1), m)
  {
    UnreferencedKeeps(s, listed);
    hide Matching; hide Unreferenced;
    RemoveGoneIdle(Unreferenced(s, listed).0, Unreferenced(s, listed).1, m);
  }

  /** Whatever the callbacks do, the cached lists agree with the master list again. */
  lemma DispatchKeepsInv(s: State, channel: string, script: seq<seq<Op>>, m: Matcher)
    requires Inv(s, m)
    ensures Inv(Dispatch(s, channel, script, m).0, m)
  {
    PrepareKeepsInv(s, channel, m);
    var s0 := Prepare(s, channel, m);
    CallFromKeepsInv(s0, channel, 0, s0.lists[channel].len, script, m);
    CallsKeepOk(s, channel, script, m);
    var s1 := Calls(s, channel, script, m).0;
    assert Inv(s1, m);
    hide CallFrom; hide Prepare; hide Calls; hide Inv; hide Unreferenced; hide RemoveGone;
    ClearedKeepsInv(s1, s1.lists[channel].slots[..s0.lists[channel].len], m);
  }

  // ----- the list of what is freed -----

  ghost predicate SlotKept(s: State, channel: string, j: nat, h: Sub, m: Matcher)
    requires channel in s.lists && j < |s.lists[channel].slots|
  {
    && s.lists[channel].slots[j] == h && h.id in s.scheduled && m(h.pattern, channel)
    && (h in s.all || h.id in s.marked)
  }

  /** The slots dispatch began with are untouched; what was unsubscribed meanwhile is marked. */
  ghost predicate Intact(s: State, channel: string, hs: seq<Sub>, m: Matcher) {
    && Inv(s, m) && channel in s.lists && |hs| <= |s.lists[channel].slots|
    && (forall j :: 0 <= j < |hs| ==> SlotKept(s, channel, j, hs[j], m))
  }

  /** What was listed is unsubscribed from the end of the list only, and nothing takes
      the place of what was unsubscribed. */
  predicate OpTidy(s: State, op: Op, channel: string, hs: seq<Sub>, m: Matcher) {
    var live := |Matching(s.all, channel, m)|;
    match op
    case DoUnsubscribe(h) => h in s.all && h in hs ==> 0 < live <= |hs| && h == hs[live - 1]
    case DoSubscribe(p) => m(p, channel) ==> |hs| <= live
    case DoLookup(c) => true
  }

  predicate OpsTidy(s: State, ops: seq<Op>, channel: string, hs: seq<Sub>, m: Matcher)
    requires ListsOk(s)
    decreases |ops|
  {
    ops == [] || (OpTidy(s, ops[0], channel, hs, m) && OpsTidy(Perform(s, ops[0], m), ops[1..], channel, hs, m))
  }

  /** Every operation of every callback that is called is tidy, in the state it finds. */
  predicate Tidy(s: State, channel: string, i: nat, hs: seq<Sub>, script: seq<seq<Op>>, m: Matcher)
    requires ListsOk(s)
    decreases if i < |hs| then |hs| - i else 0
  {
    if i >= |hs| then true
    else if hs[i].id in s.marked then Tidy(s, channel, i + 1, hs, script, m)
    else
      && OpsTidy(s, Head(script), channel, hs, m)
      && Tidy(PerformAll(s, Head(script), m), channel, i + 1, hs, Rest(script), m)
  }

  /** y was unsubscribed and has lost its slot. */
  ghost predicate Lost(s: State, channel: string, n: nat, y: Sub) {
    y.id in s.marked && Passed(s, channel, 0, n, y)
  }

  ghost predicate SomeLost(s: State, channel: string, hs: seq<Sub>) {
    exists j :: 0 <= j < |hs| && Lost(s, channel, |hs|, hs[j])
  }

  /** The new subscription takes the slot of a handler that was unsubscribed. */
  lemma SlotTaken(s: State, p: string, channel: string, hs: seq<Sub>, m: Matcher)
    requires Intact(s, channel, hs, m) && Once(hs) && m(p, channel) && s.lists[channel].len < |hs|
    ensures Lost(Subscribe(s, p, m), channel, |hs|, hs[s.lists[channel].len])
  {
    var r, live := Subscribe(s, p, m), s.lists[channel].len;
    ListedOnce(s, channel, m);
    forall j | 0 <= j < |hs| ensures s.lists[channel].slots[j] == hs[j] { assert SlotKept(s, channel, j, hs[j], m); }
    assert hs[live] !in s.lists[channel].Elements();
    assert SlotKept(s, channel, live, hs[live], m);
    hide Matching;
  }

  lemma KeepsInvToo(s: State, p: string, channel: string, hs: seq<Sub>, m: Matcher)
    requires Intact(s, channel, hs, m)
    ensures Inv(Subscribe(s, p, m), m) && ListsOk(s)
  {
    SubscribeKeepsInv(s, p, m);
  }

  /** With all slots in use, or on another channel, no slot is taken. */
  lemma SubscribeSpares(s: State, p: string, channel: string, hs: seq<Sub>, m: Matcher)
    requires Intact(s, channel, hs, m) && (m(p, channel) ==> |hs| <= s.lists[channel].len)
    ensures Intact(Subscribe(s, p, m), channel, hs, m)
  {
    hide Inv; hide Matching;
    KeepsInvToo(s, p, channel, hs, m);
    var r := Subscribe(s, p, m);
    forall j | 0 <= j < |hs| ensures SlotKept(r, channel, j, hs[j], m) { assert SlotKept(s, channel, j, hs[j], m); }
  }

  lemma IntactMeans(s: State, channel: string, hs: seq<Sub>, m: Matcher)
    requires Intact(s, channel, hs, m)
    ensures ListsOk(s) && channel in s.lists && s.lists[channel].len == |Matching(s.all, channel, m)|
  {
    LiveCount(s, channel, m);
  }

  lemma SubscribeTidy(s: State, p: string, channel: string, hs: seq<Sub>, m: Matcher)
    requires Intact(s, channel, hs, m) && Once(hs)
    ensures OpTidy(s, DoSubscribe(p), channel, hs, m) ==> Intact(Subscribe(s, p, m), channel, hs, m)
    ensures !OpTidy(s, DoSubscribe(p), channel, hs, m) ==> SomeLost(Subscribe(s, p, m), channel, hs)
  {
    hide Inv; hide Matching; hide Subscribe; hide SlotKept; hide Lost;
    IntactMeans(s, channel, hs, m);
    if OpTidy(s, DoSubscribe(p), channel, hs, m) {
      SubscribeSpares(s, p, channel, hs, m);
    } else {
      SlotTaken(s, p, channel, hs, m);
    }
  }

  lemma OtherSlotStays(a: PtrArray, h: Sub, j: nat)
    requires a.Ok() && j < |a.slots| && a.slots[j] != h
    ensures |a.RemoveFast(h).slots| == |a.slots| && a.RemoveFast(h).slots[j] == a.slots[j]
  {}

  lemma OtherGoes(s: State, h: Sub, channel: string, hs: seq<Sub>, m: Matcher)
    requires Intact(s, channel, hs, m) && h in s.all && h !in hs
    ensures Intact(Unsubscribe(s, h), channel, hs, m)
  {
    UnsubscribeKeepsInv(s, h, m);
    assert Distinct(s.all);
    RemoveKeepsDistinct(s.all, h);
    hide Inv; hide Matching; hide Remove; hide Distinct; hide Find; hide PtrArray.RemoveFast;
    forall j | 0 <= j < |hs| ensures SlotKept(Unsubscribe(s, h), channel, j, hs[j], m) {
      assert SlotKept(s, channel, j, hs[j], m) && hs[j] in hs;
      OtherSlotStays(s.lists[channel], h, j);
    }
  }

  /** A listed handler that is still subscribed lives in its own slot. */
  lemma OwnSlot(s: State, p: nat, channel: string, hs: seq<Sub>, m: Matcher)
    requires Intact(s, channel, hs, m) && Once(hs) && p < |hs| && hs[p] in s.all
    ensures Find(s.lists[channel].Elements(), hs[p]) == p < s.lists[channel].len
    ensures forall j :: 0 <= j < |s.lists[channel].slots| && (j < |hs| || j < s.lists[channel].len) && j != p ==>
      s.lists[channel].slots[j] != hs[p]
  {
    ListedOnce(s, channel, m);
    var slots, e := s.lists[channel].slots, s.lists[channel].Elements();
    assert SlotKept(s, channel, p, hs[p], m) && hs[p] in e;
    hide Matching; hide Inv;
    forall j | 0 <= j < |hs| && j != p ensures slots[j] != hs[p] { assert SlotKept(s, channel, j, hs[j], m); }
    var i := Find(e, hs[p]);
    assert e[i] == slots[i] == hs[p];
    assert i == p;
  }

  lemma SlotOverwritten(a: PtrArray, h: Sub, p: nat, n: nat)
    requires a.Ok() && Find(a.Elements(), h) == p < a.len - 1
    requires forall j :: 0 <= j < |a.slots| && (j < n || j < a.len) && j != p ==> a.slots[j] != h
    ensures var r := a.RemoveFast(h);
      && |r.slots| == |a.slots| && r.len == a.len - 1
      && forall j :: 0 <= j < |r.slots| && (j < n || j < r.len) ==> r.slots[j] != h
  {}

  lemma InnerGoes(s: State, h: Sub, p: nat, channel: string, hs: seq<Sub>)
    requires ListsOk(s) && channel in s.lists && p < |hs| <= |s.lists[channel].slots| && hs[p] == h
    requires h in s.all && h.id in s.scheduled && h.id < s.nextId
    requires Find(s.lists[channel].Elements(), h) == p < s.lists[channel].len - 1
    requires forall j :: 0 <= j < |s.lists[channel].slots| && (j < |hs| || j < s.lists[channel].len) && j != p ==>
      s.lists[channel].slots[j] != h
    ensures SomeLost(Unsubscribe(s, h), channel, hs)
  {
    SlotOverwritten(s.lists[channel], h, p, |hs|);
    hide Remove; hide Find; hide PtrArray.RemoveFast;
    assert Lost(Unsubscribe(s, h), channel, |hs|, hs[p]);
  }

  lemma LastOut(a: PtrArray, h: Sub)
    requires a.Ok() && 0 < a.len && Find(a.Elements(), h) == a.len - 1
    ensures a.RemoveFast(h) == PtrArray(a.slots, a.len - 1)
  {
    assert a.Elements()[a.len - 1] == h;
  }

  lemma LastGoes(s: State, h: Sub, channel: string, hs: seq<Sub>, m: Matcher)
    requires Intact(s, channel, hs, m) && h in s.all && h.id in s.scheduled && Distinct(s.all)
    requires 0 < s.lists[channel].len && Find(s.lists[channel].Elements(), h) == s.lists[channel].len - 1
    ensures Intact(Unsubscribe(s, h), channel, hs, m)
  {
    UnsubscribeKeepsInv(s, h, m);
    RemoveKeepsDistinct(s.all, h);
    LastOut(s.lists[channel], h);
    hide Inv; hide Matching; hide Remove; hide Distinct; hide Find; hide PtrArray.RemoveFast;
    forall j | 0 <= j < |hs| ensures SlotKept(Unsubscribe(s, h), channel, j, hs[j], m) {
      assert SlotKept(s, channel, j, hs[j], m);
    }
  }

  lemma ListedGoes(s: State, h: Sub, channel: string, hs: seq<Sub>, m: Matcher)
    requires Intact(s, channel, hs, m) && Once(hs) && h in s.all && h in hs
    ensures OpTidy(s, DoUnsubscribe(h), channel, hs, m) ==> Intact(Unsubscribe(s, h), channel, hs, m)
    ensures !OpTidy(s, DoUnsubscribe(h), channel, hs, m) ==> SomeLost(Unsubscribe(s, h), channel, hs)
  {
    var p :| 0 <= p < |hs| && hs[p] == h;
    OwnSlot(s, p, channel, hs, m);
    LiveCount(s, channel, m);
    assert SlotKept(s, channel, p, hs[p], m) && Distinct(s.all) && h.id < s.nextId;
    assert OpTidy(s, DoUnsubscribe(h), channel, hs, m) <==> p == s.lists[channel].len - 1;
    assert ListsOk(s) && |hs| <= |s.lists[channel].slots| && h.id in s.scheduled;
    hide *;
    if p == s.lists[channel].len - 1 {
      LastGoes(s, h, channel, hs, m);
    } else {
      InnerGoes(s, h, p, channel, hs);
    }
  }

  lemma UnsubscribeTidy(s: State, h: Sub, channel: string, hs: seq<Sub>, m: Matcher)
    requires Intact(s, channel, hs, m) && Once(hs)
    ensures OpTidy(s, DoUnsubscribe(h), channel, hs, m) ==> Intact(Unsubscribe(s, h), channel, hs, m)
    ensures !OpTidy(s, DoUnsubscribe(h), channel, hs, m) ==> SomeLost(Unsubscribe(s, h), channel, hs)
  {
    if h in s.all {
      if h in hs { ListedGoes(s, h, channel, hs, m); } else { OtherGoes(s, h, channel, hs, m); }
    }
  }

  lemma OpTidies(s: State, op: Op, channel: string, hs: seq<Sub>, m: Matcher)
    requires Intact(s, channel, hs, m) && Once(hs)
    ensures OpTidy(s, op, channel, hs, m) ==> Intact(Perform(s, op, m), channel, hs, m)
    ensures !OpTidy(s, op, channel, hs, m) ==> SomeLost(Perform(s, op, m), channel, hs)
  {
    match op
    case DoSubscribe(p) => SubscribeTidy(s, p, channel, hs, m);
    case DoUnsubscribe(h) => UnsubscribeTidy(s, h, channel, hs, m);
    case DoLookup(c) =>
      PerformKeepsInv(s, op, m);
      forall j | 0 <= j < |hs| ensures SlotKept(Lookup(s, c, m), channel, j, hs[j], m) {
        assert SlotKept(s, channel, j, hs[j], m);
      }
  }

  lemma LostOps(s: State, ops: seq<Op>, channel: string, n: nat, y: Sub, m: Matcher)
    requires Lost(s, channel, n, y)
    ensures Lost(PerformAll(s, ops, m), channel, n, y)
  {
    hide PerformAll;
    MarkedStays(s, ops, y, m);
    PassedOps(s, ops, channel, 0, n, y, m);
  }

  lemma {:induction false} LostCalls(s: State, channel: string, i: nat, n: nat, script: seq<seq<Op>>, y: Sub,
      m: Matcher)
    requires Lost(s, channel, n, y)
    ensures Lost(CallFrom(s, channel, i, n, script, m).0, channel, n, y)
    decreases if i < n then n - i else 0
  {
    if i < n && i < |s.lists[channel].slots| {
      if s.lists[channel].slots[i].id in s.marked {
        LostCalls(s, channel, i + 1, n, script, y, m);
      } else {
        LostOps(s, Head(script), channel, n, y, m);
        LostCalls(PerformAll(s, Head(script), m), channel, i + 1, n, Rest(script), y, m);
      }
    }
  }

  lemma {:induction false} OpsTidies(s: State, ops: seq<Op>, channel: string, hs: seq<Sub>, m: Matcher)
    requires Intact(s, channel, hs, m) && Once(hs)
    ensures OpsTidy(s, ops, channel, hs, m) ==> Intact(PerformAll(s, ops, m), channel, hs, m)
    ensures !OpsTidy(s, ops, channel, hs, m) ==> SomeLost(PerformAll(s, ops, m), channel, hs)
    decreases |ops|
  {
    if ops != [] {
      var s1 := Perform(s, ops[0], m);
      OpTidies(s, ops[0], channel, hs, m);
      hide Perform; hide Intact; hide Lost; hide OpTidy;
      if OpTidy(s, ops[0], channel, hs, m) {
        OpsTidies(s1, ops[1..], channel, hs, m);
      } else {
        var j :| 0 <= j < |hs| && Lost(s1, channel, |hs|, hs[j]);
        LostOps(s1, ops[1..], channel, |hs|, hs[j], m);
      }
    }
  }

  lemma TidyDone(s: State, channel: string, i: nat, hs: seq<Sub>, script: seq<seq<Op>>, m: Matcher)
    requires ListsOk(s) && i >= |hs|
    ensures Tidy(s, channel, i, hs, script, m) && CallFrom(s, channel, i, |hs|, script, m).0 == s
  {}

  lemma TidyStep(s: State, channel: string, i: nat, hs: seq<Sub>, script: seq<seq<Op>>, m: Matcher)
    requires Intact(s, channel, hs, m) && i < |hs|
    ensures var s1 := PerformAll(s, Head(script), m);
      if hs[i].id in s.marked then
        && (Tidy(s, channel, i, hs, script, m) <==> Tidy(s, channel, i + 1, hs, script, m))
        && CallFrom(s, channel, i, |hs|, script, m).0 == CallFrom(s, channel, i + 1, |hs|, script, m).0
      else
        && (Tidy(s, channel, i, hs, script, m) <==>
              OpsTidy(s, Head(script), channel, hs, m) && Tidy(s1, channel, i + 1, hs, Rest(script), m))
        && CallFrom(s, channel, i, |hs|, script, m).0 == CallFrom(s1, channel, i + 1, |hs|, Rest(script), m).0
  {
    assert SlotKept(s, channel, i, hs[i], m);
    hide PerformAll; hide OpsTidy; hide Matching;
  }

  lemma SomeLostCalls(s: State, channel: string, i: nat, hs: seq<Sub>, script: seq<seq<Op>>, m: Matcher)
    requires SomeLost(s, channel, hs)
    ensures ListsOk(s) && SomeLost(CallFrom(s, channel, i, |hs|, script, m).0, channel, hs)
  {
    var j :| 0 <= j < |hs| && Lost(s, channel, |hs|, hs[j]);
    assert ListsOk(s);
    hide Lost; hide CallFrom;
    LostCalls(s, channel, i, |hs|, script, hs[j], m);
  }

  lemma {:induction false} CallsTidy(s: State, channel: string, i: nat, hs: seq<Sub>, script: seq<seq<Op>>, m: Matcher)
    requires Intact(s, channel, hs, m) && Once(hs)
    ensures Tidy(s, channel, i, hs, script, m) ==> Intact(CallFrom(s, channel, i, |hs|, script, m).0, channel, hs, m)
    ensures !Tidy(s, channel, i, hs, script, m) ==> SomeLost(CallFrom(s, channel, i, |hs|, script, m).0, channel, hs)
    decreases if i < |hs| then |hs| - i else 0
  {
    var s1 := PerformAll(s, Head(script), m);
    if i < |hs| {
      TidyStep(s, channel, i, hs, script, m);
      OpsTidies(s, Head(script), channel, hs, m);
    } else {
      TidyDone(s, channel, i, hs, script, m);
    }
    hide *;
    if i < |hs| {
      if hs[i].id in s.marked {
        CallsTidy(s, channel, i + 1, hs, script, m);
      } else if OpsTidy(s, Head(script), channel, hs, m) {
        CallsTidy(s1, channel, i + 1, hs, Rest(script), m);
      } else {
        SomeLostCalls(s1, channel, i + 1, hs, Rest(script), m);
      }
    }
  }

  lemma {:induction false} GoneCount(s: State, hs: seq<Sub>, h: Sub)
    ensures multiset(Unreferenced(s, hs).1)[h] == if h.id in s.marked then multiset(hs)[h] else 0
    decreases |hs|
  {
    if hs != [] {
      GoneCount(s, hs[..|hs| - 1], h);
      assert hs == hs[..|hs| - 1] + [hs[|hs| - 1]];
    }
  }

  /** Each listed handler that was unsubscribed meanwhile is freed once. */
  ghost predicate FreedOnce(s: State, channel: string, script: seq<seq<Op>>, m: Matcher)
    requires ListsOk(s)
  {
    forall h :: h in Listed(s, channel, m) && h.id in Calls(s, channel, script, m).0.marked ==>
      multiset(Gone(s, channel, script, m))[h] == 1
  }

  /** Each of hs that is marked is in the list made of their slots once. */
  ghost predicate FreesOnce(s: State, channel: string, hs: seq<Sub>)
    requires channel in s.lists && |hs| <= |s.lists[channel].slots|
  {
    forall h :: h in hs && h.id in s.marked ==> multiset(Unreferenced(s, s.lists[channel].slots[..|hs|]).1)[h] == 1
  }

  lemma FreedOnceIs(s: State, channel: string, script: seq<seq<Op>>, m: Matcher)
    requires Inv(s, m)
    ensures var s1, hs := Calls(s, channel, script, m).0, Listed(s, channel, m);
      && ListsOk(s1) && channel in s1.lists && |hs| <= |s1.lists[channel].slots|
      && (FreedOnce(s, channel, script, m) <==> FreesOnce(s1, channel, hs))
  {
    PreparedAhead(s, channel, m);
    CallsKeepOk(s, channel, script, m);
    hide Calls; hide Prepare; hide Inv; hide Unreferenced; hide Listed; hide Ahead;
  }

  lemma KeptIsFreedOnce(s: State, channel: string, hs: seq<Sub>, m: Matcher)
    requires Intact(s, channel, hs, m) && Once(hs)
    ensures channel in s.lists && |hs| <= |s.lists[channel].slots| && FreesOnce(s, channel, hs)
  {
    var listed := s.lists[channel].slots[..|hs|];
    forall j | 0 <= j < |hs| ensures listed[j] == hs[j] { assert SlotKept(s, channel, j, hs[j], m); }
    assert listed == hs;
    hide Intact; hide Unreferenced;
    forall h | h in hs && h.id in s.marked ensures multiset(Unreferenced(s, hs).1)[h] == 1 {
      GoneCount(s, hs, h);
      OnceCounts(hs, h);
    }
  }

  /** A lost handler is never freed. */
  lemma LostIsKept(s: State, channel: string, hs: seq<Sub>)
    requires SomeLost(s, channel, hs)
    ensures channel in s.lists && |hs| <= |s.lists[channel].slots| && !FreesOnce(s, channel, hs)
  {
    var j :| 0 <= j < |hs| && Lost(s, channel, |hs|, hs[j]);
    GoneCount(s, s.lists[channel].slots[..|hs|], hs[j]);
    assert hs[j] in hs;
  }

  /** Each handler unsubscribed by a callback is freed once if and only if all callbacks
      are tidy. Two handlers that each unsubscribe themselves are not. */
  lemma FreedOnceExactly(s: State, channel: string, script: seq<seq<Op>>, m: Matcher)
    requires Inv(s, m)
    ensures FreedOnce(s, channel, script, m) <==>
      Tidy(Prepare(s, channel, m), channel, 0, Listed(s, channel, m), script, m)
  {
    var s0, hs := Prepare(s, channel, m), Listed(s, channel, m);
    PreparedAhead(s, channel, m);
    forall j | 0 <= j < |hs| ensures SlotKept(s0, channel, j, hs[j], m) { assert SlotHolds(s0, channel, j, hs[j], m); }
    CallsTidy(s0, channel, 0, hs, script, m);
    var s1 := Calls(s, channel, script, m).0;
    FreedOnceIs(s, channel, script, m);
    assert s1 == CallFrom(s0, channel, 0, |hs|, script, m).0;
    hide *;
    if Tidy(s0, channel, 0, hs, script, m) {
      KeptIsFreedOnce(s1, channel, hs, m);
    } else {
      LostIsKept(s1, channel, hs);
    }
  }

  lemma FirstUnsubscribes(s: State, channel: string, hs: seq<Sub>, m: Matcher)
    requires ListsOk(s) && Once(hs) && |hs| == |Matching(s.all, channel, m)| >= 2
    requires hs[0] in s.all && hs[0].id !in s.marked
    ensures Careful(s, channel, 0, hs, [[DoUnsubscribe(hs[0])]], m)
      && !Tidy(s, channel, 0, hs, [[DoUnsubscribe(hs[0])]], m)
  {
    hide Matching; hide PerformAll; hide Perform;
    var ops: seq<Op>, script: seq<seq<Op>> := [DoUnsubscribe(hs[0])], [[DoUnsubscribe(hs[0])]];
    var none: seq<Op>, done: seq<seq<Op>> := [], [];
    assert ops[1..] == none && script[1..] == done;
    assert hs[0] != hs[|hs| - 1] && hs[0] !in hs[1..];
    assert OpCareful(s, ops[0], channel, 0, hs, m) && OpsCareful(Perform(s, ops[0], m), none, channel, 0, hs, m);
    assert Careful(PerformAll(s, ops, m), channel, 1, hs, done, m);
    assert !OpTidy(s, ops[0], channel, hs, m);
    assert !OpsTidy(s, Head(script), channel, hs, m);
  }

  /** If the first of several handlers unsubscribes itself, all are called once, but it is
      not freed once: its slot went to another. */
  lemma SelfUnsubscribe(s: State, channel: string, m: Matcher)
    requires Inv(s, m) && |Listed(s, channel, m)| >= 2
    ensures var script := [[DoUnsubscribe(Listed(s, channel, m)[0])]];
      AllCalledOnce(s, channel, script, m) && !FreedOnce(s, channel, script, m)
  {
    var s0, hs := Prepare(s, channel, m), Listed(s, channel, m);
    PreparedAhead(s, channel, m);
    LiveCount(s0, channel, m);
    assert SlotHolds(s0, channel, 0, hs[0], m);
    FirstUnsubscribes(s0, channel, hs, m);
    DispatchCallsAll(s, channel, [[DoUnsubscribe(hs[0])]], m);
    FreedOnceExactly(s, channel, [[DoUnsubscribe(hs[0])]], m);
  }

  // ----- a dispatch inside a callback -----

  lemma {:induction false} FlagsStay(s: State, ops: seq<Op>, m: Matcher)
    requires ListsOk(s)
    ensures PerformAll(s, ops, m).scheduled == s.scheduled
    decreases |ops|
  {
    if ops != [] { FlagsStay(Perform(s, ops[0], m), ops[1..], m); }
  }

  lemma {:induction false} CallsKeepFlags(s: State, channel: string, i: nat, n: nat, script: seq<seq<Op>>, m: Matcher)
    requires ListsOk(s)
    ensures CallFrom(s, channel, i, n, script, m).0.scheduled == s.scheduled
    decreases if i < n then n - i else 0
  {
    hide Perform; hide PerformAll;
    if i < n && channel in s.lists && i < |s.lists[channel].slots| {
      if s.lists[channel].slots[i].id in s.marked {
        CallsKeepFlags(s, channel, i + 1, n, script, m);
      } else {
        FlagsStay(s, Head(script), m);
        CallsKeepFlags(PerformAll(s, Head(script), m), channel, i + 1, n, Rest(script), m);
      }
    }
  }

  lemma {:induction false} FlagsDropped(s: State, hs: seq<Sub>)
    ensures Unreferenced(s, hs).0.scheduled == s.scheduled - Ids(hs)
    decreases |hs|
  {
    if hs != [] { FlagsDropped(s, hs[..|hs| - 1]); }
  }

  lemma {:induction false} RemovingKeepsFlags(s: State, gone: seq<Sub>)
    requires ListsOk(s)
    ensures RemoveGone(s, gone).scheduled == s.scheduled
    decreases |gone|
  {
    if gone != [] {
      RemovingKeepsFlags(s.(all := Remove(s.all, gone[0]), lists := RemoveFromLists(s.lists, gone[0])), gone[1..]);
    }
  }

  /** callback_scheduled is a flag and not a count: a dispatch drops the references to all
      handlers in its slots, those of a dispatch around it included. */
  lemma DispatchDropsFlags(s: State, channel: string, script: seq<seq<Op>>, m: Matcher)
    requires ListsOk(s)
    ensures channel in Calls(s, channel, script, m).0.lists
    ensures var n := Prepare(s, channel, m).lists[channel].len;
      var slots := Calls(s, channel, script, m).0.lists[channel].slots;
      n <= |slots| && Dispatch(s, channel, script, m).0.scheduled == Prepare(s, channel, m).scheduled - Ids(slots[..n])
  {
    hide CallFrom; hide Unreferenced; hide RemoveGone; hide Prepare; hide Ids;
    CallsKeepOk(s, channel, script, m);
    var s0, s1 := Prepare(s, channel, m), Calls(s, channel, script, m).0;
    CallsKeepFlags(s0, channel, 0, s0.lists[channel].len, script, m);
    var listed := s1.lists[channel].slots[..s0.lists[channel].len];
    FlagsDropped(s1, listed);
    UnreferencedKeeps(s1, listed);
    RemovingKeepsFlags(Unreferenced(s1, listed).0, Gone(s, channel, script, m));
  }

  /** lcm_unsubscribe frees h at once, or leaves that to a dispatch that has a reference. */
  predicate FreesAtOnce(s: State, h: Sub) { h in s.all && h.id !in s.scheduled }

  lemma {:induction false} IdleCalls(s: State, channel: string, i: nat, n: nat, m: Matcher)
    requires ListsOk(s)
    ensures CallFrom(s, channel, i, n, [], m).0 == s
    decreases if i < n then n - i else 0
  {
    assert PerformAll(s, [], m) == s;
    hide PerformAll;
    if i < n && channel in s.lists && i < |s.lists[channel].slots| { IdleCalls(s, channel, i + 1, n, m); }
  }

  /** A dispatch whose callbacks leave the lists alone. */
  lemma IdleDispatch(s: State, c: string, m: Matcher)
    requires Inv(s, m)
    ensures Dispatch(s, c, [], m).0 == Prepare(s, c, m).(scheduled := s.scheduled - Ids(Listed(s, c, m)))
  {
    var s0, hs := Prepare(s, c, m), Listed(s, c, m);
    PrepareKeepsInv(s, c, m);
    IdleCalls(s0, c, 0, s0.lists[c].len, m);
    assert s0.lists[c].slots[..s0.lists[c].len] == hs;
    FlagsDropped(s0, hs);
    UnreferencedKeeps(s0, hs);
    hide CallFrom; hide Matching; hide Ids; hide Unreferenced; hide Distinct;
    RemoveGoneIdle(Unreferenced(s0, hs).0, Unreferenced(s0, hs).1, m);
    assert s0.scheduled - Ids(hs) == s.scheduled - Ids(hs);
  }

  lemma {:induction false} IdsMember(hs: seq<Sub>, id: nat) returns (j: nat)
    requires id in Ids(hs)
    ensures j < |hs| && hs[j].id == id
  {
    if hs[|hs| - 1].id == id { j := |hs| - 1; } else { j := IdsMember(hs[..|hs| - 1], id); }
  }

  lemma SameId(all: seq<Sub>, g: Sub, h: Sub)
    requires Distinct(all) && g in all && h in all && g.id == h.id
    ensures g == h
  {
    var i :| 0 <= i < |all| && all[i] == g;
    var j :| 0 <= j < |all| && all[j] == h;
  }

  /** The inner dispatch drops the reference to h exactly if h matches its channel. */
  lemma InnerDrops(s: State, c: string, h: Sub, m: Matcher)
    requires Inv(s, m) && h in s.all
    ensures h.id in Ids(Listed(s, c, m)) <==> m(h.pattern, c)
  {
    var hs := Listed(s, c, m);
    PrepareKeepsInv(s, c, m);
    ListedOnce(Prepare(s, c, m), c, m);
    IdsAre(hs);
    if h.id in Ids(hs) {
      var j := IdsMember(hs, h.id);
      assert hs[j] in hs && Distinct(s.all);
      SameId(s.all, hs[j], h);
    }
    if m(h.pattern, c) { var j :| 0 <= j < |hs| && hs[j] == h; }
  }

  lemma SlotAfterRemoval(a: PtrArray, h: Sub, p: nat)
    requires a.Ok() && p < |a.slots| && a.slots[p] == h && h in a.Elements() && Once(a.Elements())
    ensures |a.RemoveFast(h).slots| == |a.slots|
    ensures a.RemoveFast(h).slots[p] == h <==> a.len <= p + 1
  {
    var i := Find(a.Elements(), h);
    assert a.Elements()[i] == h;
    if p < a.len { assert a.Elements()[p] == h; }
  }

  /** In the i-th callback of a dispatch, a dispatch to channel c and then unsubscribing
      the p-th handler, still to be called: the handler is freed at once and the outer
      dispatch will still walk over it exactly if it matches c and no live slot of the
      outer channel is behind slot p, whose handler would be moved there. */
  lemma FreedUnderOuter(s: State, channel: string, i: nat, hs: seq<Sub>, c: string, p: nat, m: Matcher)
    requires i < p < |hs| && Ahead(s, channel, i + 1, hs, m)
    ensures var r := Dispatch(s, c, [], m).0;
      ListsOk(r) && channel in r.lists && p < |r.lists[channel].slots|
    ensures var r := Dispatch(s, c, [], m).0;
      var after := Unsubscribe(r, hs[p]);
      (FreesAtOnce(r, hs[p]) && after.lists[channel].slots[p] == hs[p])
      <==> m(hs[p].pattern, c) && |Matching(s.all, channel, m)| <= p + 1
  {
    var h := hs[p];
    assert SlotHolds(s, channel, p, h, m);
    IdleDispatch(s, c, m);
    InnerDrops(s, c, h, m);
    LiveCount(s, channel, m);
    ListedOnce(s, channel, m);
    DispatchKeepsInv(s, c, [], m);
    hide Dispatch; hide Matching; hide Ids; hide Inv; hide Ahead; hide Remove;
    SlotAfterRemoval(s.lists[channel], h, p);
  }
}
