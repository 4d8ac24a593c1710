/** The subscription lists of upstream/lcm-java/lcm/lcm/LCM.java, and what subscribers may do
    to them while they are notified. */
module JavaLists {
  import opened Wrappers

  /** SubscriptionRecord: the pattern and the subscriber object. */
  datatype Rec = Rec(regex: string, sub: nat)

  type Matcher = (string, string) -> bool

  function RecordsFor(all: seq<Rec>, channel: string, m: Matcher): seq<Rec> {
    if all == [] then []
    else
      var front := RecordsFor(all[..|all| - 1], channel, m);
      if m(all[|all| - 1].regex, channel) then front + [all[|all| - 1]] else front
  }

  /** null stands for any. */
  predicate Named(r: Rec, regex: Option<string>, sub: Option<nat>) {
    (sub == None || r.sub == sub.value) && (regex == None || r.regex == regex.value)
  }

  /** The records an unsubscribe leaves, in order. */
  function Kept(all: seq<Rec>, regex: Option<string>, sub: Option<nat>): seq<Rec> {
    if all == [] then []
    else
      var front := Kept(all[..|all| - 1], regex, sub);
      if Named(all[|all| - 1], regex, sub) then front else front + [all[|all| - 1]]
  }

  lemma RecordsForSnoc(all: seq<Rec>, r: Rec, c: string, m: Matcher)
    ensures RecordsFor(all + [r], c, m) == if m(r.regex, c) then RecordsFor(all, c, m) + [r] else RecordsFor(all, c, m)
  {
    assert (all + [r])[..|all|] == all;
  }

  lemma KeptSnoc(all: seq<Rec>, r: Rec, regex: Option<string>, sub: Option<nat>)
    ensures Kept(all + [r], regex, sub) == if Named(r, regex, sub) then Kept(all, regex, sub)
      else Kept(all, regex, sub) + [r]
  {
    assert (all + [r])[..|all|] == all;
  }

  /** Unsubscribing and matching can be done in either order. */
  lemma {:induction false} MatchingKept(all: seq<Rec>, c: string, m: Matcher, regex: Option<string>, sub: Option<nat>)
    ensures RecordsFor(Kept(all, regex, sub), c, m) == Kept(RecordsFor(all, c, m), regex, sub)
  {
    if all != [] {
      var front, last := all[..|all| - 1], all[|all| - 1];
      MatchingKept(front, c, m, regex, sub);
      RecordsForSnoc(Kept(front, regex, sub), last, c, m);
      KeptSnoc(RecordsFor(front, c, m), last, regex, sub);
    }
  }

  predicate Stays(r: Rec, regex: Option<string>, sub: Option<nat>) {
    match (regex, sub)
    case (Some(x), Some(n)) => r != Rec(x, n)
    case (Some(x), None) => r.regex != x
    case (None, Some(n)) => r.sub != n
    case (None, None) => false
  }

  /** All records with that pattern and subscriber are gone, and of the others each is
      there as often as before. */
  ghost predicate Unsubscribed(before: seq<Rec>, after: seq<Rec>, regex: Option<string>, sub: Option<nat>) {
    forall r: Rec :: multiset(after)[r] == if Stays(r, regex, sub) then multiset(before)[r] else 0
  }

  lemma {:induction false} KeptExactly(all: seq<Rec>, regex: Option<string>, sub: Option<nat>)
    ensures Unsubscribed(all, Kept(all, regex, sub), regex, sub)
  {
    if all != [] {
      var front, last := all[..|all| - 1], all[|all| - 1];
      KeptExactly(front, regex, sub);
      assert all == front + [last];
    }
  }

  /** And in their order. */
  lemma {:induction false} KeptConcat(a: seq<Rec>, b: seq<Rec>, regex: Option<string>, sub: Option<nat>)
    ensures Kept(a + b, regex, sub) == Kept(a, regex, sub) + Kept(b, regex, sub)
    decreases |b|
  {
    if b == [] {
      assert a + b == a;
    } else {
      var front, last := b[..|b| - 1], b[|b| - 1];
      KeptConcat(a, front, regex, sub);
      assert a + b == a + front + [last];
      KeptSnoc(a + front, last, regex, sub);
    }
  }

  /** Listed are the records whose pattern matches, each as often as it was subscribed. */
  ghost predicate Subscribed(all: seq<Rec>, listed: seq<Rec>, c: string, m: Matcher) {
    forall r: Rec :: multiset(listed)[r] == if m(r.regex, c) then multiset(all)[r] else 0
  }

  lemma {:induction false} RecordsExactly(all: seq<Rec>, c: string, m: Matcher)
    ensures Subscribed(all, RecordsFor(all, c, m), c, m)
  {
    if all != [] {
      var front, last := all[..|all| - 1], all[|all| - 1];
      RecordsExactly(front, c, m);
      assert all == front + [last];
    }
  }

  lemma {:induction false} RecordsConcat(a: seq<Rec>, b: seq<Rec>, c: string, m: Matcher)
    ensures RecordsFor(a + b, c, m) == RecordsFor(a, c, m) + RecordsFor(b, c, m)
    decreases |b|
  {
    if b == [] {
      assert a + b == a;
    } else {
      var front, last := b[..|b| - 1], b[|b| - 1];
      RecordsConcat(a, front, c, m);
      assert a + b == a + front + [last];
      RecordsForSnoc(a + front, last, c, m);
    }
  }

  // ----- the lists -----

  /** An ArrayList; modCount counts the additions and removals. */
  datatype List = List(elems: seq<Rec>, modCount: nat)

  datatype State = State(all: seq<Rec>, lists: map<string, List>)

  /** Each cached list is the matching records, in the order they were subscribed. */
  ghost predicate Inv(s: State, m: Matcher) {
    forall c :: c in s.lists ==> s.lists[c].elems == RecordsFor(s.all, c, m)
  }

  lemma {:induction false} KeptLength(all: seq<Rec>, regex: Option<string>, sub: Option<nat>)
    ensures |Kept(all, regex, sub)| <= |all|
    ensures |Kept(all, regex, sub)| == |all| <==> forall r :: r in all ==> Stays(r, regex, sub)
    ensures |Kept(all, regex, sub)| == |all| ==> Kept(all, regex, sub) == all
  {
    if all != [] {
      var front, last := all[..|all| - 1], all[|all| - 1];
      KeptLength(front, regex, sub);
      assert all == front + [last];
      assert last in all && forall r :: r in front ==> r in all;
    }
  }

  function Added(l: List, r: Rec): List { List(l.elems + [r], l.modCount + 1) }

  /** Each removal counts. */
  function Removed(l: List, regex: Option<string>, sub: Option<nat>): List {
    KeptLength(l.elems, regex, sub);
    var kept := Kept(l.elems, regex, sub);
    List(kept, l.modCount + (|l.elems| - |kept|))
  }

  function Subscribe(s: State, r: Rec, m: Matcher): State {
    State(s.all + [r], map c | c in s.lists :: if m(r.regex, c) then Added(s.lists[c], r) else s.lists[c])
  }

  function Unsubscribe(s: State, regex: Option<string>, sub: Option<nat>): State {
    State(Kept(s.all, regex, sub), map c | c in s.lists :: Removed(s.lists[c], regex, sub))
  }

  /** The list of a channel, built when it is first asked for. */
  function Lookup(s: State, channel: string, m: Matcher): (r: State)
    ensures channel in r.lists
  {
    if channel in s.lists then s
    else s.(lists := s.lists[channel := List(RecordsFor(s.all, channel, m), |RecordsFor(s.all, channel, m)|)])
  }

  /** What a subscriber may do. */
  datatype Op = DoSubscribe(r: Rec) | DoUnsubscribe(regex: Option<string>, sub: Option<nat>)

  function Perform(s: State, op: Op, m: Matcher): (r: State)
    ensures r.lists.Keys == s.lists.Keys
  {
    match op
    case DoSubscribe(r) => Subscribe(s, r, m)
    case DoUnsubscribe(regex, sub) => Unsubscribe(s, regex, sub)
  }

  function PerformAll(s: State, ops: seq<Op>, m: Matcher): (r: State)
    ensures r.lists.Keys == s.lists.Keys
    decreases |ops|
  {
    if ops == [] then s else PerformAll(Perform(s, ops[0], m), ops[1..], m)
  }

  lemma PerformKeepsInv(s: State, op: Op, m: Matcher)
    requires Inv(s, m)
    ensures Inv(Perform(s, op, m), m)
  {
    forall c | c in s.lists ensures Perform(s, op, m).lists[c].elems == RecordsFor(Perform(s, op, m).all, c, m) {
      match op
      case DoSubscribe(r) => RecordsForSnoc(s.all, r, c, m);
      case DoUnsubscribe(regex, sub) => MatchingKept(s.all, c, m, regex, sub);
    }
  }

  /** After any run of subscribe and unsubscribe the cached lists are right. */
  lemma {:induction false} ListsAgree(s: State, ops: seq<Op>, m: Matcher)
    requires Inv(s, m)
    ensures Inv(PerformAll(s, ops, m), m)
    decreases |ops|
  {
    if ops != [] {
      PerformKeepsInv(s, ops[0], m);
      ListsAgree(Perform(s, ops[0], m), ops[1..], m);
    }
  }

  // ----- notifying -----

  /** Does the operation add to the channel's list, or take from it? */
  predicate Touches(s: State, op: Op, channel: string, m: Matcher)
    requires channel in s.lists
  {
    match op
    case DoSubscribe(r) => m(r.regex, channel)
    case DoUnsubscribe(regex, sub) => exists r :: r in s.lists[channel].elems && !Stays(r, regex, sub)
  }

  predicate OpsTouch(s: State, ops: seq<Op>, channel: string, m: Matcher)
    requires channel in s.lists
    decreases |ops|
  {
    ops != [] && (Touches(s, ops[0], channel, m) || OpsTouch(Perform(s, ops[0], m), ops[1..], channel, m))
  }

  lemma TouchCounts(s: State, op: Op, channel: string, m: Matcher)
    requires channel in s.lists
    ensures var l, l' := s.lists[channel], Perform(s, op, m).lists[channel];
      if Touches(s, op, channel, m) then l'.modCount > l.modCount else l' == l
  {
    if op.DoUnsubscribe? { KeptLength(s.lists[channel].elems, op.regex, op.sub); }
  }

  /** Only what touches a list changes its count or its elements. */
  lemma {:induction false} TouchesCount(s: State, ops: seq<Op>, channel: string, m: Matcher)
    requires channel in s.lists
    ensures var l, l' := s.lists[channel], PerformAll(s, ops, m).lists[channel];
      l.modCount <= l'.modCount && if OpsTouch(s, ops, channel, m) then l'.modCount > l.modCount else l' == l
    decreases |ops|
  {
    if ops != [] {
      TouchCounts(s, ops[0], channel, m);
      hide Touches; hide Perform;
      TouchesCount(Perform(s, ops[0], m), ops[1..], channel, m);
    }
  }

  /** ConcurrentModificationException */
  datatype Ending = Returned | Thrown

  function Head(script: seq<seq<Op>>): seq<Op> { if script == [] then [] else script[0] }

  function Rest(script: seq<seq<Op>>): seq<seq<Op>> { if script == [] then [] else script[1..] }

  /** The loop over the iterator: hasNext compares the cursor with the size, next the count
      with the one at the start. The k-th subscriber notified performs script[k]. */
  function NotifyFrom(s: State, channel: string, i: nat, expected: nat, script: seq<seq<Op>>,
      m: Matcher): (State, seq<Rec>, Ending)
    requires channel in s.lists && expected <= s.lists[channel].modCount
    requires s.lists[channel].modCount == expected ==> i <= |s.lists[channel].elems|
    decreases if s.lists[channel].modCount == expected then |s.lists[channel].elems| - i + 1 else 0
  {
    var l := s.lists[channel];
    if i == |l.elems| then (s, [], Returned)
    else if l.modCount != expected then (s, [], Thrown)
    else
      TouchesCount(s, Head(script), channel, m);
      var (r, more, end) := NotifyFrom(PerformAll(s, Head(script), m), channel, i + 1, expected, Rest(script), m);
      (r, [l.elems[i]] + more, end)
  }

  /** receiveMessage: the new state, the subscribers notified, and how it ends. */
  function Receive(s: State, channel: string, script: seq<seq<Op>>, m: Matcher): (State, seq<Rec>, Ending) {
    var s1 := Lookup(s, channel, m);
    NotifyFrom(s1, channel, 0, s1.lists[channel].modCount, script, m)
  }

  /** The first subscriber from i on, of n, that touches the list; n if none does. */
  function FirstTouch(s: State, channel: string, i: nat, n: nat, script: seq<seq<Op>>, m: Matcher): (r: nat)
    requires channel in s.lists && i <= n
    ensures i <= r <= n
    decreases n - i
  {
    if i == n || OpsTouch(s, Head(script), channel, m) then i
    else FirstTouch(PerformAll(s, Head(script), m), channel, i + 1, n, Rest(script), m)
  }

  /** The state after the subscribers from i to k. */
  function AfterCalls(s: State, i: nat, k: nat, script: seq<seq<Op>>, m: Matcher): (r: State)
    ensures r.lists.Keys == s.lists.Keys
    decreases if i < k then k - i else 0
  {
    if i >= k then s else AfterCalls(PerformAll(s, Head(script), m), i + 1, k, Rest(script), m)
  }

  lemma StepUnfolds(s: State, channel: string, i: nat, script: seq<seq<Op>>, m: Matcher)
    requires channel in s.lists && i < |s.lists[channel].elems|
    ensures var l, s' := s.lists[channel], PerformAll(s, Head(script), m);
      && l.modCount <= s'.lists[channel].modCount
      && (s'.lists[channel].modCount == l.modCount ==> s'.lists[channel] == l)
      && (OpsTouch(s, Head(script), channel, m) <==> s'.lists[channel].modCount > l.modCount)
      && var (r, more, end) := NotifyFrom(s', channel, i + 1, l.modCount, Rest(script), m);
        NotifyFrom(s, channel, i, l.modCount, script, m) == (r, [l.elems[i]] + more, end)
  {
    TouchesCount(s, Head(script), channel, m);
  }

  /** The iterator after a change: it ends if the size is the cursor, and else throws. */
  lemma AfterTouch(s: State, channel: string, i: nat, expected: nat, script: seq<seq<Op>>, m: Matcher)
    requires channel in s.lists && expected < s.lists[channel].modCount
    ensures NotifyFrom(s, channel, i, expected, script, m) ==
      (s, [], if |s.lists[channel].elems| == i then Returned else Thrown)
  {}

  lemma CallsNext(s: State, i: nat, k: nat, script: seq<seq<Op>>, m: Matcher)
    requires i < k
    ensures AfterCalls(s, i, k, script, m) == AfterCalls(PerformAll(s, Head(script), m), i + 1, k, Rest(script), m)
    ensures AfterCalls(s, i, i + 1, script, m) == PerformAll(s, Head(script), m)
  {}

  lemma Slices(e: seq<Rec>, i: nat, k: nat)
    requires i < k <= |e|
    ensures [e[i]] + e[i + 1..k] == e[i..k] && e[i..i + 1] == [e[i]] + []
  {}

  lemma NothingToNotify(s: State, channel: string, i: nat, script: seq<seq<Op>>, m: Matcher)
    requires channel in s.lists && i == |s.lists[channel].elems|
    ensures NotifyFrom(s, channel, i, s.lists[channel].modCount, script, m) == (s, [], Returned)
    ensures AfterCalls(s, i, i, script, m) == s && s.lists[channel].elems[i..i] == []
  {}

  /** How many are notified if number k is the first of `size` to touch the list. */
  function Upto(size: nat, k: nat): nat { if k < size then k + 1 else k }

  function EndAfter(size: nat, k: nat, newSize: nat): Ending {
    if k < size && newSize != k + 1 then Thrown else Returned
  }

  /** All from i on up to the first one that touches the list, and how it ends then. */
  function Told(s: State, channel: string, i: nat, script: seq<seq<Op>>, m: Matcher): (State, seq<Rec>, Ending)
    requires channel in s.lists && i <= |s.lists[channel].elems|
  {
    var e := s.lists[channel].elems;
    var k := FirstTouch(s, channel, i, |e|, script, m);
    var r := AfterCalls(s, i, Upto(|e|, k), script, m);
    (r, e[i..Upto(|e|, k)], EndAfter(|e|, k, |r.lists[channel].elems|))
  }

  lemma FirstNext(s: State, channel: string, i: nat, n: nat, script: seq<seq<Op>>, m: Matcher)
    requires channel in s.lists && i < n
    ensures FirstTouch(s, channel, i, n, script, m) == if OpsTouch(s, Head(script), channel, m) then i
      else FirstTouch(PerformAll(s, Head(script), m), channel, i + 1, n, Rest(script), m)
  {
    hide OpsTouch; hide PerformAll; hide Head; hide Rest;
  }

  lemma ToldByOne(s: State, channel: string, i: nat, script: seq<seq<Op>>, m: Matcher)
    requires channel in s.lists && i < |s.lists[channel].elems| && OpsTouch(s, Head(script), channel, m)
    ensures var r := PerformAll(s, Head(script), m);
      Told(s, channel, i, script, m) ==
        (r, [s.lists[channel].elems[i]] + [], if |r.lists[channel].elems| == i + 1 then Returned else Thrown)
  {
    hide OpsTouch; hide PerformAll; hide Head; hide Rest; hide AfterCalls; hide FirstTouch;
    FirstNext(s, channel, i, |s.lists[channel].elems|, script, m);
    CallsNext(s, i, i + 1, script, m);
    Slices(s.lists[channel].elems, i, i + 1);
  }

  lemma ToldByMore(s: State, channel: string, i: nat, script: seq<seq<Op>>, m: Matcher)
    requires channel in s.lists && i < |s.lists[channel].elems| && !OpsTouch(s, Head(script), channel, m)
    requires PerformAll(s, Head(script), m).lists[channel] == s.lists[channel]
    ensures var (r, more, end) := Told(PerformAll(s, Head(script), m), channel, i + 1, Rest(script), m);
      Told(s, channel, i, script, m) == (r, [s.lists[channel].elems[i]] + more, end)
  {
    hide OpsTouch; hide PerformAll; hide Head; hide Rest; hide AfterCalls; hide FirstTouch; hide EndAfter;
    var e := s.lists[channel].elems;
    var k := FirstTouch(PerformAll(s, Head(script), m), channel, i + 1, |e|, Rest(script), m);
    FirstNext(s, channel, i, |e|, script, m);
    CallsNext(s, i, Upto(|e|, k), script, m);
    Slices(e, i, Upto(|e|, k));
  }

  lemma {:induction false} NotifiedUpTo(s: State, channel: string, i: nat, script: seq<seq<Op>>, m: Matcher)
    requires channel in s.lists && i <= |s.lists[channel].elems|
    ensures NotifyFrom(s, channel, i, s.lists[channel].modCount, script, m) == Told(s, channel, i, script, m)
    decreases |s.lists[channel].elems| - i
  {
    var l := s.lists[channel];
    if i == |l.elems| {
      NothingToNotify(s, channel, i, script, m);
    } else {
      hide OpsTouch; hide PerformAll; hide Head; hide Rest; hide NotifyFrom; hide Told;
      StepUnfolds(s, channel, i, script, m);
      var s' := PerformAll(s, Head(script), m);
      if OpsTouch(s, Head(script), channel, m) {
        AfterTouch(s', channel, i + 1, l.modCount, Rest(script), m);
        ToldByOne(s, channel, i, script, m);
      } else {
        NotifiedUpTo(s', channel, i + 1, Rest(script), m);
        ToldByMore(s, channel, i, script, m);
      }
    }
  }

  lemma {:induction false} CallsKeepInv(s: State, i: nat, k: nat, script: seq<seq<Op>>, m: Matcher)
    requires Inv(s, m)
    ensures Inv(AfterCalls(s, i, k, script, m), m)
    decreases if i < k then k - i else 0
  {
    if i < k {
      ListsAgree(s, Head(script), m);
      CallsKeepInv(PerformAll(s, Head(script), m), i + 1, k, Rest(script), m);
    }
  }

  /** receiveMessage notifies the matching subscribers in order up to the first one that
      adds to or takes from the channel's list. If there is none, that is all of them and
      it returns. If there is, it returns only if the list is then as long as the number
      notified, and throws a ConcurrentModificationException otherwise. */
  lemma ReceivedExactly(s: State, channel: string, script: seq<seq<Op>>, m: Matcher)
    requires Inv(s, m)
    ensures var all, s1 := RecordsFor(s.all, channel, m), Lookup(s, channel, m);
      var k := FirstTouch(s1, channel, 0, |all|, script, m);
      var r := AfterCalls(s1, 0, Upto(|all|, k), script, m);
      && Inv(r, m) && r.lists.Keys == s.lists.Keys + {channel}
      && Receive(s, channel, script, m) ==
        (r, all[..Upto(|all|, k)], EndAfter(|all|, k, |RecordsFor(r.all, channel, m)|))
  {
    hide NotifyFrom; hide RecordsFor; hide AfterCalls; hide FirstTouch; hide EndAfter;
    var s1 := Lookup(s, channel, m);
    NotifiedUpTo(s1, channel, 0, script, m);
    var e := s1.lists[channel].elems;
    CallsKeepInv(s1, 0, Upto(|e|, FirstTouch(s1, channel, 0, |e|, script, m)), script, m);
    assert forall n: nat :: n <= |e| ==> e[0..n] == e[..n];
  }

  lemma {:induction false} Untouched(s: State, channel: string, i: nat, n: nat, script: seq<seq<Op>>, m: Matcher)
    requires channel in s.lists && i <= n && FirstTouch(s, channel, i, n, script, m) == n
    ensures AfterCalls(s, i, n, script, m).lists[channel] == s.lists[channel]
    decreases n - i
  {
    if i < n {
      TouchesCount(s, Head(script), channel, m);
      Untouched(PerformAll(s, Head(script), m), channel, i + 1, n, Rest(script), m);
    }
  }

  /** All matching subscribers are notified, and no exception, exactly if none but the last
      touches the channel's list, and the last leaves its length as it was. */
  lemma AllNotifiedExactly(s: State, channel: string, script: seq<seq<Op>>, m: Matcher)
    requires Inv(s, m)
    ensures var n, s1 := |RecordsFor(s.all, channel, m)|, Lookup(s, channel, m);
      var (r, notified, end) := Receive(s, channel, script, m);
      (notified == RecordsFor(s.all, channel, m) && end == Returned) <==>
      (n <= FirstTouch(s1, channel, 0, n, script, m) + 1
        && |RecordsFor(AfterCalls(s1, 0, n, script, m).all, channel, m)| == n)
  {
    hide RecordsFor; hide AfterCalls; hide FirstTouch; hide Receive;
    ReceivedExactly(s, channel, script, m);
    var all, s1 := RecordsFor(s.all, channel, m), Lookup(s, channel, m);
    var k := FirstTouch(s1, channel, 0, |all|, script, m);
    if k == |all| {
      Untouched(s1, channel, 0, k, script, m);
      assert all[..k] == all;
    } else {
      assert |all[..k + 1]| == k + 1 && (k + 1 == |all| ==> all[..k + 1] == all);
    }
  }
}
