/** The subscription lists of upstream/lcm/lcm.c: a master list and, for each channel
    seen so far, an array of the subscriptions that match it. */
module Registry {
  /** lcm_subscription_t: its address and its channel pattern. */
  datatype Sub = Sub(id: nat, pattern: string)

  /** Does a pattern, taken as a regular expression, match a channel? */
  type Matcher = (string, string) -> bool

  /** The first position of h, or the length. */
  function Find(s: seq<Sub>, h: Sub): (i: nat)
    ensures i <= |s| && h !in s[..i] && (i < |s| ==> s[i] == h)
  {
    if s == [] || s[0] == h then 0 else 1 + Find(s[1..], h)
  }

  /** GPtrArray: the first len slots are its elements; the others keep what they held. */
  datatype PtrArray = PtrArray(slots: seq<Sub>, len: nat) {
    predicate Ok() { len <= |slots| }

    function Elements(): seq<Sub>
      requires Ok()
    {
      slots[..len]
    }

    /** g_ptr_array_add */
    function Add(h: Sub): (r: PtrArray)
      requires Ok()
      ensures r.Ok() && r.Elements() == Elements() + [h]
    {
      PtrArray(slots[..len] + [h] + (if len < |slots| then slots[len + 1..] else []), len + 1)
    }

    /** g_ptr_array_remove_fast: the last element takes the place of the first h. */
    function RemoveFast(h: Sub): (r: PtrArray)
      requires Ok()
      ensures r.Ok()
    {
      var i := Find(Elements(), h);
      if i == len then this else PtrArray(slots[i := slots[len - 1]], len - 1)
    }
  }

  /** g_ptr_array_remove, in order */
  function Remove(s: seq<Sub>, h: Sub): seq<Sub> {
    var i := Find(s, h);
    if i == |s| then s else s[..i] + s[i + 1..]
  }

  function Matching(all: seq<Sub>, channel: string, m: Matcher): seq<Sub> {
    if all == [] then []
    else
      var front := Matching(all[..|all| - 1], channel, m);
      if m(all[|all| - 1].pattern, channel) then front + [all[|all| - 1]] else front
  }

  /** handlers_all and handlers_map, and the flags of the subscriptions by address:
      callback_scheduled and marked_for_deletion. */
  datatype State = State(all: seq<Sub>, lists: map<string, PtrArray>, nextId: nat, scheduled: set<nat>,
    marked: set<nat>)

  predicate Distinct(all: seq<Sub>) { forall i, j :: 0 <= i < j < |all| ==> all[i] != all[j] && all[i].id != all[j].id }

  /** Each cached list holds the matching subscriptions, each as often as the master
      list: once. */
  ghost predicate Inv(s: State, m: Matcher) {
    && Distinct(s.all)
    && (forall h :: h in s.all ==> h.id < s.nextId && h.id !in s.marked)
    && (forall h :: h in s.marked ==> h < s.nextId)
    && (forall c :: c in s.lists ==>
          s.lists[c].Ok() && multiset(s.lists[c].Elements()) == multiset(Matching(s.all, c, m)))
  }

  predicate ListsOk(s: State) { forall c :: c in s.lists ==> s.lists[c].Ok() }

  // ----- the operations -----

  /** g_hash_table_foreach with map_add_handler_callback */
  function AddToLists(lists: map<string, PtrArray>, h: Sub, m: Matcher): (r: map<string, PtrArray>)
    requires forall c :: c in lists ==> lists[c].Ok()
    ensures r.Keys == lists.Keys && forall c :: c in r ==> r[c].Ok()
  {
    map c | c in lists :: if m(h.pattern, c) then lists[c].Add(h) else lists[c]
  }

  /** g_hash_table_foreach with map_remove_handler_callback */
  function RemoveFromLists(lists: map<string, PtrArray>, h: Sub): (r: map<string, PtrArray>)
    requires forall c :: c in lists ==> lists[c].Ok()
    ensures r.Keys == lists.Keys && forall c :: c in r ==> r[c].Ok()
  {
    map c | c in lists :: lists[c].RemoveFast(h)
  }

  function Subscribe(s: State, pattern: string, m: Matcher): (r: State)
    requires ListsOk(s)
    ensures ListsOk(r)
  {
    var h := Sub(s.nextId, pattern);
    s.(all := s.all + [h], lists := AddToLists(s.lists, h, m), nextId := s.nextId + 1)
  }

  function Unsubscribe(s: State, h: Sub): (r: State)
    requires ListsOk(s)
    ensures ListsOk(r)
  {
    if h !in s.all then s
    else
      s.(all := Remove(s.all, h), lists := RemoveFromLists(s.lists, h),
         marked := if h.id in s.scheduled then s.marked + {h.id} else s.marked)
  }

  function Lookup(s: State, channel: string, m: Matcher): (r: State)
    requires ListsOk(s)
    ensures ListsOk(r) && channel in r.lists
  {
    if channel in s.lists then s
    else
      var matching := Matching(s.all, channel, m);
      s.(lists := s.lists[channel := PtrArray(matching, |matching|)])
  }

  /** What a program, or a callback, may do. */
  datatype Op = DoSubscribe(pattern: string) | DoUnsubscribe(h: Sub) | DoLookup(channel: string)

  function Perform(s: State, op: Op, m: Matcher): (r: State)
    requires ListsOk(s)
    ensures ListsOk(r)
  {
    match op
    case DoSubscribe(p) => Subscribe(s, p, m)
    case DoUnsubscribe(h) => Unsubscribe(s, h)
    case DoLookup(c) => Lookup(s, c, m)
  }

  function PerformAll(s: State, ops: seq<Op>, m: Matcher): (r: State)
    requires ListsOk(s)
    ensures ListsOk(r)
    decreases |ops|
  {
    if ops == [] then s else PerformAll(Perform(s, ops[0], m), ops[1..], m)
  }

  // ----- the cache agrees with the master list -----

  lemma MatchingSnoc(all: seq<Sub>, h: Sub, c: string, m: Matcher)
    ensures Matching(all + [h], c, m) == if m(h.pattern, c) then Matching(all, c, m) + [h] else Matching(all, c, m)
  {
    assert (all + [h])[..|all|] == all;
  }

  lemma {:induction false} MatchingIs(all: seq<Sub>, c: string, m: Matcher)
    ensures forall h :: h in Matching(all, c, m) <==> h in all && m(h.pattern, c)
  {
    if all != [] {
      var front := all[..|all| - 1];
      MatchingIs(front, c, m);
      assert all == front + [all[|all| - 1]];
    }
  }

  lemma {:induction false} MatchingAppend(a: seq<Sub>, b: seq<Sub>, c: string, m: Matcher)
    ensures Matching(a + b, c, m) == Matching(a, c, m) + Matching(b, c, m)
    decreases |b|
  {
    if b == [] {
      assert a + b == a;
    } else {
      var front, last := b[..|b| - 1], b[|b| - 1];
      MatchingAppend(a, front, c, m);
      assert a + b == (a + front) + [last] && b == front + [last];
      MatchingSnoc(a + front, last, c, m);
    }
  }

  lemma DropOne(a: seq<Sub>, h: Sub, b: seq<Sub>)
    ensures multiset(a + [h] + b) - multiset{h} == multiset(a + b)
  {}

  /** Taking one subscription out of the master list takes it out of what matches. */
  lemma MatchingRemove(all: seq<Sub>, h: Sub, c: string, m: Matcher)
    ensures multiset(Matching(Remove(all, h), c, m)) == multiset(Matching(all, c, m)) - multiset{h}
  {
    hide Matching; hide Find;
    var i := Find(all, h);
    MatchingIs(all, c, m);
    if i == |all| {
      assert h !in all[..i] && all[..i] == all;
    } else {
      var a, b := all[..i], all[i + 1..];
      assert all == a + [h] + b;
      MatchingAppend(a + [h], b, c, m);
      MatchingAppend(a, b, c, m);
      MatchingSnoc(a, h, c, m);
      if m(h.pattern, c) {
        DropOne(Matching(a, c, m), h, Matching(b, c, m));
      } else {
        assert h !in Matching(all, c, m);
      }
    }
  }

  lemma MoveLast(a: seq<Sub>, h: Sub, mid: seq<Sub>, last: Sub)
    ensures multiset(a + [h] + mid + [last]) - multiset{h} == multiset(a + [last] + mid)
  {}

  /** The last element in place of the i-th. */
  function Swapped(e: seq<Sub>, i: nat): seq<Sub>
    requires i < |e|
  {
    if i == |e| - 1 then e[..i] else e[..i] + [e[|e| - 1]] + e[i + 1..|e| - 1]
  }

  lemma RemoveFastShape(a: PtrArray, h: Sub)
    requires a.Ok() && Find(a.Elements(), h) < a.len
    ensures |a.Elements()| == a.len && a.RemoveFast(h).Elements() == Swapped(a.Elements(), Find(a.Elements(), h))
  {}

  lemma SwapOut(e: seq<Sub>, i: nat)
    requires i < |e|
    ensures multiset(Swapped(e, i)) == multiset(e) - multiset{e[i]}
  {
    if i == |e| - 1 {
      assert e == e[..i] + [e[i]];
    } else {
      var mid, last := e[i + 1..|e| - 1], e[|e| - 1];
      assert e == e[..i] + [e[i]] + mid + [last];
      MoveLast(e[..i], e[i], mid, last);
    }
  }

  lemma NotFound(e: seq<Sub>, h: Sub)
    requires Find(e, h) == |e|
    ensures multiset(e) - multiset{h} == multiset(e)
  {
    assert e[..|e|] == e && h !in e && h !in multiset(e);
  }

  lemma RemoveFastSwaps(a: PtrArray, h: Sub)
    requires a.Ok() && Find(a.Elements(), h) < a.len
    ensures multiset(a.RemoveFast(h).Elements()) == multiset(a.Elements()) - multiset{h}
  {
    RemoveFastShape(a, h);
    hide Find; hide Swapped; hide PtrArray.RemoveFast; hide PtrArray.Elements;
    SwapOut(a.Elements(), Find(a.Elements(), h));
  }

  lemma RemoveFastElements(a: PtrArray, h: Sub)
    requires a.Ok()
    ensures multiset(a.RemoveFast(h).Elements()) == multiset(a.Elements()) - multiset{h}
  {
    if Find(a.Elements(), h) == a.len { NotFound(a.Elements(), h); } else { RemoveFastSwaps(a, h); }
  }

  lemma RemoveKeepsDistinct(all: seq<Sub>, h: Sub)
    requires Distinct(all)
    ensures Distinct(Remove(all, h)) && (forall x :: x in Remove(all, h) <==> x in all && x != h)
  {
    var i := Find(all, h);
    if i < |all| {
      var a, b := all[..i], all[i + 1..];
      assert all == a + [h] + b;
    } else {
      assert all[..i] == all;
    }
  }

  lemma SubscribeKeepsInv(s: State, pattern: string, m: Matcher)
    requires Inv(s, m)
    ensures Inv(Subscribe(s, pattern, m), m)
  {
    var h := Sub(s.nextId, pattern);
    forall c | c in s.lists
      ensures multiset(AddToLists(s.lists, h, m)[c].Elements()) == multiset(Matching(s.all + [h], c, m))
    {
      MatchingSnoc(s.all, h, c, m);
    }
  }

  lemma UnsubscribeKeepsInv(s: State, h: Sub, m: Matcher)
    requires Inv(s, m)
    ensures Inv(Unsubscribe(s, h), m)
  {
    if h in s.all {
      RemoveKeepsDistinct(s.all, h);
      forall c | c in s.lists
        ensures multiset(RemoveFromLists(s.lists, h)[c].Elements()) == multiset(Matching(Remove(s.all, h), c, m))
      {
        MatchingRemove(s.all, h, c, m);
        RemoveFastElements(s.lists[c], h);
      }
    }
  }

  lemma PerformKeepsInv(s: State, op: Op, m: Matcher)
    requires Inv(s, m)
    ensures Inv(Perform(s, op, m), m)
  {
    match op
    case DoSubscribe(p) => SubscribeKeepsInv(s, p, m);
    case DoUnsubscribe(h) => UnsubscribeKeepsInv(s, h, m);
    case DoLookup(c) =>
      var matching := Matching(s.all, c, m);
      assert matching[..|matching|] == matching;
  }

  /** After any run of subscribe, unsubscribe and lookup, inside callbacks or not, each
      cached list holds exactly the subscriptions that match its channel. */
  lemma {:induction false} CacheAgrees(s: State, ops: seq<Op>, m: Matcher)
    requires Inv(s, m)
    ensures Inv(PerformAll(s, ops, m), m)
    decreases |ops|
  {
    if ops != [] {
      PerformKeepsInv(s, ops[0], m);
      CacheAgrees(Perform(s, ops[0], m), ops[1..], m);
    }
  }

  // ----- who is subscribed -----

  function Subscribes(ops: seq<Op>): nat {
    if ops == [] then 0 else (if ops[0].DoSubscribe? then 1 else 0) + Subscribes(ops[1..])
  }

  /** The k-th operation made the subscription h, and none after it took h back. */
  predicate SubscribedBy(next: nat, ops: seq<Op>, k: nat, h: Sub) {
    && k < |ops| && ops[k] == DoSubscribe(h.pattern) && h.id == next + Subscribes(ops[..k])
    && DoUnsubscribe(h) !in ops[k + 1..]
  }

  /** h was there before, or was made on the way, and was not taken back since. */
  ghost predicate StillSubscribed(s: State, ops: seq<Op>, h: Sub) {
    (h in s.all && DoUnsubscribe(h) !in ops) || exists k :: SubscribedBy(s.nextId, ops, k, h)
  }

  lemma SubscribedLater(next: nat, ops: seq<Op>, k: nat, h: Sub)
    requires ops != []
    ensures var n := next + if ops[0].DoSubscribe? then 1 else 0;
      SubscribedBy(n, ops[1..], k, h) <==> SubscribedBy(next, ops, k + 1, h)
  {
    if k + 1 < |ops| {
      assert ops[..k + 1][0] == ops[0] && ops[..k + 1][1..] == ops[1..][..k];
      assert ops[1..][k + 1..] == ops[k + 2..];
    }
  }

  lemma SubscribedNow(next: nat, ops: seq<Op>, h: Sub)
    requires ops != []
    ensures SubscribedBy(next, ops, 0, h) <==>
      ops[0] == DoSubscribe(h.pattern) && h.id == next && DoUnsubscribe(h) !in ops[1..]
  {}

  lemma StillHere(s: State, op: Op, h: Sub, m: Matcher)
    requires Inv(s, m)
    ensures h in Perform(s, op, m).all <==>
      (h in s.all && op != DoUnsubscribe(h)) || (op == DoSubscribe(h.pattern) && h.id == s.nextId)
  {
    if op.DoUnsubscribe? { RemoveKeepsDistinct(s.all, op.h); }
  }

  lemma StillStep(s: State, ops: seq<Op>, h: Sub, m: Matcher)
    requires Inv(s, m) && ops != []
    ensures StillSubscribed(Perform(s, ops[0], m), ops[1..], h) <==> StillSubscribed(s, ops, h)
  {
    var r := Perform(s, ops[0], m);
    assert r.nextId == s.nextId + if ops[0].DoSubscribe? then 1 else 0;
    StillHere(s, ops[0], h, m);
    hide Perform; hide SubscribedBy; hide Inv;
    SubscribedNow(s.nextId, ops, h);
    forall k: nat ensures SubscribedBy(r.nextId, ops[1..], k, h) <==> SubscribedBy(s.nextId, ops, k + 1, h) {
      SubscribedLater(s.nextId, ops, k, h);
    }
    if k: nat :| SubscribedBy(s.nextId, ops, k, h) && k > 0 { assert SubscribedBy(r.nextId, ops[1..], k - 1, h); }
  }

  /** After any run the master list holds just the subscriptions that were made and not
      taken back since; each was given the next free address. */
  lemma {:induction false} SubscribedExactly(s: State, ops: seq<Op>, h: Sub, m: Matcher)
    requires Inv(s, m)
    ensures h in PerformAll(s, ops, m).all <==> StillSubscribed(s, ops, h)
    decreases |ops|
  {
    if ops == [] {
      assert forall k :: !SubscribedBy(s.nextId, ops, k, h);
    } else {
      PerformKeepsInv(s, ops[0], m);
      SubscribedExactly(Perform(s, ops[0], m), ops[1..], h, m);
      StillStep(s, ops, h, m);
    }
  }
}
