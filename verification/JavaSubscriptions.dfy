/** LCM.java's subscriptions as an object. */
module JavaSubscriptions {
  import opened JavaLists
  import opened Wrappers

  lemma RemovedElems(l: List, regex: Option<string>, sub: Option<nat>)
    ensures Removed(l, regex, sub).elems == Kept(l.elems, regex, sub)
  {}

  ghost function PutFirst(calls: seq<Rec>, r: (State, seq<Rec>, Ending)): (State, seq<Rec>, Ending) {
    (r.0, calls + r.1, r.2)
  }

  lemma CallsAssociate(calls: seq<Rec>, h: Rec, r: (State, seq<Rec>, Ending))
    ensures PutFirst(calls + [h], r) == PutFirst(calls, (r.0, [h] + r.1, r.2))
  {
    assert calls + [h] + r.1 == calls + ([h] + r.1);
  }

  class Lcm {
    const matches: Matcher
    var subscriptions: seq<Rec>
    var subscriptionsMap: map<string, List>

    ghost function View(): State
      reads this
    {
      State(subscriptions, subscriptionsMap)
    }

    constructor (matches: Matcher)
      ensures this.matches == matches && Inv(View(), matches) && View() == State([], map[])
    {
      this.matches := matches;
      subscriptions, subscriptionsMap := [], map[];
    }

    method Subscribe(regex: string, sub: nat)
      modifies this
      ensures View() == JavaLists.Subscribe(old(View()), Rec(regex, sub), matches)
    {
      var srec := Rec(regex, sub);
      ghost var was := View();
      subscriptions := subscriptions + [srec];
      var channels := subscriptionsMap.Keys;
      while channels != {}
        invariant channels <= subscriptionsMap.Keys == was.lists.Keys && subscriptions == was.all + [srec]
        invariant forall c :: c in was.lists ==>
          subscriptionsMap[c] ==
            if c !in channels && matches(regex, c) then Added(was.lists[c], srec) else was.lists[c]
        decreases |channels|
      {
        var c :| c in channels;
        channels := channels - {c};
        if matches(srec.regex, c) { subscriptionsMap := subscriptionsMap[c := Added(subscriptionsMap[c], srec)]; }
      }
      assert subscriptionsMap == JavaLists.Subscribe(was, srec, matches).lists;
    }

    /** One pass of an iterator that removes the named records. */
    static method Sweep(list: List, regex: Option<string>, sub: Option<nat>) returns (r: List)
      ensures r == Removed(list, regex, sub)
    {
      var kept, removed := [], 0;
      var i := 0;
      while i < |list.elems|
        invariant 0 <= i <= |list.elems| && kept == Kept(list.elems[..i], regex, sub) && removed == i - |kept|
      {
        KeptSnoc(list.elems[..i], list.elems[i], regex, sub);
        assert list.elems[..i + 1] == list.elems[..i] + [list.elems[i]];
        if Named(list.elems[i], regex, sub) { removed := removed + 1; } else { kept := kept + [list.elems[i]]; }
        i := i + 1;
      }
      assert list.elems[..i] == list.elems;
      KeptLength(list.elems, regex, sub);
      return List(kept, list.modCount + removed);
    }

    method Unsubscribe(regex: Option<string>, sub: Option<nat>)
      modifies this
      ensures View() == JavaLists.Unsubscribe(old(View()), regex, sub)
      ensures Unsubscribed(old(subscriptions), subscriptions, regex, sub)
    {
      hide Removed; hide Kept; hide Unsubscribed;
      KeptExactly(subscriptions, regex, sub);
      ghost var was := View();
      var all := Sweep(List(subscriptions, 0), regex, sub);
      RemovedElems(List(subscriptions, 0), regex, sub);
      subscriptions := all.elems;
      var channels := subscriptionsMap.Keys;
      while channels != {}
        invariant channels <= subscriptionsMap.Keys == was.lists.Keys && subscriptions == Kept(was.all, regex, sub)
        invariant forall c :: c in was.lists ==>
          subscriptionsMap[c] == if c in channels then was.lists[c] else Removed(was.lists[c], regex, sub)
        decreases |channels|
      {
        var c :| c in channels;
        channels := channels - {c};
        var list := Sweep(subscriptionsMap[c], regex, sub);
        subscriptionsMap := subscriptionsMap[c := list];
      }
      assert subscriptionsMap == JavaLists.Unsubscribe(was, regex, sub).lists;
    }

    method FindList(channel: string)
      modifies this`subscriptionsMap
      ensures View() == Lookup(old(View()), channel, matches)
    {
      if channel !in subscriptionsMap {
        var srecs := [];
        var i := 0;
        while i < |subscriptions|
          invariant 0 <= i <= |subscriptions| && srecs == RecordsFor(subscriptions[..i], channel, matches)
          invariant subscriptionsMap == old(subscriptionsMap)
        {
          RecordsForSnoc(subscriptions[..i], subscriptions[i], channel, matches);
          assert subscriptions[..i + 1] == subscriptions[..i] + [subscriptions[i]];
          if matches(subscriptions[i].regex, channel) { srecs := srecs + [subscriptions[i]]; }
          i := i + 1;
        }
        assert subscriptions[..i] == subscriptions;
        subscriptionsMap := subscriptionsMap[channel := List(srecs, |srecs|)];
      }
    }

    /** What a subscriber does. */
    method Act(op: Op)
      modifies this
      ensures View() == Perform(old(View()), op, matches)
    {
      match op
      case DoSubscribe(r) => Subscribe(r.regex, r.sub);
      case DoUnsubscribe(regex, sub) => Unsubscribe(regex, sub);
    }

    method MessageReceived(ops: seq<Op>)
      modifies this
      ensures View() == PerformAll(old(View()), ops, matches)
    {
      var k := 0;
      while k < |ops|
        invariant 0 <= k <= |ops| && PerformAll(View(), ops[k..], matches) == PerformAll(old(View()), ops, matches)
      {
        Act(ops[k]);
        k := k + 1;
      }
    }

    /** receiveMessage; the k-th subscriber notified performs script[k]. */
    method ReceiveMessage(channel: string, script: seq<seq<Op>>) returns (notified: seq<Rec>, end: Ending)
      modifies this
      ensures (View(), notified, end) == Receive(old(View()), channel, script, matches)
    {
      hide PerformAll; hide Head; hide Rest; hide Lookup;
      FindList(channel);
      notified := [];
      var cursor, expected, rest := 0, subscriptionsMap[channel].modCount, script;
      ghost var goal := NotifyFrom(View(), channel, 0, expected, script, matches);
      assert [] + goal.1 == goal.1;
      while cursor != |subscriptionsMap[channel].elems|
        invariant channel in subscriptionsMap && expected <= subscriptionsMap[channel].modCount
        invariant subscriptionsMap[channel].modCount == expected ==> cursor <= |subscriptionsMap[channel].elems|
        invariant goal == PutFirst(notified, NotifyFrom(View(), channel, cursor, expected, rest, matches))
        decreases if subscriptionsMap[channel].modCount == expected then |subscriptionsMap[channel].elems| - cursor + 1
          else 0
      {
        if subscriptionsMap[channel].modCount != expected {
          assert notified + [] == notified;
          return notified, Thrown;
        }
        var srec := subscriptionsMap[channel].elems[cursor];
        TouchesCount(View(), Head(rest), channel, matches);
        ghost var was := View();
        MessageReceived(Head(rest));
        CallsAssociate(notified, srec, NotifyFrom(View(), channel, cursor + 1, expected, Rest(rest), matches));
        notified, cursor, rest := notified + [srec], cursor + 1, Rest(rest);
      }
      assert notified + [] == notified;
      return notified, Returned;
    }
  }
}
