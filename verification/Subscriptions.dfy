/** lcm_t and its operations. */
module Subscriptions {
  import opened Dispatching
  import opened Registry
  import opened Wrappers

  ghost function PutFirst(calls: seq<Sub>, r: (State, seq<Sub>)): (State, seq<Sub>) { (r.0, calls + r.1) }

  lemma CallsAssociate(calls: seq<Sub>, h: Sub, r: (State, seq<Sub>))
    ensures PutFirst(calls + [h], r) == PutFirst(calls, (r.0, [h] + r.1))
  {
    assert calls + [h] + r.1 == calls + ([h] + r.1);
  }

  class Lcm {
    const matches: Matcher
    var handlersAll: seq<Sub>
    var handlersMap: map<string, PtrArray>
    var nextId: nat
    var scheduled: set<nat>
    var marked: set<nat>

    ghost function View(): State
      reads this
    {
      State(handlersAll, handlersMap, nextId, scheduled, marked)
    }

    constructor (matches: Matcher)
      ensures this.matches == matches && Inv(View(), matches) && View() == State([], map[], 0, {}, {})
    {
      this.matches := matches;
      handlersAll, handlersMap, nextId, scheduled, marked := [], map[], 0, {}, {};
    }

    /** lcm_subscribe; None if the provider refuses or the pattern does not compile. */
    method Subscribe(pattern: string, accepted: bool) returns (r: Option<Sub>)
      requires ListsOk(View())
      modifies this
      ensures accepted ==>
        r == Some(Sub(old(nextId), pattern)) && View() == Registry.Subscribe(old(View()), pattern, matches)
      ensures !accepted ==> r == None && View() == old(View())
    {
      if !accepted { return None; }
      var h := Sub(nextId, pattern);
      nextId := nextId + 1;
      handlersAll := handlersAll + [h];
      AddToAllLists(h);
      return Some(h);
    }

    method AddToAllLists(h: Sub)
      requires ListsOk(View())
      modifies this`handlersMap
      ensures handlersMap == AddToLists(old(handlersMap), h, matches)
    {
      hide PtrArray.Add; hide PtrArray.Elements; hide PtrArray.Ok;
      ghost var was := handlersMap;
      var keys := handlersMap.Keys;
      while keys != {}
        invariant keys <= handlersMap.Keys == was.Keys
        invariant forall c :: c in was ==>
          handlersMap[c] == if c !in keys && matches(h.pattern, c) then was[c].Add(h) else was[c]
        decreases |keys|
      {
        var c :| c in keys;
        keys := keys - {c};
        if matches(h.pattern, c) { handlersMap := handlersMap[c := handlersMap[c].Add(h)]; }
      }
      assert handlersMap == AddToLists(was, h, matches);
    }

    method RemoveFromAllLists(h: Sub)
      requires ListsOk(View())
      modifies this`handlersMap
      ensures handlersMap == RemoveFromLists(old(handlersMap), h)
    {
      hide PtrArray.RemoveFast; hide PtrArray.Elements; hide PtrArray.Ok;
      ghost var was := handlersMap;
      var keys := handlersMap.Keys;
      while keys != {}
        invariant keys <= handlersMap.Keys == was.Keys
        invariant forall c :: c in was ==> handlersMap[c] == if c !in keys then was[c].RemoveFast(h) else was[c]
        decreases |keys|
      {
        var c :| c in keys;
        keys := keys - {c};
        handlersMap := handlersMap[c := handlersMap[c].RemoveFast(h)];
      }
      assert handlersMap == RemoveFromLists(was, h);
    }

    /** lcm_unsubscribe; the memory of an unreferenced handler is freed here. */
    method Unsubscribe(h: Sub) returns (r: int)
      requires ListsOk(View())
      modifies this
      ensures View() == Registry.Unsubscribe(old(View()), h) && r == if h in old(handlersAll) then 0 else -1
    {
      var foundit := h in handlersAll;
      if foundit {
        handlersAll := Remove(handlersAll, h);
        RemoveFromAllLists(h);
        if h.id in scheduled { marked := marked + {h.id}; }
      }
      return if foundit then 0 else -1;
    }

    /** lcm_get_handlers */
    method GetHandlers(channel: string) returns (r: PtrArray)
      requires ListsOk(View())
      modifies this`handlersMap
      ensures View() == Lookup(old(View()), channel, matches) && channel in handlersMap && r == handlersMap[channel]
        && ListsOk(View())
    {
      if channel in handlersMap { return handlersMap[channel]; }
      var handlers := [];
      var i := 0;
      while i < |handlersAll|
        invariant 0 <= i <= |handlersAll| && handlers == Matching(handlersAll[..i], channel, matches)
        invariant View() == old(View())
      {
        MatchingSnoc(handlersAll[..i], handlersAll[i], channel, matches);
        assert handlersAll[..i + 1] == handlersAll[..i] + [handlersAll[i]];
        if matches(handlersAll[i].pattern, channel) { handlers := handlers + [handlersAll[i]]; }
        i := i + 1;
      }
      assert handlersAll[..i] == handlersAll && handlers == Matching(handlersAll, channel, matches);
      ghost var was := View();
      r := PtrArray(handlers, |handlers|);
      handlersMap := handlersMap[channel := r];
      assert View() == Lookup(was, channel, matches);
    }

    /** lcm_has_handlers */
    method HasHandlers(channel: string) returns (r: bool)
      requires Inv(View(), matches)
      modifies this`handlersMap
      ensures View() == Lookup(old(View()), channel, matches)
      ensures r <==> exists h :: h in old(handlersAll) && matches(h.pattern, channel)
    {
      ghost var all := handlersAll;
      PerformKeepsInv(View(), DoLookup(channel), matches);
      MatchingIs(all, channel, matches);
      var handlers := GetHandlers(channel);
      ghost var e, f := handlers.Elements(), Matching(all, channel, matches);
      assert |e| == |multiset(e)| && |f| == |multiset(f)|;
      r := handlers.len > 0;
      if r { assert f[0] in f; }
    }

    /** What a callback does. */
    method Act(op: Op)
      requires ListsOk(View())
      modifies this
      ensures View() == Perform(old(View()), op, matches)
    {
      match op
      case DoSubscribe(p) => var _ := Subscribe(p, true);
      case DoUnsubscribe(h) => var _ := Unsubscribe(h);
      case DoLookup(c) => var _ := GetHandlers(c);
    }

    method Callback(ops: seq<Op>)
      requires ListsOk(View())
      modifies this
      ensures View() == PerformAll(old(View()), ops, matches) && ListsOk(View())
    {
      var k := 0;
      while k < |ops|
        invariant 0 <= k <= |ops| && ListsOk(View())
        invariant PerformAll(View(), ops[k..], matches) == PerformAll(old(View()), ops, matches)
      {
        Act(ops[k]);
        k := k + 1;
      }
    }

    /** lcm_dispatch_handlers; the k-th callback performs script[k]. */
    method DispatchHandlers(channel: string, script: seq<seq<Op>>) returns (calls: seq<Sub>)
      requires ListsOk(View())
      modifies this
      ensures (View(), calls) == Dispatch(old(View()), channel, script, matches)
    {
      hide CallFrom; hide Unreferenced; hide Lookup; hide RemoveFromLists; hide Ids;
      ghost var start := View();
      CallsKeepOk(start, channel, script, matches);
      var handlers := GetHandlers(channel);
      var nhandlers := handlers.len;
      Reference(handlers.Elements());
      assert View() == Prepare(start, channel, matches);
      CallFromKeepsOk(View(), channel, 0, nhandlers, script, matches);
      calls := CallHandlers(channel, nhandlers, script);
      UnreferencedKeeps(View(), handlersMap[channel].slots[..nhandlers]);
      var gone := Unreference(handlersMap[channel].slots[..nhandlers]);
      while gone != []
        invariant ListsOk(View()) && RemoveGone(View(), gone) == Dispatch(start, channel, script, matches).0
        decreases |gone|
      {
        handlersAll := Remove(handlersAll, gone[0]);
        RemoveFromAllLists(gone[0]);
        gone := gone[1..];
      }
    }

    /** callback_scheduled = 1 */
    method Reference(hs: seq<Sub>)
      modifies this`scheduled
      ensures scheduled == old(scheduled) + Ids(hs)
    {
      var i := 0;
      while i < |hs|
        invariant 0 <= i <= |hs| && scheduled == old(scheduled) + Ids(hs[..i])
      {
        assert hs[..i + 1][..i] == hs[..i];
        scheduled := scheduled + {hs[i].id};
        i := i + 1;
      }
      assert hs[..i] == hs;
    }

    method CallHandlers(channel: string, nhandlers: nat, script: seq<seq<Op>>) returns (calls: seq<Sub>)
      requires ListsOk(View()) && channel in handlersMap && nhandlers <= |handlersMap[channel].slots|
      modifies this
      ensures (View(), calls) == CallFrom(old(View()), channel, 0, nhandlers, script, matches)
      ensures ListsOk(View()) && channel in handlersMap && nhandlers <= |handlersMap[channel].slots|
    {
      calls := [];
      var i, rest := 0, script;
      ghost var goal := CallFrom(View(), channel, 0, nhandlers, script, matches);
      assert [] + goal.1 == goal.1;
      while i < nhandlers
        invariant 0 <= i <= nhandlers && ListsOk(View()) && channel in handlersMap
          && nhandlers <= |handlersMap[channel].slots|
        invariant goal == PutFirst(calls, CallFrom(View(), channel, i, nhandlers, rest, matches))
      {
        var h := handlersMap[channel].slots[i];
        if h.id !in marked {
          var inside := Head(rest);
          SlotsStay(View(), inside, channel, matches);
          Callback(inside);
          CallsAssociate(calls, h, CallFrom(View(), channel, i + 1, nhandlers, Rest(rest), matches));
          calls, rest := calls + [h], Rest(rest);
        }
        i := i + 1;
      }
      assert calls + [] == calls;
    }

    /** callback_scheduled = 0, and the list to_remove */
    method Unreference(hs: seq<Sub>) returns (gone: seq<Sub>)
      modifies this`scheduled
      ensures (View(), gone) == Unreferenced(old(View()), hs)
    {
      gone := [];
      var i := 0;
      while i < |hs|
        invariant 0 <= i <= |hs| && (View(), gone) == Unreferenced(old(View()), hs[..i])
      {
        assert hs[..i + 1][..i] == hs[..i];
        UnreferencedKeeps(old(View()), hs[..i]);
        scheduled := scheduled - {hs[i].id};
        if hs[i].id in marked { gone := [hs[i]] + gone; }
        i := i + 1;
      }
      assert hs[..i] == hs;
    }
  }
}
