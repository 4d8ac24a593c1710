/** frag_bufs and frag_bufs_total_size of lcm_udpm_t with the methods that change them. */
module Reassembler {
  import opened Buffers
  import opened Bytes
  import opened FragmentSender
  import opened FragmentTable
  import opened Wrappers

  // ----- the eviction loop -----

  /** Part of an eviction: these victims were removed so far. */
  ghost predicate Evicted(t: Table, victims: seq<Addr>, now: Table)
    decreases |victims|
  {
    if victims == [] then now == t
    else OverLimit(t) && LeastRecent(t.bufs, victims[0]) && Evicted(Destroy(t, victims[0]), victims[1..], now)
  }

  lemma {:induction false} EvictedSnoc(t: Table, victims: seq<Addr>, now: Table, v: Addr)
    requires Evicted(t, victims, now) && OverLimit(now) && LeastRecent(now.bufs, v)
    ensures Evicted(t, victims + [v], Destroy(now, v))
    decreases |victims|
  {
    if victims == [] {
      assert ([v])[1..] == [];
    } else {
      assert (victims + [v])[1..] == victims[1..] + [v];
      EvictedSnoc(Destroy(t, victims[0]), victims[1..], now, v);
    }
  }

  lemma {:induction false} EvictedDone(t: Table, victims: seq<Addr>, now: Table)
    requires Evicted(t, victims, now) && !OverLimit(now)
    ensures ValidEviction(t, victims) && Evict(t, victims) == now
    decreases |victims|
  {
    if victims != [] { EvictedDone(Destroy(t, victims[0]), victims[1..], now); }
  }

  lemma EmptyIsSmall(t: Table)
    requires Bounded(t) && t.bufs == map[]
    ensures !OverLimit(t)
  {}

  class FragmentStore {
    var fragBufs: map<Addr, FragBuf>
    var totalSize: nat

    ghost function View(): Table
      reads this
    {
      Table(fragBufs, totalSize)
    }

    constructor ()
      ensures View() == EMPTY && Bounded(View())
    {
      fragBufs, totalSize := map[], 0;
    }

    method DestroyFragmentBuffer(a: Addr)
      requires a in fragBufs
      modifies this
      ensures View() == Destroy(old(View()), a)
    {
      totalSize := (totalSize - |fragBufs[a].data|) % UINT32;
      fragBufs := fragBufs - {a};
    }

    /** g_hash_table_foreach with _find_lru_frag_buf, in any order of the table. */
    method FindLru() returns (lru: Option<Addr>)
      ensures lru == None <==> fragBufs == map[]
      ensures lru.Some? ==> LeastRecent(fragBufs, lru.value)
    {
      lru := None;
      var rest := fragBufs.Keys;
      while rest != {}
        invariant rest <= fragBufs.Keys
        invariant lru == None <==> rest == fragBufs.Keys
        invariant lru.Some? ==> lru.value in fragBufs
        invariant lru.Some? ==> forall a :: a in fragBufs && a !in rest ==>
          fragBufs[lru.value].lastTime <= fragBufs[a].lastTime
        decreases |rest|
      {
        var a :| a in rest;
        rest := rest - {a};
        if lru == None || fragBufs[a].lastTime < fragBufs[lru.value].lastTime { lru := Some(a); }
      }
    }

    /** _add_fragment_buffer */
    method AddFragmentBuffer(a: Addr, fbuf: FragBuf) returns (ghost victims: seq<Addr>)
      requires Bounded(View()) && a !in fragBufs
      modifies this
      ensures ValidEviction(old(View()), victims)
      ensures View() == Insert(Evict(old(View()), victims), a, fbuf)
    {
      victims := [];
      ghost var start := View();
      while totalSize > MAX_TOTAL || |fragBufs| > MAX_BUFS
        invariant Bounded(View()) && Evicted(start, victims, View())
        decreases |fragBufs|
      {
        var lru := FindLru();
        if fragBufs == map[] { EmptyIsSmall(View()); }
        DestroyKeepsBounds(View(), lru.value);
        EvictedSnoc(start, victims, View(), lru.value);
        victims := victims + [lru.value];
        DestroyFragmentBuffer(lru.value);
      }
      EvictedDone(start, victims, View());
      fragBufs := fragBufs[a := fbuf];
      totalSize := (totalSize + |fbuf.data|) % UINT32;
    }

    method RecvMessageFragment(a: Addr, f: Fragment, now: int, utime: int, malloced: seq<byte>, subscribed: bool)
        returns (r: Option<Delivery>, ghost victims: seq<Addr>)
      requires Bounded(View()) && PacketOk(f) && |malloced| == f.msgSize
      modifies this
      ensures var e := Event(a, f, now, utime, malloced, victims, subscribed);
        Enabled(old(View()), e) && (View(), r) == Receive(old(View()), e)
      ensures Bounded(View())
    {
      hide Bounded; hide Strlen; hide Store; hide ValidEviction; hide Evict;
      ghost var before := View();
      victims := [];
      r := None;
      if a in fragBufs && (fragBufs[a].seqno != f.seqno || |fragBufs[a].data| != f.msgSize) {
        DestroyKeepsBounds(View(), a);
        DestroyFragmentBuffer(a);
      }
      assert View() == DropStale(before, a, f);
      var part := f.payload;
      if f.msgSize <= MAX_MESSAGE {
        var go := a in fragBufs;
        if !go && f.no == 0 {
          var channelSz := Strlen(f.payload);
          if channelSz <= MAX_CHANNEL && subscribed {
            victims := AddFragmentBuffer(a, FragBuf(f.payload[..channelSz], malloced, f.count, f.seqno, now, utime));
            part := f.payload[channelSz + 1..];
            go := true;
          }
        }
        if go { r := StorePart(a, f.offset, part, now); }
      }
      ReceiveKeepsBounds(before, Event(a, f, now, utime, malloced, victims, subscribed));
    }

    /** The rest of _recv_message_fragment, from the bounds check on. */
    method StorePart(a: Addr, offset: nat, part: seq<byte>, now: int) returns (r: Option<Delivery>)
      requires a in fragBufs
      modifies this
      ensures (View(), r) == Store(old(View()), a, offset, part, now)
    {
      var fbuf := fragBufs[a];
      if offset + |part| > |fbuf.data| {
        DestroyFragmentBuffer(a);
        return None;
      }
      fbuf := fbuf.(data := Splice(fbuf.data, offset, part), lastTime := now,
        remaining := (fbuf.remaining - 1) % 0x1_0000);
      fragBufs := fragBufs[a := fbuf];
      if fbuf.remaining == 0 {
        DestroyFragmentBuffer(a);
        return Some(Delivery(a, fbuf.channel, fbuf.data, fbuf.firstUtime));
      }
      return None;
    }
  }
}
