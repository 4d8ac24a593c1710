/** lcm_buf_queue_t: a singly linked queue threaded through the buffers themselves. */
module BufQueue {

  class LcmBuf {
    var next: LcmBuf?
    constructor ()
      ensures next == null
    {
      next := null;
    }
  }

  class Queue {
    var head: LcmBuf?
    var tail: LcmBuf?    // the buffer whose next field *q->tail is; null while q->tail is &q->head
    var count: nat
    ghost var items: seq<LcmBuf>

    ghost predicate LinkAt(i: nat)
      requires i < |items|
      reads this, items
    {
      items[i].next == if i == |items| - 1 then null else items[i + 1]
    }

    ghost predicate Valid()
      reads this, items
    {
      && count == |items|
      && (items == [] ==> head == null && tail == null)
      && (items != [] ==> head == items[0] && tail == items[|items| - 1])
      && (forall i :: 0 <= i < |items| ==> LinkAt(i))
      && forall i, j :: 0 <= i < j < |items| ==> items[i] != items[j]
    }

    constructor ()
      ensures Valid() && items == []
    {
      head, tail, count := null, null, 0;
      items := [];
    }

    method Enqueue(el: LcmBuf)
      requires Valid() && el !in items
      modifies this, el, items
      ensures Valid() && items == old(items) + [el] && count == old(count) + 1
      ensures forall b: LcmBuf :: old(allocated(b)) && b != el && b != old(tail) ==> b.next == old(b.next)
    {
      ghost var was := items;
      if tail == null { head := el; } else { tail.next := el; }
      tail := el;
      el.next := null;
      count := count + 1;
      items := items + [el];
      forall i | 0 <= i < |items| ensures LinkAt(i) {
        if i < |was| { assert old(LinkAt(i)); assert i == |was| - 1 || was[i] != was[|was| - 1]; }
      }
    }

    method Dequeue() returns (el: LcmBuf?)
      requires Valid()
      modifies this, items
      ensures Valid()
      ensures old(items) == [] ==> el == null && items == []
      ensures old(items) != [] ==> el == old(items)[0] && el.next == null && items == old(items)[1..]
      ensures forall b: LcmBuf :: old(allocated(b)) && b != el ==> b.next == old(b.next)
    {
      el := head;
      if el == null { return; }
      ghost var was := items;
      assert LinkAt(0);
      head := el.next;
      el.next := null;
      if head == null { tail := null; }
      count := count - 1;
      items := items[1..];
      forall i | 0 <= i < |items| ensures LinkAt(i) {
        assert old(LinkAt(i + 1)) && was[0] != was[i + 1];
      }
    }
  }
}
