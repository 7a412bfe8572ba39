/**
 * The broadcast queue of app.py: a FIFO of waiters (gevent `AsyncResult`s)
 * that sessions have put there, and `broadcast`, which takes every waiter off
 * the queue without blocking and sets each one to the published message.
 *
 * A waiter is an identity `WaiterId`; its one-shot slot lives in `slots`:
 * `None` while it is pending, `Some(m)` once `set(m)` was called on it.
 */
module Rendezvous {
  import opened Wrappers
  import opened Seqs

  type WaiterId = nat

  datatype Hub = Hub(queue: seq<WaiterId>, slots: map<WaiterId, Option<string>>)

  /** The waiter exists and nobody has set it yet. */
  predicate Pending(h: Hub, id: WaiterId) {
    id in h.slots && h.slots[id].None?
  }

  /**
   * The queue holds each waiter at most once, and a waiter is queued exactly
   * while it is pending: putting a fresh waiter is the only way in, a
   * broadcast that sets it is the only way out.
   */
  predicate Valid(h: Hub) {
    && Distinct(h.queue)
    && (forall i :: 0 <= i < |h.queue| ==> Pending(h, h.queue[i]))
    && (forall id :: id in h.slots && h.slots[id].None? ==> id in h.queue)
  }

  /** `BROADCAST_QUEUE.put(AsyncResult())` for a newly created waiter `id`. */
  function Register(h: Hub, id: WaiterId): (h': Hub)
    requires id !in h.slots
    ensures Pending(h', id)
    ensures |h'.queue| == |h.queue| + 1 && h'.queue[..|h.queue|] == h.queue && h'.queue[|h.queue|] == id
    ensures forall x :: x in h.slots ==> x in h'.slots && h'.slots[x] == h.slots[x]
    ensures h'.slots.Keys == h.slots.Keys + {id}
  {
    Hub(h.queue + [id], h.slots[id := None])
  }

  /** Registering a fresh waiter keeps the queue valid. */
  lemma RegisterKeepsValid(h: Hub, id: WaiterId)
    requires Valid(h) && id !in h.slots
    ensures Valid(Register(h, id))
  {
    var h' := Register(h, id);
    forall i | 0 <= i < |h'.queue| ensures Pending(h', h'.queue[i]) {
      if i < |h.queue| {
        assert h'.queue[i] == h.queue[i];
      }
    }
  }

  /** The slots after `set(msg)` was called on each waiter of `ids`, front to back. */
  function Fulfil(slots: map<WaiterId, Option<string>>, ids: seq<WaiterId>, msg: string): (r: map<WaiterId, Option<string>>)
    ensures r.Keys == slots.Keys + set id | id in ids
    ensures forall id :: id in ids ==> r[id] == Some(msg)
    ensures forall id :: id in slots && id !in ids ==> r[id] == slots[id]
    decreases |ids|
  {
    if |ids| == 0 then slots
    else Fulfil(slots[ids[0] := Some(msg)], ids[1..], msg)
  }

  /** The effect of `broadcast(msg)` on the queue and the waiters. */
  function Publish(h: Hub, msg: string): (h': Hub)
    ensures h'.queue == []
    ensures forall id :: id in h.queue ==> id in h'.slots && h'.slots[id] == Some(msg)
    ensures forall id :: id in h.slots && id !in h.queue ==> id in h'.slots && h'.slots[id] == h.slots[id]
    ensures h'.slots.Keys == h.slots.Keys + set id | id in h.queue
  {
    Hub([], Fulfil(h.slots, h.queue, msg))
  }

  /**
   * The draining loop: `BROADCAST_QUEUE.get(block=False)` until `Empty`.
   * It returns the waiters in queue order and leaves the queue empty.
   */
  method Drain(h: Hub) returns (waiting: seq<WaiterId>, rest: Hub)
    ensures waiting == h.queue
    ensures rest.queue == [] && rest.slots == h.slots
  {
    var q := h.queue;
    waiting := [];
    while |q| > 0
      invariant waiting + q == h.queue
    {
      waiting := waiting + [q[0]];
      q := q[1..];
    }
    rest := Hub(q, h.slots);
  }

  /**
   * `broadcast(msg)`: drain the queue, then `set(msg)` on every drained waiter.
   * `calls` lists the waiters `set` was called on, in order.
   */
  method Broadcast(h: Hub, msg: string) returns (h': Hub, calls: seq<WaiterId>)
    ensures calls == h.queue
    ensures h' == Publish(h, msg)
  {
    var waiting, rest := Drain(h);
    var slots := rest.slots;
    calls := [];
    var i := 0;
    while i < |waiting|
      invariant 0 <= i <= |waiting|
      invariant calls == waiting[..i]
      invariant slots.Keys == h.slots.Keys + set id | id in waiting[..i]
      invariant forall id :: id in waiting[..i] ==> slots[id] == Some(msg)
      invariant forall id :: id in h.slots && id !in waiting[..i] ==> slots[id] == h.slots[id]
    {
      assert waiting[..i + 1] == waiting[..i] + [waiting[i]];
      slots := slots[waiting[i] := Some(msg)];
      calls := calls + [waiting[i]];
      i := i + 1;
    }
    assert waiting[..i] == h.queue;
    h' := Hub(rest.queue, slots);
    assert h'.slots == Publish(h, msg).slots;
  }

  /** A broadcast on an empty queue changes nothing: the message is dropped. */
  lemma PublishToNobody(h: Hub, msg: string)
    requires h.queue == []
    ensures Publish(h, msg) == h
  {
    assert Publish(h, msg).slots == h.slots;
  }

  /**
   * On a valid queue, `broadcast` calls `set` once on every waiter that was
   * queued and never on any other, and each of those was still pending, so
   * no waiter is ever set twice.
   */
  lemma {:induction false} BroadcastSetsEachOnce(h: Hub, msg: string, calls: seq<WaiterId>, id: WaiterId)
    requires Valid(h) && calls == h.queue
    ensures multiset(calls)[id] == if id in h.queue then 1 else 0
    ensures id in calls ==> Pending(h, id)
  {
    DistinctCountsOnce(calls, id);
  }

  /** After a broadcast the queue is empty and nothing is pending. */
  lemma PublishKeepsValid(h: Hub, msg: string)
    requires Valid(h)
    ensures Valid(Publish(h, msg))
    ensures forall id :: !Pending(Publish(h, msg), id)
  {
    var h' := Publish(h, msg);
    forall id | id in h'.slots ensures h'.slots[id].Some? {
      if id !in h.queue {
        assert !Pending(h, id);
      }
    }
  }
}
