/**
 * The `receive()` generator of app.py for one streaming connection, as a
 * state machine over explicit state instead of a gevent greenlet.
 *
 * One loop iteration is split at the point where the greenlet blocks:
 * `Arm` is the loop guard plus "if there is no current waiter, create one and
 * put it on the broadcast queue", after which the session sits in
 * `tmp.get(timeout=KEEP_ALIVE_DELAY)`; `Resume` is the end of that wait —
 * the waiter's value if someone set it, otherwise a timeout — followed by the
 * `yield`, the reset of `tmp` after a delivery and the next clock reading.
 * Broadcasts from other greenlets happen between the two.
 */
module Receiver {
  import opened Wrappers
  import opened Rendezvous

  /** Seconds a session waits for a message before it yields a heartbeat. */
  const KEEP_ALIVE_DELAY: int := 25
  /** Seconds after which a session stops, whatever the client does. */
  const MAX_DURATION: int := 300

  /** Where the generator is suspended. */
  datatype Stage =
    | AtLoopHead  // before the `while now < end` test
    | InGet       // blocked in `tmp.get(...)`
    | Closed      // the client went away and the generator was closed

  /**
   * `tmp` is the current waiter, `now` the last clock reading, `end` the
   * deadline, `yielded` every item produced so far.
   */
  datatype Session = Session(tmp: Option<WaiterId>, now: int, end: int, stage: Stage, yielded: seq<string>)

  /** The loop condition `now < end`. */
  predicate Live(s: Session) {
    s.now < s.end
  }

  /** The generator will produce nothing more: closed, or its loop has exited. */
  predicate Done(s: Session) {
    s.stage == Closed || (s.stage == AtLoopHead && !Live(s))
  }

  /** The first clock reading of the session. */
  function Start(s: Session): int {
    s.end - MAX_DURATION
  }

  /** Entering `receive()` with the clock reading `clock`. */
  function Open(clock: int): (s: Session)
    ensures Live(s) && !Done(s) && s.stage == AtLoopHead
    ensures Start(s) == s.now == clock
    ensures s.tmp == None && s.yielded == []
  {
    Session(None, clock, clock + MAX_DURATION, AtLoopHead, [])
  }

  /** How `tmp.get(timeout=...)` ends: with the value set on the waiter, or with `Timeout`. */
  datatype Outcome = Delivered(msg: string) | TimedOut

  /** A waiter that was set hands over its value; one still pending times out. */
  function Wait(h: Hub, id: WaiterId): (o: Outcome)
    ensures o.Delivered? <==> id in h.slots && h.slots[id].Some?
    ensures o.Delivered? ==> h.slots[id] == Some(o.msg)
  {
    if id in h.slots && h.slots[id].Some? then Delivered(h.slots[id].value) else TimedOut
  }

  /**
   * The loop guard held; register a newId waiter only when the session has
   * none, then block in `get`. A waiter kept from a timeout is not put on
   * the queue again.
   */
  function Arm(s: Session, h: Hub, newId: WaiterId): (r: (Session, Hub))
    requires s.stage == AtLoopHead && Live(s)
    requires s.tmp.None? ==> newId !in h.slots
    ensures r.0.stage == InGet && r.0.tmp.Some?
    ensures r.0.now == s.now && r.0.end == s.end && r.0.yielded == s.yielded
    ensures s.tmp.Some? ==> r.0.tmp == s.tmp && r.1 == h
    ensures s.tmp.None? ==> r.0.tmp == Some(newId) && r.1 == Register(h, newId)
  {
    if s.tmp.None? then
      (s.(tmp := Some(newId), stage := InGet), Register(h, newId))
    else
      (s.(stage := InGet), h)
  }

  /**
   * The wait ended: yield exactly one item — the delivered message, after
   * which the waiter is dropped, or `''` on a timeout, keeping the same
   * waiter — and read the clock again.
   */
  function Resume(s: Session, h: Hub, clock: int): (r: Session)
    requires s.stage == InGet && s.tmp.Some?
    ensures r.stage == AtLoopHead && r.now == clock && r.end == s.end
    ensures |r.yielded| == |s.yielded| + 1 && r.yielded[..|s.yielded|] == s.yielded
    ensures Wait(h, s.tmp.value).Delivered? ==> r.yielded[|s.yielded|] == Wait(h, s.tmp.value).msg && r.tmp == None
    ensures Wait(h, s.tmp.value).TimedOut? ==> r.yielded[|s.yielded|] == "" && r.tmp == s.tmp
  {
    match Wait(h, s.tmp.value)
    case Delivered(m) => s.(tmp := None, now := clock, stage := AtLoopHead, yielded := s.yielded + [m])
    case TimedOut => s.(now := clock, stage := AtLoopHead, yielded := s.yielded + [""])
  }

  /**
   * The client disconnected: the generator is closed where it stands; its
   * waiter is left as it is. In the server a disconnect is noticed only when
   * a frame is written, at a `yield`, which is the loop head here; allowing
   * `Close` during a wait as well over-approximates the program, and every
   * property of the model holds for the larger set of schedules.
   */
  function Close(s: Session): (r: Session)
    ensures Done(r) && r.tmp == s.tmp && r.yielded == s.yielded
  {
    s.(stage := Closed)
  }
}
