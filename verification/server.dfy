/**
 * All streaming connections of the process sharing one broadcast queue.
 * The greenlets' interleaving becomes a sequence of events; each event is
 * one uninterrupted piece of a greenlet's work, as gevent runs a greenlet
 * until it blocks.
 */
module Server {
  import opened Wrappers
  import opened Rendezvous
  import Receiver
  import EventStream

  type SessionId = nat

  datatype Event =
    | Open(sid: SessionId, clock: int)    // a client opens `/stream`
    | Post(msg: string)                   // an upload was processed and `broadcast(msg)` runs
    | Arm(sid: SessionId)                 // the session passes its loop guard and blocks in `get`
    | Resume(sid: SessionId, clock: int)  // the session's `get` returns or times out
    | Close(sid: SessionId)               // the client disconnected

  /**
   * `owner` records which session created each waiter and `nextId` the
   * next waiter identity; `published` is the history of broadcast messages.
   */
  datatype System = System(
    hub: Hub,
    sessions: map<SessionId, Receiver.Session>,
    owner: map<WaiterId, SessionId>,
    nextId: WaiterId,
    published: seq<string>)

  /** The process at start-up: an empty queue and no connections. */
  const Init: System := System(Hub([], map[]), map[], map[], 0, [])

  /** Whether the greenlet an event belongs to can take that step now. */
  predicate Enabled(sys: System, ev: Event) {
    match ev
    case Open(sid, _) => sid !in sys.sessions
    case Post(_) => true
    case Arm(sid) =>
      && sid in sys.sessions
      && sys.sessions[sid].stage == Receiver.AtLoopHead
      && Receiver.Live(sys.sessions[sid])
      && sys.nextId !in sys.hub.slots
    case Resume(sid, _) =>
      sid in sys.sessions && sys.sessions[sid].stage == Receiver.InGet && sys.sessions[sid].tmp.Some?
    case Close(sid) => sid in sys.sessions && sys.sessions[sid].stage != Receiver.Closed
  }

  /** One step; an event that is not enabled changes nothing. */
  function Step(sys: System, ev: Event): System {
    if !Enabled(sys, ev) then sys
    else match ev
      case Open(sid, clock) => sys.(sessions := sys.sessions[sid := Receiver.Open(clock)])
      case Post(msg) => sys.(hub := Publish(sys.hub, msg), published := sys.published + [msg])
      case Arm(sid) =>
        var s := sys.sessions[sid];
        var r := Receiver.Arm(s, sys.hub, sys.nextId);
        System(r.1, sys.sessions[sid := r.0],
               if s.tmp.None? then sys.owner[sys.nextId := sid] else sys.owner,
               sys.nextId + 1, sys.published)
      case Resume(sid, clock) =>
        sys.(sessions := sys.sessions[sid := Receiver.Resume(sys.sessions[sid], sys.hub, clock)])
      case Close(sid) => sys.(sessions := sys.sessions[sid := Receiver.Close(sys.sessions[sid])])
  }

  /**
   * An event of one session leaves every other session alone, only a
   * broadcast sets a waiter, and nothing is forgotten: sessions, waiters,
   * identities and the history of broadcasts only grow.
   */
  lemma StepFrame(sys: System, ev: Event)
    ensures var r := Step(sys, ev);
      && sys.sessions.Keys <= r.sessions.Keys
      && (forall sid :: sid in sys.sessions && (ev.Post? || ev.sid != sid) ==> r.sessions[sid] == sys.sessions[sid])
      && (!ev.Post? ==> forall id :: id in sys.hub.slots ==> id in r.hub.slots && r.hub.slots[id] == sys.hub.slots[id])
      && sys.hub.slots.Keys <= r.hub.slots.Keys
      && sys.nextId <= r.nextId && sys.published <= r.published
  {
  }

  /** The state after a whole schedule of events. */
  function Run(sys: System, evs: seq<Event>): System
    decreases |evs|
  {
    if |evs| == 0 then sys else Run(Step(sys, evs[0]), evs[1..])
  }

  /** Every queued waiter is the current waiter of the session that created it. */
  predicate QueuedAreCurrent(sys: System) {
    forall i :: 0 <= i < |sys.hub.queue| ==>
      && sys.hub.queue[i] in sys.owner
      && sys.owner[sys.hub.queue[i]] in sys.sessions
      && sys.sessions[sys.owner[sys.hub.queue[i]]].tmp == Some(sys.hub.queue[i])
  }

  /** Every value a waiter holds or a session yielded is a heartbeat or a published message. */
  predicate OnlyPublished(sys: System) {
    && (forall id :: id in sys.hub.slots && sys.hub.slots[id].Some? ==> sys.hub.slots[id].value in sys.published)
    && (forall sid, k :: sid in sys.sessions && 0 <= k < |sys.sessions[sid].yielded| ==>
          sys.sessions[sid].yielded[k] == "" || sys.sessions[sid].yielded[k] in sys.published)
  }

  /** What every reachable state satisfies. */
  predicate Inv(sys: System) {
    && Valid(sys.hub)
    && (forall id :: id in sys.hub.slots ==> id < sys.nextId)
    && sys.owner.Keys == sys.hub.slots.Keys
    && (forall id :: id in sys.owner ==> sys.owner[id] in sys.sessions)
    && (forall sid :: sid in sys.sessions && sys.sessions[sid].tmp.Some? ==>
          sys.sessions[sid].tmp.value in sys.owner && sys.owner[sys.sessions[sid].tmp.value] == sid)
    && (forall sid :: sid in sys.sessions && sys.sessions[sid].stage == Receiver.InGet ==>
          sys.sessions[sid].tmp.Some? && Receiver.Live(sys.sessions[sid]))
    && QueuedAreCurrent(sys)
    && OnlyPublished(sys)
  }

  lemma InitInv()
    ensures Inv(Init)
  {
  }

  lemma OpenKeepsInv(sys: System, sid: SessionId, clock: int)
    requires Inv(sys) && Enabled(sys, Open(sid, clock))
    ensures Inv(Step(sys, Open(sid, clock)))
  {
    var sys' := Step(sys, Open(sid, clock));
    assert QueuedAreCurrent(sys') by {
      forall i | 0 <= i < |sys'.hub.queue|
        ensures sys'.sessions[sys'.owner[sys'.hub.queue[i]]].tmp == Some(sys'.hub.queue[i])
      {
        assert sys'.owner[sys.hub.queue[i]] != sid;
      }
    }
  }

  lemma PostKeepsInv(sys: System, msg: string)
    requires Inv(sys)
    ensures Inv(Step(sys, Post(msg)))
  {
    var sys' := Step(sys, Post(msg));
    PublishKeepsValid(sys.hub, msg);
    assert OnlyPublished(sys') by {
      forall id | id in sys'.hub.slots && sys'.hub.slots[id].Some?
        ensures sys'.hub.slots[id].value in sys'.published
      {
        if id !in sys.hub.queue {
          assert sys'.hub.slots[id] == sys.hub.slots[id];
        }
      }
    }
  }

  /** Arming a session without a waiter puts one fresh waiter on the queue. */
  lemma ArmNewKeepsInv(sys: System, sid: SessionId)
    requires Inv(sys) && Enabled(sys, Arm(sid)) && sys.sessions[sid].tmp.None?
    ensures Inv(Step(sys, Arm(sid)))
  {
    var sys' := Step(sys, Arm(sid));
    var id := sys.nextId;
    assert sys'.hub == Register(sys.hub, id);
    assert sys'.owner == sys.owner[id := sid];
    assert sys'.sessions[sid].tmp == Some(id);
    RegisterKeepsValid(sys.hub, id);
    assert QueuedAreCurrent(sys') by {
      forall i | 0 <= i < |sys'.hub.queue|
        ensures sys'.sessions[sys'.owner[sys'.hub.queue[i]]].tmp == Some(sys'.hub.queue[i])
      {
        if i < |sys.hub.queue| {
          assert sys'.hub.queue[i] == sys.hub.queue[i];
          assert sys.owner[sys.hub.queue[i]] != sid;
        }
      }
    }
    assert OnlyPublished(sys') by {
      assert forall id' :: id' in sys'.hub.slots && sys'.hub.slots[id'].Some? ==> id' in sys.hub.slots;
    }
  }

  /** Arming a session that kept its waiter from a timeout touches neither the queue nor the owners. */
  lemma ArmKeptKeepsInv(sys: System, sid: SessionId)
    requires Inv(sys) && Enabled(sys, Arm(sid)) && sys.sessions[sid].tmp.Some?
    ensures Inv(Step(sys, Arm(sid)))
  {
    var sys' := Step(sys, Arm(sid));
    assert sys'.hub == sys.hub && sys'.owner == sys.owner;
    assert sys'.sessions[sid].tmp == sys.sessions[sid].tmp;
    assert QueuedAreCurrent(sys');
  }

  lemma ResumeKeepsInv(sys: System, sid: SessionId, clock: int)
    requires Inv(sys) && Enabled(sys, Resume(sid, clock))
    ensures Inv(Step(sys, Resume(sid, clock)))
  {
    var s := sys.sessions[sid];
    var sys' := Step(sys, Resume(sid, clock));
    assert QueuedAreCurrent(sys') by {
      forall i | 0 <= i < |sys'.hub.queue|
        ensures sys'.sessions[sys'.owner[sys'.hub.queue[i]]].tmp == Some(sys'.hub.queue[i])
      {
        var id := sys.hub.queue[i];
        if sys.owner[id] == sid {
          assert Pending(sys.hub, id);
        }
      }
    }
    assert OnlyPublished(sys') by {
      var s' := sys'.sessions[sid];
      forall k | 0 <= k < |s'.yielded| ensures s'.yielded[k] == "" || s'.yielded[k] in sys'.published {
        if k < |s.yielded| {
          assert s'.yielded[k] == s.yielded[k];
        }
      }
    }
  }

  lemma CloseKeepsInv(sys: System, sid: SessionId)
    requires Inv(sys) && Enabled(sys, Close(sid))
    ensures Inv(Step(sys, Close(sid)))
  {
  }

  /** Every step keeps the invariant. */
  lemma StepKeepsInv(sys: System, ev: Event)
    requires Inv(sys)
    ensures Inv(Step(sys, ev))
  {
    if Enabled(sys, ev) {
      match ev
      case Open(sid, clock) => OpenKeepsInv(sys, sid, clock);
      case Post(msg) => PostKeepsInv(sys, msg);
      case Arm(sid) =>
        if sys.sessions[sid].tmp.None? { ArmNewKeepsInv(sys, sid); } else { ArmKeptKeepsInv(sys, sid); }
      case Resume(sid, clock) => ResumeKeepsInv(sys, sid, clock);
      case Close(sid) => CloseKeepsInv(sys, sid);
    }
  }

  /** Every schedule keeps the invariant. */
  lemma {:induction false} RunKeepsInv(sys: System, evs: seq<Event>)
    requires Inv(sys)
    ensures Inv(Run(sys, evs))
    decreases |evs|
  {
    if |evs| > 0 {
      StepKeepsInv(sys, evs[0]);
      RunKeepsInv(Step(sys, evs[0]), evs[1..]);
    }
  }

  /** In every reachable state each session has at most one waiter on the queue. */
  lemma OneQueuedWaiterPerSession(sys: System)
    requires Inv(sys)
    ensures forall i, j :: 0 <= i < j < |sys.hub.queue| ==> sys.owner[sys.hub.queue[i]] != sys.owner[sys.hub.queue[j]]
  {
    forall i, j | 0 <= i < j < |sys.hub.queue|
      ensures sys.owner[sys.hub.queue[i]] != sys.owner[sys.hub.queue[j]]
    {
      assert sys.hub.queue[i] != sys.hub.queue[j];
    }
  }

  /** The reachable states are those of schedules run from start-up. */
  lemma ReachableOneQueuedWaiter(evs: seq<Event>)
    ensures Inv(Run(Init, evs))
    ensures var sys := Run(Init, evs);
      forall i, j :: 0 <= i < j < |sys.hub.queue| ==> sys.owner[sys.hub.queue[i]] != sys.owner[sys.hub.queue[j]]
  {
    InitInv();
    RunKeepsInv(Init, evs);
    OneQueuedWaiterPerSession(Run(Init, evs));
  }

  /**
   * Arming puts a waiter on the queue only when the session holds none, and
   * then exactly one new waiter; a session that kept its waiter from a
   * timeout leaves the queue as it is.
   */
  lemma ArmRegistersOnlyWithoutWaiter(sys: System, sid: SessionId)
    requires Inv(sys) && Enabled(sys, Arm(sid))
    ensures var sys' := Step(sys, Arm(sid));
      && sys'.sessions[sid].tmp.Some?
      && (sys.sessions[sid].tmp.Some? ==> sys'.hub == sys.hub && sys'.sessions[sid].tmp == sys.sessions[sid].tmp)
      && (sys.sessions[sid].tmp.None? ==>
            && (forall i :: 0 <= i < |sys.hub.queue| ==> sys.owner[sys.hub.queue[i]] != sid)
            && sys'.hub.queue == sys.hub.queue + [sys.nextId]
            && sys.nextId !in sys.hub.queue)
  {
    var sys' := Step(sys, Arm(sid));
    if sys.sessions[sid].tmp.None? {
      assert sys'.hub.queue == sys.hub.queue + [sys.nextId];
    }
  }

  /**
   * Each resumption yields exactly one item. A delivered message is yielded
   * and the session lets go of its waiter, having none left on the queue; on
   * a timeout `''` is yielded and the same waiter stays registered.
   */
  lemma ResumeYieldsOneItem(sys: System, sid: SessionId, clock: int)
    requires Inv(sys) && Enabled(sys, Resume(sid, clock))
    ensures var s := sys.sessions[sid];
      var s' := Step(sys, Resume(sid, clock)).sessions[sid];
      var q' := Step(sys, Resume(sid, clock)).hub.queue;
      && s'.yielded[..|s.yielded|] == s.yielded && |s'.yielded| == |s.yielded| + 1
      && (!Pending(sys.hub, s.tmp.value) ==>
            && s'.yielded[|s.yielded|] == sys.hub.slots[s.tmp.value].value
            && s'.yielded[|s.yielded|] in sys.published
            && s'.tmp == None
            && forall i :: 0 <= i < |q'| ==> sys.owner[q'[i]] != sid)
      && (Pending(sys.hub, s.tmp.value) ==>
            s'.yielded[|s.yielded|] == "" && s'.tmp == s.tmp && s.tmp.value in q')
  {
  }

  /**
   * A session whose loop has exited or that was closed never yields again
   * and stays finished, whatever else happens.
   */
  lemma {:induction false} DoneIsFinal(sys: System, evs: seq<Event>, sid: SessionId)
    requires sid in sys.sessions && Receiver.Done(sys.sessions[sid])
    ensures sid in Run(sys, evs).sessions
    ensures Receiver.Done(Run(sys, evs).sessions[sid])
    ensures Run(sys, evs).sessions[sid].yielded == sys.sessions[sid].yielded
    decreases |evs|
  {
    if |evs| > 0 {
      var sys' := Step(sys, evs[0]);
      assert sid in sys'.sessions && Receiver.Done(sys'.sessions[sid]);
      assert sys'.sessions[sid].yielded == sys.sessions[sid].yielded;
      DoneIsFinal(sys', evs[1..], sid);
    }
  }

  /**
   * Nothing but a broadcast takes a waiter off the queue: a queued waiter
   * stays queued and pending through any schedule without a `Post`.
   */
  lemma {:induction false} QueuedUntilPost(sys: System, evs: seq<Event>, id: WaiterId)
    requires Inv(sys) && id in sys.hub.queue
    requires forall k :: 0 <= k < |evs| ==> !evs[k].Post?
    ensures id in Run(sys, evs).hub.queue && Pending(Run(sys, evs).hub, id)
    decreases |evs|
  {
    if |evs| > 0 {
      var sys' := Step(sys, evs[0]);
      StepKeepsInv(sys, evs[0]);
      assert id in sys'.hub.queue by {
        if Enabled(sys, evs[0]) && evs[0].Arm? && sys.sessions[evs[0].sid].tmp.None? {
          assert sys'.hub == Register(sys.hub, sys.nextId);
          assert sys'.hub.queue[..|sys.hub.queue|] == sys.hub.queue;
        } else {
          assert sys'.hub == sys.hub;
        }
      }
      QueuedUntilPost(sys', evs[1..], id);
    }
  }

  /** A broadcast sets every queued waiter and empties the queue. */
  lemma PostSetsQueued(sys: System, id: WaiterId, msg: string)
    requires id in sys.hub.queue
    ensures Step(sys, Post(msg)).hub.queue == []
    ensures id in Step(sys, Post(msg)).hub.slots && Step(sys, Post(msg)).hub.slots[id] == Some(msg)
  {
    assert Step(sys, Post(msg)).hub == Publish(sys.hub, msg);
  }

  /**
   * The waiter of a session that is closed while waiting is not taken off
   * the queue: whatever other sessions do, it stays there, pending, until
   * the next broadcast sets it and empties the queue.
   */
  lemma ClosedWaiterStaysQueued(sys: System, sid: SessionId, evs: seq<Event>, msg: string)
    requires Inv(sys) && Enabled(sys, Close(sid))
    requires sys.sessions[sid].tmp.Some? && Pending(sys.hub, sys.sessions[sid].tmp.value)
    requires forall k :: 0 <= k < |evs| ==> !evs[k].Post?
    ensures var sys' := Run(Step(sys, Close(sid)), evs);
      && sid in sys'.sessions && Receiver.Done(sys'.sessions[sid])
      && sys.sessions[sid].tmp.value in sys'.hub.queue
      && Pending(sys'.hub, sys.sessions[sid].tmp.value)
      && Step(sys', Post(msg)).hub.queue == []
      && Step(sys', Post(msg)).hub.slots[sys.sessions[sid].tmp.value] == Some(msg)
  {
    var id := sys.sessions[sid].tmp.value;
    var closed := Step(sys, Close(sid));
    CloseKeepsInv(sys, sid);
    DoneIsFinal(closed, evs, sid);
    QueuedUntilPost(closed, evs, id);
    PostSetsQueued(Run(closed, evs), id, msg);
  }

  /**
   * A session whose wait times out at or after its deadline leaves the loop
   * with its pending waiter still on the queue, and the waiter stays there
   * until the next broadcast.
   */
  lemma ExpiredWaiterStaysQueued(sys: System, sid: SessionId, clock: int, evs: seq<Event>, msg: string)
    requires Inv(sys) && Enabled(sys, Resume(sid, clock))
    requires Pending(sys.hub, sys.sessions[sid].tmp.value) && clock >= sys.sessions[sid].end
    requires forall k :: 0 <= k < |evs| ==> !evs[k].Post?
    ensures var sys' := Run(Step(sys, Resume(sid, clock)), evs);
      && sid in sys'.sessions && Receiver.Done(sys'.sessions[sid])
      && sys.sessions[sid].tmp.value in sys'.hub.queue
      && Pending(sys'.hub, sys.sessions[sid].tmp.value)
      && Step(sys', Post(msg)).hub.queue == []
      && Step(sys', Post(msg)).hub.slots[sys.sessions[sid].tmp.value] == Some(msg)
  {
    var id := sys.sessions[sid].tmp.value;
    var exited := Step(sys, Resume(sid, clock));
    ResumeKeepsInv(sys, sid, clock);
    assert Receiver.Done(exited.sessions[sid]);
    assert id in exited.hub.queue;
    DoneIsFinal(exited, evs, sid);
    QueuedUntilPost(exited, evs, id);
    PostSetsQueued(Run(exited, evs), id, msg);
  }

  /**
   * A session blocked on a pending waiter when a message is posted yields
   * exactly that message when it resumes.
   */
  lemma PostReachesWaitingSession(sys: System, msg: string, sid: SessionId, clock: int)
    requires Inv(sys) && sid in sys.sessions && sys.sessions[sid].stage == Receiver.InGet
    requires Pending(sys.hub, sys.sessions[sid].tmp.value)
    ensures var sys' := Step(Step(sys, Post(msg)), Resume(sid, clock));
      sys'.sessions[sid].yielded == sys.sessions[sid].yielded + [msg] && sys'.sessions[sid].tmp == None
  {
    var s := sys.sessions[sid];
    var mid := Step(sys, Post(msg));
    assert s.tmp.value in sys.hub.queue;
    assert mid.hub.slots[s.tmp.value] == Some(msg);
    assert Enabled(mid, Resume(sid, clock));
  }

  /**
   * Over a whole schedule, a session that no event names is left exactly as
   * it was, no session disappears, and broadcasts are only ever appended
   * to the history.
   */
  lemma {:induction false} RunFrame(sys: System, evs: seq<Event>, sid: SessionId)
    requires sid in sys.sessions
    ensures sid in Run(sys, evs).sessions
    ensures sys.published <= Run(sys, evs).published
    ensures (forall k :: 0 <= k < |evs| ==> evs[k].Post? || evs[k].sid != sid) ==>
      Run(sys, evs).sessions[sid] == sys.sessions[sid]
    decreases |evs|
  {
    if |evs| > 0 {
      var sys' := Step(sys, evs[0]);
      StepFrame(sys, evs[0]);
      RunFrame(sys', evs[1..], sid);
      assert sys.published <= sys'.published <= Run(sys, evs).published;
      if forall k :: 0 <= k < |evs| ==> evs[k].Post? || evs[k].sid != sid {
        assert forall k :: 0 <= k < |evs[1..]| ==> evs[1..][k] == evs[k + 1];
      }
    }
  }

  /**
   * Every Resume step reads a clock strictly later than the session's
   * previous reading (a clock that advances by at least one tick per iteration).
   */
  predicate ClockAdvances(sys: System, evs: seq<Event>)
    decreases |evs|
  {
    |evs| == 0 ||
    (&& (evs[0].Resume? && Enabled(sys, evs[0]) ==> evs[0].clock > sys.sessions[evs[0].sid].now)
     && ClockAdvances(Step(sys, evs[0]), evs[1..]))
  }

  /** Each session has yielded no more items than clock ticks since it started, and at most `MAX_DURATION`. */
  predicate YieldsBounded(sys: System) {
    forall sid :: sid in sys.sessions ==>
      && |sys.sessions[sid].yielded| <= sys.sessions[sid].now - Receiver.Start(sys.sessions[sid])
      && |sys.sessions[sid].yielded| <= Receiver.MAX_DURATION
  }

  lemma StepKeepsYieldsBounded(sys: System, ev: Event)
    requires Inv(sys) && YieldsBounded(sys)
    requires ev.Resume? && Enabled(sys, ev) ==> ev.clock > sys.sessions[ev.sid].now
    ensures YieldsBounded(Step(sys, ev))
  {
    var sys' := Step(sys, ev);
    if Enabled(sys, ev) && ev.Resume? {
      var s := sys.sessions[ev.sid];
      assert Receiver.Live(s);
      assert |sys'.sessions[ev.sid].yielded| == |s.yielded| + 1;
    }
  }

  lemma {:induction false} RunKeepsYieldsBounded(sys: System, evs: seq<Event>)
    requires Inv(sys) && YieldsBounded(sys) && ClockAdvances(sys, evs)
    ensures YieldsBounded(Run(sys, evs))
    decreases |evs|
  {
    if |evs| > 0 {
      StepKeepsYieldsBounded(sys, evs[0]);
      StepKeepsInv(sys, evs[0]);
      RunKeepsYieldsBounded(Step(sys, evs[0]), evs[1..]);
    }
  }

  /**
   * With an advancing clock a session yields at most `MAX_DURATION` items
   * in any schedule, so its loop ends: the deadline bounds every session.
   */
  lemma SessionsTerminate(evs: seq<Event>, sid: SessionId)
    requires ClockAdvances(Init, evs)
    requires sid in Run(Init, evs).sessions
    ensures |Run(Init, evs).sessions[sid].yielded| <= Receiver.MAX_DURATION
  {
    InitInv();
    RunKeepsYieldsBounded(Init, evs);
  }

  lemma {:induction false} RunAppend(sys: System, a: seq<Event>, b: seq<Event>)
    ensures Run(sys, a + b) == Run(Run(sys, a), b)
    decreases |a|
  {
    if |a| > 0 {
      assert (a + b)[0] == a[0] && (a + b)[1..] == a[1..] + b;
      RunAppend(Step(sys, a[0]), a[1..], b);
    } else {
      assert a + b == b;
    }
  }

  /** Two clients connect at time 0 and both block on their own fresh waiter. */
  lemma TwoSessionsArmed()
    ensures var sys := Run(Init, [Open(1, 0), Open(2, 0), Arm(1), Arm(2)]);
      && 1 in sys.sessions && 2 in sys.sessions
      && sys.sessions[1].stage == Receiver.InGet && sys.sessions[1].tmp == Some(0) && sys.sessions[1].yielded == []
      && sys.sessions[2].stage == Receiver.InGet && sys.sessions[2].tmp == Some(1) && sys.sessions[2].yielded == []
      && sys.hub.queue == [0, 1] && Pending(sys.hub, 0) && Pending(sys.hub, 1)
  {
    var evs := [Open(1, 0), Open(2, 0), Arm(1), Arm(2)];
    var s1 := Step(Init, evs[0]);
    var s2 := Step(s1, evs[1]);
    var s3 := Step(s2, evs[2]);
    assert s3.hub.queue == [0] && s3.sessions[1].tmp == Some(0);
    var s4 := Step(s3, evs[3]);
    assert s4.hub.queue == [0, 1] && s4.sessions[2].tmp == Some(1);
    assert Run(Init, evs) == Run(s1, evs[1..]) == Run(s2, evs[2..]) == Run(s3, evs[3..]) == s4;
  }

  /** Sessions 1 and 2 blocked on distinct pending waiters both yield a message posted next. */
  lemma PostThenResumeBoth(sys: System, msg: string, clock: int)
    requires 1 in sys.sessions && 2 in sys.sessions
    requires sys.sessions[1].stage == Receiver.InGet && sys.sessions[2].stage == Receiver.InGet
    requires sys.sessions[1].tmp.Some? && sys.sessions[2].tmp.Some?
    requires sys.sessions[1].tmp.value in sys.hub.queue && sys.sessions[2].tmp.value in sys.hub.queue
    ensures var sys' := Run(sys, [Post(msg), Resume(1, clock), Resume(2, clock)]);
      && 1 in sys'.sessions && 2 in sys'.sessions
      && sys'.sessions[1].yielded == sys.sessions[1].yielded + [msg]
      && sys'.sessions[2].yielded == sys.sessions[2].yielded + [msg]
      && sys'.hub.queue == []
  {
    var evs := [Post(msg), Resume(1, clock), Resume(2, clock)];
    var s1 := Step(sys, evs[0]);
    assert s1.hub.slots[sys.sessions[1].tmp.value] == Some(msg);
    assert s1.hub.slots[sys.sessions[2].tmp.value] == Some(msg);
    var s2 := Step(s1, evs[1]);
    assert s2.hub == s1.hub && s2.sessions[2] == sys.sessions[2];
    var s3 := Step(s2, evs[2]);
    assert Run(sys, evs) == Run(s1, evs[1..]) == Run(s2, evs[2..]) == s3;
  }

  /**
   * Two clients connected at time 0 and both waiting when an upload is
   * announced at time 1 both yield that message, not a heartbeat.
   */
  lemma TwoSessionsGetTheMessage(msg: string)
    ensures var sys := Run(Init, [Open(1, 0), Open(2, 0), Arm(1), Arm(2), Post(msg), Resume(1, 1), Resume(2, 1)]);
      1 in sys.sessions && 2 in sys.sessions && sys.sessions[1].yielded == [msg] && sys.sessions[2].yielded == [msg] && sys.hub.queue == []
  {
    var a := [Open(1, 0), Open(2, 0), Arm(1), Arm(2)];
    var b := [Post(msg), Resume(1, 1), Resume(2, 1)];
    assert a + b == [Open(1, 0), Open(2, 0), Arm(1), Arm(2), Post(msg), Resume(1, 1), Resume(2, 1)];
    RunAppend(Init, a, b);
    TwoSessionsArmed();
    PostThenResumeBoth(Run(Init, a), msg, 1);
  }

  /**
   * A session with nothing to receive yields a heartbeat and, on its next
   * iteration, waits on the same waiter: the queue still holds just that one.
   */
  lemma HeartbeatKeepsTheWaiter()
    ensures var sys := Run(Init, [Open(1, 0), Arm(1), Resume(1, Receiver.KEEP_ALIVE_DELAY), Arm(1)]);
      1 in sys.sessions && sys.sessions[1].yielded == [""] && sys.hub.queue == [0] && sys.sessions[1].tmp == Some(0)
  {
    var evs := [Open(1, 0), Arm(1), Resume(1, Receiver.KEEP_ALIVE_DELAY), Arm(1)];
    var s1 := Step(Init, evs[0]);
    var s2 := Step(s1, evs[1]);
    assert s2.hub.queue == [0] && s2.hub.slots[0] == None && s2.sessions[1].tmp == Some(0);
    var s3 := Step(s2, evs[2]);
    assert s3.sessions[1].yielded == [""] && s3.sessions[1].tmp == Some(0);
    var s4 := Step(s3, evs[3]);
    assert Run(Init, evs) == Run(s1, evs[1..]) == Run(s2, evs[2..]) == Run(s3, evs[3..]) == s4;
  }

  /** One session receives `m1` at time 1 and is left between iterations, holding no waiter. */
  lemma DeliveredAndUnarmed(m1: string)
    ensures var sys := Run(Init, [Open(1, 0), Arm(1), Post(m1), Resume(1, 1)]);
      && 1 in sys.sessions && sys.sessions[1].yielded == [m1] && sys.sessions[1].tmp == None
      && sys.sessions[1].stage == Receiver.AtLoopHead && sys.sessions[1].now == 1 && sys.sessions[1].end == 300
      && sys.hub.queue == [] && sys.nextId == 1 && sys.hub.slots.Keys == {0}
  {
    var evs := [Open(1, 0), Arm(1), Post(m1), Resume(1, 1)];
    var s1 := Step(Init, evs[0]);
    var s2 := Step(s1, evs[1]);
    assert s2.hub.queue == [0] && s2.sessions[1].tmp == Some(0);
    var s3 := Step(s2, evs[2]);
    assert s3.hub.slots[0] == Some(m1);
    var s4 := Step(s3, evs[3]);
    assert Run(Init, evs) == Run(s1, evs[1..]) == Run(s2, evs[2..]) == Run(s3, evs[3..]) == s4;
  }

  /**
   * A message posted while a session holds no waiter is lost to it: its
   * next wait is on a fresh waiter, which times out, whatever other
   * sessions have queued.
   */
  lemma PostWhileUnarmedIsMissed(sys: System, sid: SessionId, m2: string, clock: int)
    requires Inv(sys) && sid in sys.sessions && sys.sessions[sid].tmp == None
    requires sys.sessions[sid].stage == Receiver.AtLoopHead && Receiver.Live(sys.sessions[sid])
    ensures var sys' := Run(sys, [Post(m2), Arm(sid), Resume(sid, clock)]);
      sid in sys'.sessions && sys'.sessions[sid].yielded == sys.sessions[sid].yielded + [""]
  {
    var evs := [Post(m2), Arm(sid), Resume(sid, clock)];
    var s1 := Step(sys, evs[0]);
    PostKeepsInv(sys, m2);
    assert s1.sessions[sid] == sys.sessions[sid] && s1.nextId == sys.nextId;
    assert Enabled(s1, Arm(sid));
    var s2 := Step(s1, evs[1]);
    assert s2.sessions[sid].tmp == Some(sys.nextId) && Pending(s2.hub, sys.nextId);
    var s3 := Step(s2, evs[2]);
    assert Run(sys, evs) == Run(s1, evs[1..]) == Run(s2, evs[2..]) == s3;
  }

  /**
   * A message announced while a session is between iterations — it has
   * yielded a delivery and not yet registered its next waiter — never
   * reaches that session: it yields the delivered message `m1`, and its
   * next wait times out.
   */
  lemma MissedBetweenIterations(sys: System, sid: SessionId, c1: int, m2: string, c2: int)
    requires Inv(sys) && sid in sys.sessions && sys.sessions[sid].stage == Receiver.InGet
    requires !Pending(sys.hub, sys.sessions[sid].tmp.value) && c1 < sys.sessions[sid].end
    ensures var m1 := sys.hub.slots[sys.sessions[sid].tmp.value].value;
      var sys' := Run(sys, [Resume(sid, c1), Post(m2), Arm(sid), Resume(sid, c2)]);
      sid in sys'.sessions && sys'.sessions[sid].yielded == sys.sessions[sid].yielded + [m1, ""]
  {
    var m1 := sys.hub.slots[sys.sessions[sid].tmp.value].value;
    var s1 := Step(sys, Resume(sid, c1));
    RunFirstOfFour(sys, Resume(sid, c1), Post(m2), Arm(sid), Resume(sid, c2));
    DeliveryLeavesUnarmed(sys, sid, c1);
    PostWhileUnarmedIsMissed(s1, sid, m2, c2);
    assert (sys.sessions[sid].yielded + [m1]) + [""] == sys.sessions[sid].yielded + [m1, ""];
  }

  /** A four-event schedule runs its first event, then the other three. */
  lemma RunFirstOfFour(sys: System, e1: Event, e2: Event, e3: Event, e4: Event)
    ensures Run(sys, [e1, e2, e3, e4]) == Run(Step(sys, e1), [e2, e3, e4])
  {
    assert [e1, e2, e3, e4][1..] == [e2, e3, e4];
  }

  /** A delivery before the deadline leaves the session at its loop head, live and holding no waiter. */
  lemma DeliveryLeavesUnarmed(sys: System, sid: SessionId, c1: int)
    requires Inv(sys) && sid in sys.sessions && sys.sessions[sid].stage == Receiver.InGet
    requires !Pending(sys.hub, sys.sessions[sid].tmp.value) && c1 < sys.sessions[sid].end
    ensures var s1 := Step(sys, Resume(sid, c1));
      && Inv(s1) && sid in s1.sessions
      && s1.sessions[sid].yielded == sys.sessions[sid].yielded + [sys.hub.slots[sys.sessions[sid].tmp.value].value]
      && s1.sessions[sid].tmp == None && s1.sessions[sid].stage == Receiver.AtLoopHead
      && Receiver.Live(s1.sessions[sid])
  {
    var s := sys.sessions[sid];
    var s1 := Step(sys, Resume(sid, c1));
    assert s1.sessions[sid] == Receiver.Resume(s, sys.hub, c1);
    ResumeKeepsInv(sys, sid, c1);
  }

  /** From start-up: a session that received `m1` at time 1 misses `m2`, posted before its next wait. */
  lemma MissedBetweenIterationsExample(m1: string, m2: string)
    ensures var sys := Run(Init, [Open(1, 0), Arm(1), Post(m1), Resume(1, 1), Post(m2), Arm(1), Resume(1, 26)]);
      1 in sys.sessions && sys.sessions[1].yielded == [m1, ""]
  {
    var a := [Open(1, 0), Arm(1), Post(m1), Resume(1, 1)];
    var b := [Post(m2), Arm(1), Resume(1, 26)];
    assert a + b == [Open(1, 0), Arm(1), Post(m1), Resume(1, 1), Post(m2), Arm(1), Resume(1, 26)];
    RunAppend(Init, a, b);
    DeliveredAndUnarmed(m1);
    InitInv();
    RunKeepsInv(Init, a);
    PostWhileUnarmedIsMissed(Run(Init, a), 1, m2, 26);
  }

  /**
   * When no published message has a line break, LF or CR (`json.dumps` writes neither),
   * a client decodes from a session's stream exactly the items the session
   * yielded: the published messages it received and its heartbeats.
   */
  lemma ClientSeesYielded(sys: System, sid: SessionId)
    requires Inv(sys) && sid in sys.sessions
    requires forall k :: 0 <= k < |sys.published| ==> '\n' !in sys.published[k] && '\r' !in sys.published[k]
    ensures EventStream.Decode(EventStream.Stream(sys.sessions[sid].yielded)) == sys.sessions[sid].yielded
  {
    var items := sys.sessions[sid].yielded;
    forall k | 0 <= k < |items| ensures '\n' !in items[k] && '\r' !in items[k] {
      if items[k] != "" {
        var j :| 0 <= j < |sys.published| && sys.published[j] == items[k];
      }
    }
    EventStream.DecodeStream(items);
  }
}
