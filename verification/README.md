# Server-sent-events broadcast of the cartoonify image server, in Dafny

The Flask app in `app.py` tells every open browser when an uploaded image
has been processed. Each `/stream` connection runs the `receive()`
generator. It puts a one-shot waiter (a gevent `AsyncResult`) on the global
`BROADCAST_QUEUE` and waits up to `KEEP_ALIVE_DELAY` seconds. It then yields
either the message set on the waiter or `''` as a heartbeat. After
`MAX_DURATION` seconds it stops. `broadcast(message)` takes every waiter off
the queue without blocking and sets each one to the message. `event_stream`
frames every yielded item as a server-sent event (section 9.2 of the WHATWG
HTML Living Standard). Next to this sit two small helpers. `safe_addr`
hides the end of the client address. The home page keeps the `MAX_IMAGES`
newest files and unlinks the rest.

The project models these pieces with immutable values and pure step functions:

- `rendezvous.dfy`, module `Rendezvous`: the queue (`seq<WaiterId>`) and the
  waiters' slots (`map<WaiterId, Option<string>>`). It has the draining loop
  and `broadcast` as methods with loop invariants, and `Publish` as their pure
  counterpart.
- `receiver.dfy`, module `Receiver`: one `receive()` generator as a state
  machine. Its state is `tmp`, `now`, `end`, where it is suspended, and what it
  has yielded. One loop iteration is split where the greenlet blocks:
  - `Arm`: the loop guard, plus registering a waiter only when `tmp` is empty.
  - `Resume`: the end of `get`. It yields the delivered value and clears `tmp`,
    or on a timeout yields `''` and keeps `tmp`. It then reads the clock.
- `server.dfy`, module `Server`: all connections sharing one queue. Gevent's
  interleaving becomes a schedule of events (`Open`, `Post`, `Arm`, `Resume`,
  `Close`), and a whole-system invariant holds in every reachable state.
- `eventstream.dfy`, module `EventStream`: the `data: …\n\n` framing. It
  includes the part of the standard's stream interpretation a browser applies
  to such a stream, with the round trip proved.
- `address.dfy`, module `Address`: `safe_addr`, using Python
  `split`/`join` semantics from `text.dfy` (module `Text`).
- `retention.dfy`, module `Retention`: the sort/keep/unlink selection over
  `(ctime, path)` pairs, under Python's tuple and string ordering.
- `wrappers.dfy` and `seqs.dfy`: `Option`, and facts about sequences without
  repeats.

Design decisions:

- Clock readings are inputs to the `Open` and `Resume` events. They stand for
  `time.time()` and are whole ticks.
- Whether `get` delivers or times out is decided by the waiter's slot when the
  session resumes. Broadcasts posted in between are the only thing that sets a
  slot.
- As in the code, a waiter is never taken off the queue when its session ends
  or is closed. It stays there until the next broadcast sets it and drops it
  (`Server.QueuedUntilPost`, `Server.ClosedWaiterStaysQueued`,
  `Server.ExpiredWaiterStaysQueued`).
- A message posted while a session is between iterations reaches no waiter of
  that session, so the session never yields it. Between iterations means the
  session has yielded a delivery and not yet registered its next waiter
  (`Server.MissedBetweenIterations`). The code behaves this way; the model
  keeps it.

## Model

| member | source | states |
|---|---|---|
| Rendezvous.Register | app.py:125-127 | putting a newly created waiter appends exactly it to the queue, pending, adds no other waiter, and leaves every existing waiter's state alone |
| Rendezvous.RegisterKeepsValid | app.py:125-127 | putting a fresh waiter keeps the queue free of repeats, and keeps "queued exactly while pending" |
| Rendezvous.Fulfil | app.py:111-112 | after `set(msg)` on each listed waiter, those hold exactly `msg`, every other waiter is unchanged and no other waiter appears |
| Rendezvous.Publish | app.py:102-112 | after a broadcast the queue is empty, every waiter that was queued holds the message, and waiters that were not queued are untouched |
| Rendezvous.Drain | app.py:104-109 | the non-blocking `get` loop returns the queue's waiters in queue order and leaves the queue empty, without touching any waiter |
| Rendezvous.Broadcast | app.py:102-112 | `set` is called on exactly the waiters that were queued, in order, and the resulting queue and waiters are those of `Publish` |
| Rendezvous.PublishToNobody | app.py:104-112 | a broadcast with nobody waiting has no effect at all |
| Rendezvous.BroadcastSetsEachOnce | app.py:104-112 | on a valid queue every queued waiter is `set` exactly once, no other waiter is `set`, and each set waiter was still pending |
| Rendezvous.PublishKeepsValid | app.py:102-112 | a broadcast keeps the queue valid and leaves no waiter pending |
| Receiver.Open | app.py:119-121 | a session starts live, with no waiter and nothing yielded, and its deadline is `MAX_DURATION` after its first clock reading |
| Receiver.Wait | app.py:129-131 | `tmp.get` delivers exactly when the waiter was set, and then delivers the value it was set to; otherwise it times out |
| Receiver.Arm | app.py:124-127 | passing the loop guard registers a new waiter only when `tmp` is empty; a waiter kept from a timeout is reused with the queue unchanged |
| Receiver.Resume | app.py:128-133 | one wait yields exactly one item: the delivered message with `tmp` cleared, or `''` on a timeout with the same `tmp`; then the clock is read |
| Receiver.Close | app.py:159-169 | closing the generator on a disconnect finishes the session and leaves its waiter and output as they were; the model also allows a close during a wait, which the server only notices at a `yield` |
| Server.Step | app.py:102-133 | one uninterrupted piece of a greenlet's work: a connection opening, a broadcast, a session registering or reusing its waiter and blocking, a wait ending, or a disconnect; an event whose greenlet cannot take it changes nothing. Its properties are stated by `Server.StepFrame`, `Server.StepKeepsInv` and the lemmas below |
| Server.StepFrame | app.py:102-133 | an event of one session leaves every other session alone, only a broadcast sets a waiter, and sessions, waiters, identities and the broadcast history only grow |
| Server.RunFrame | app.py:102-133 | over a whole schedule no session disappears, a session no event names is left exactly as it was, and broadcasts are only appended to the history |
| Server.StepKeepsInv | app.py:102-133 | every step of every connection or broadcast keeps the invariant: the queue is valid, waiter ids are fresh, each queued waiter is its owner's current waiter, and yields are heartbeats or published messages |
| Server.RunKeepsInv | app.py:102-133 | every schedule of events keeps that invariant |
| Server.OneQueuedWaiterPerSession | app.py:125-127 | under the invariant no two queued waiters belong to the same session |
| Server.ReachableOneQueuedWaiter | app.py:119-133 | in every state reachable from start-up each session has at most one waiter on the queue |
| Server.ArmRegistersOnlyWithoutWaiter | app.py:125-127 | a session with no waiter has none queued and enqueues exactly one new id; a session holding a waiter enqueues nothing and keeps that waiter |
| Server.ResumeYieldsOneItem | app.py:128-132 | each resumption adds exactly one item. A set waiter yields its published message, clears `tmp` and leaves no queued waiter of the session. A pending waiter yields `''` and stays current and queued |
| Server.DoneIsFinal | app.py:124 | a session whose loop has exited (`now >= end`) or that was closed yields nothing more under any later events |
| Server.QueuedUntilPost | app.py:102-133 | a queued waiter stays queued and pending through any schedule without a broadcast: only `broadcast` takes waiters off the queue |
| Server.ClosedWaiterStaysQueued | app.py:124-133 | the pending waiter of a session closed while that waiter is pending stays on the queue, pending, through any schedule without a broadcast, while the session stays finished; the next broadcast sets it and empties the queue |
| Server.ExpiredWaiterStaysQueued | app.py:124-133 | a session whose wait times out at or after its deadline leaves the loop with its waiter still queued and pending, through any schedule without a broadcast, until the next broadcast sets it |
| Server.PostReachesWaitingSession | app.py:102-133 | a session blocked on a pending waiter yields exactly the next posted message when it resumes, and lets go of the waiter |
| Server.RunKeepsYieldsBounded | app.py:119-133 | with a clock advancing by at least one tick per iteration, a session never has more yields than ticks since it started, nor more than `MAX_DURATION` |
| Server.SessionsTerminate | app.py:119-124 | from start-up, with an advancing clock, every session yields at most `MAX_DURATION` items in any schedule, so its loop ends |
| Server.TwoSessionsGetTheMessage | app.py:102-133 | two sessions opened at time 0 and waiting when a message is posted both yield that message and the queue is left empty |
| Server.HeartbeatKeepsTheWaiter | app.py:125-132 | after a timeout the session yields `''` and its next iteration reuses its waiter: the queue still holds one entry |
| Server.PostWhileUnarmedIsMissed | app.py:124-133 | in any reachable state, whatever other sessions have queued, a message posted while a live session sits at its loop head holding no waiter is not yielded by it: its next wait is on a fresh waiter and times out |
| Server.MissedBetweenIterations | app.py:124-133 | in any reachable state, a session whose waiter holds `m1` resumes before its deadline and yields `m1`; a message `m2` posted before its next wait is not yielded, and that wait ends in a heartbeat |
| Server.DeliveryLeavesUnarmed | app.py:128-133 | a delivery before the deadline yields the waiter's message and leaves the session live at its loop head with no waiter, keeping the invariant |
| Server.MissedBetweenIterationsExample | app.py:115-133 | from start-up, a session that receives `m1` at time 1 yields `m1` and then a heartbeat when `m2` is posted before its next wait |
| Server.ClientSeesYielded | app.py:163-164 | if published messages contain neither LF nor CR, a client decodes from a session's stream exactly the items it yielded |
| EventStream.Frame | app.py:164 | an item is written as `data: `, the item, and a blank line; `EventStream.DecodeStream` shows a client reads each frame back as one event |
| EventStream.Stream | app.py:163-164 | everything a session writes: the frames of its yielded items, in order |
| EventStream.Decode | app.py:163-164 | the client's interpretation of the stream (section 9.2 of the WHATWG HTML Living Standard, for LF line ends): the data of every dispatched event, in order; its partner is `EventStream.DecodeStream` |
| EventStream.DecodeStream | app.py:163-164 | for items without LF or CR, decoding the concatenated `data: item` frames gives back exactly the items, one event each, in order |
| EventStream.HeartbeatFrame | app.py:164 | a heartbeat is written as exactly `data: ` followed by a blank line |
| EventStream.Shown | app.py:276-278 | the page acts on exactly the non-empty events it receives, each as often as it arrives (equal multisets once empty data is removed) |
| EventStream.ShownAppend | app.py:276-278 | the page handles events in arrival order: what it shows for two parts of a stream is what it shows for the first followed by the second |
| EventStream.ShownOne | app.py:276-278 | a single event is shown exactly when its data is not empty |
| EventStream.HeartbeatsShowNothing | app.py:276-278 | a stream of heartbeats only makes the page show nothing |
| Text.Split | app.py:138 | `split('.')` yields at least one field, no field holds the separator, and there is exactly one field iff there is no separator |
| Text.Join | app.py:138 | `sep.join(parts)`: the parts with one separator between neighbours; its partners are `Text.JoinSplit` and `Text.SplitJoin` |
| Text.JoinSplit | app.py:138 | joining the fields of a split gives back the original string |
| Text.SplitJoin | app.py:138 | splitting a join of separator-free fields gives back exactly those fields |
| Address.FirstTwo | app.py:138 | the slice `[:2]` is the prefix of length two, or the whole list when it is shorter |
| Address.SafeAddr | app.py:136-138 | `'.'.join(ip_addr.split('.')[:2] + ['xxx', 'xxx'])`; what it promises is stated by the four lemmas below |
| Address.SafeAddrFields | app.py:136-138 | the fields of the redacted address are the input's first two fields (one if it has no `.`) and then `xxx`, `xxx`: no later field appears |
| Address.SafeAddrKeepsPrefix | app.py:136-138 | the redacted address is a prefix of the input cut at a `.` or at its end, followed by `.xxx.xxx` |
| Address.SafeAddrIdempotent | app.py:136-138 | redacting an address that contains a `.` twice gives the same result as once |
| Address.SafeAddrWithoutDot | app.py:136-138 | an address without `.` becomes `ip.xxx.xxx`, and redacting again appends another `.xxx`, so idempotence needs a `.` |
| Retention.EntryLeTotal | app.py:208 | any two `(ctime, path)` tuples are comparable under Python's tuple ordering |
| Retention.EntryLeTransitive | app.py:208 | Python's ordering of `(ctime, path)` tuples is transitive |
| Retention.EntryLeAntisymmetric | app.py:208 | two tuples ordered both ways are equal, so the descending order is unique |
| Retention.Insert | app.py:208 | inserting into a newest-first list keeps it newest-first and adds exactly that entry |
| Retention.SortDescending | app.py:208 | `sorted(..., reverse=True)` returns a permutation of the input in descending `(ctime, path)` order |
| Retention.Retain | app.py:207-213 | the kept list has `min(n, MAX_IMAGES)` entries. Kept and unlinked together are a permutation of the input, in descending order, and every unlinked entry is older than every kept one |
| Retention.RetainIgnoresListingOrder | app.py:201-208 | what is kept and what is unlinked does not depend on the order the directory listing returned |
| Retention.RetainIsStable | app.py:207-211 | selecting again from the kept entries keeps all of them and unlinks nothing |
| Retention.RetainDisjoint | app.py:201-213 | when paths are distinct, no path is both kept and unlinked |

## Left out

- `better_cartoonify` and `save_normalized_image` (app.py:23-80, 141-156): image processing through OpenCV and PIL, foreign library calls on pixel data.
- The `/post` route (app.py:172-187): request handling, `sha1` naming and `json.dumps`. A message is an opaque string that the `Post` event carries. The route's error replies are left out too.
- The `/stream` and `/` routes as HTTP responses, `access_route`, and the HTML, CSS and script of the page (app.py:190-343). Two parts of it are kept: the retention selection of `home` (app.py:200-213), as `Retention.Retain`, and the page's rule to ignore empty event data (app.py:276-278), as `EventStream.Shown`.
- Filesystem work: resetting the data directory at start-up (app.py:95-99), and `os.listdir`, `os.stat`, `S_ISREG` and `os.unlink` in `home` (app.py:201-210). `Retention.Retain` takes the `(ctime, path)` pairs and returns the lists to show and to unlink.
- The `print` diagnostics in `broadcast` and `event_stream` (app.py:110, 165-169).
- gevent itself: greenlets, blocking and the `Timeout` exception become a schedule of events. The model does not require that a timed-out `Resume` comes `KEEP_ALIVE_DELAY` seconds after its `Arm`, because the clock reading is an input. Heartbeat spacing is therefore not stated.
- `time.time()` returns a float. The model reads whole ticks, and clock readings are not required to be monotone.
- Server.SessionsTerminate: stated only for schedules whose clock advances by at least one tick per iteration. With an arbitrary float clock, the source's loop need not end either.
- Receiver.Resume: yielding and clearing `tmp` after a delivery are one step. In the source, `tmp = None` runs after the consumer resumes the generator, and a disconnect at that `yield` ends the session anyway.
- EventStream.Decode: it interprets only what a session writes: LF line ends, comments, `data` fields and dispatch on a blank line. The standard's CR and CRLF line ends, the byte-order mark, and the `event`, `id` and `retry` fields are not modelled. The round trip therefore requires items free of CR as well as LF, so no line end a real client would see occurs inside an item.
- Several waiter ids for one `AsyncResult` object cannot happen. Each `AsyncResult()` is a new object, which the model renders as the counter `nextId`.
- A session never takes its pending waiter off the queue when it ends, and a message posted while a session is between two waits never reaches it. The model keeps both (see `Server.ClosedWaiterStaysQueued`, `Server.ExpiredWaiterStaysQueued` and `Server.MissedBetweenIterations`).
- The constants `DATA_DIR` and `MAX_IMAGE_SIZE` (app.py:85, 87) belong to the left-out file handling. `KEEP_ALIVE_DELAY` appears only in `Server.HeartbeatKeepsTheWaiter`, as a clock reading.
