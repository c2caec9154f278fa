/** The write-behind strategy: updates are queued, batched and written to the database by a
    worker, which drains the queue when it is told to stop. */
module WriteBehind {
  import opened Wrappers

  datatype User = User(id: string, name: string)
  type Table = map<string, string>

  /** A bulk write: one insert-or-replace per user, in order. */
  function Apply(db: Table, users: seq<User>): Table
    decreases |users|
  {
    if users == [] then db else Apply(db[users[0].id := users[0].name], users[1..])
  }

  lemma {:induction false} ApplyConcat(db: Table, a: seq<User>, b: seq<User>)
    ensures Apply(db, a + b) == Apply(Apply(db, a), b)
    decreases |a|
  {
    if a == [] {
      assert a + b == b;
    } else {
      assert (a + b)[1..] == a[1..] + b;
      ApplyConcat(db[a[0].id := a[0].name], a[1..], b);
    }
  }

  /** A bulk write overlays the table with what it would write into an empty one. */
  lemma {:induction false} ApplyIsOverlay(db: Table, users: seq<User>)
    ensures Apply(db, users) == db + Apply(map[], users)
    decreases |users|
  {
    if users != [] {
      var u := users[0];
      ApplyIsOverlay(db[u.id := u.name], users[1..]);
      ApplyIsOverlay(map[u.id := u.name], users[1..]);
    }
  }

  /** Replaying a batch, with or without more behind it, gives what writing it once gives. */
  lemma ReplayIsHarmless(db: Table, batch: seq<User>, more: seq<User>)
    ensures Apply(Apply(db, batch), batch + more) == Apply(db, batch + more)
  {
    ApplyConcat(Apply(db, batch), batch, more);
    ApplyConcat(db, batch, more);
    ApplyIsOverlay(db, batch);
    ApplyIsOverlay(Apply(db, batch), batch);
    assert db + Apply(map[], batch) + Apply(map[], batch) == db + Apply(map[], batch);
  }

  // ---- What a bulk write leaves for one user ----

  function Lookup(db: Table, id: string): Option<string> {
    if id in db then Some(db[id]) else None
  }

  /** The name in the last update of a user. */
  function LastUpdate(users: seq<User>, id: string): Option<string> {
    if users == [] then None
    else
      var u := users[|users| - 1];
      if u.id == id then Some(u.name) else LastUpdate(users[..|users| - 1], id)
  }

  /** A bulk write leaves every user's last update, and all other users as they were. */
  lemma {:induction false} ApplyGivesLastUpdate(db: Table, users: seq<User>, id: string)
    ensures Lookup(Apply(db, users), id) ==
            if LastUpdate(users, id).Some? then LastUpdate(users, id) else Lookup(db, id)
    decreases |users|
  {
    if users != [] {
      var before, u := users[..|users| - 1], users[|users| - 1];
      assert users == before + [u];
      ApplyConcat(db, before, [u]);
      ApplyGivesLastUpdate(db, before, id);
    }
  }

  lemma SameLookups(a: Table, b: Table)
    requires forall id :: Lookup(a, id) == Lookup(b, id)
    ensures a == b
  {
    forall id | id in a || id in b
      ensures id in a && id in b && a[id] == b[id]
    {
      assert Lookup(a, id) == Lookup(b, id);
    }
  }

  /** Each of the updates is the last of several, or followed by a later update of the same
      user, or in the table already. */
  ghost predicate AddNothing(db: Table, users: seq<User>, later: seq<User>) {
    forall id | LastUpdate(users, id).Some? ::
      LastUpdate(later, id).Some? || LastUpdate(users, id) == Lookup(db, id)
  }

  lemma AddNothingExactly(db: Table, users: seq<User>, later: seq<User>)
    ensures Apply(db, users + later) == Apply(db, later) <==> AddNothing(db, users, later)
  {
    ApplyConcat(db, users, later);
    forall id
      ensures Lookup(Apply(db, users + later), id) == Lookup(Apply(db, later), id) <==>
              (LastUpdate(users, id).Some? ==>
                 LastUpdate(later, id).Some? || LastUpdate(users, id) == Lookup(db, id))
    {
      ApplyGivesLastUpdate(Apply(db, users), later, id);
      ApplyGivesLastUpdate(db, users, id);
      ApplyGivesLastUpdate(db, later, id);
    }
    if AddNothing(db, users, later) {
      SameLookups(Apply(db, users + later), Apply(db, later));
    }
  }

  // ---- The worker and its clients as steps ----

  /** Where the worker is: in its select, about to flush a full batch, about to flush on
      shutdown, draining, about to flush a full batch while draining, before the final
      flush, returned. */
  datatype Phase = Listening | BatchFull | ShuttingDown | Draining | DrainFull | LastFlush | Done

  datatype State = State(db: Table, queue: seq<User>, batch: seq<User>, phase: Phase,
                         cancelled: bool, accepted: seq<User>, late: bool)

  const DEFAULT_QUEUE_SIZE := 100
  const DEFAULT_BATCH_SIZE := 10

  /** The queue's capacity and the batch size, after New has replaced what is not positive. */
  datatype Config = Config(queueSize: nat, batchSize: nat) {
    predicate Valid() { queueSize > 0 && batchSize > 0 }
  }

  /** What New makes of the configured sizes. */
  function NewConfig(queueSize: int, batchSize: int): (c: Config)
    ensures c.Valid()
    ensures c.queueSize == queueSize || (queueSize <= 0 && c.queueSize == DEFAULT_QUEUE_SIZE)
    ensures c.batchSize == batchSize || (batchSize <= 0 && c.batchSize == DEFAULT_BATCH_SIZE)
  {
    Config(if queueSize <= 0 then DEFAULT_QUEUE_SIZE else queueSize,
           if batchSize <= 0 then DEFAULT_BATCH_SIZE else batchSize)
  }

  /** `Enqueue` is the send of UpdateUser; `ok` says whether the bulk write succeeds. */
  datatype Event =
    | Enqueue(user: User)
    | Cancel
    | SeeCancel
    | Receive
    | Flush(ok: bool)
    | Tick(ok: bool)
    | QueueEmpty

  function Init(db: Table): State {
    State(db, [], [], Listening, false, [], false)
  }

  predicate Enabled(s: State, e: Event) {
    match e
    case Enqueue(_) => true
    case Cancel => true
    case SeeCancel => s.phase == Listening && s.cancelled
    case Receive => (s.phase == Listening || s.phase == Draining) && s.queue != []
    case Flush(_) => s.phase in {BatchFull, ShuttingDown, DrainFull, LastFlush}
    case Tick(_) => s.phase == Listening
    case QueueEmpty => s.phase == Draining && s.queue == []
  }

  /** The database after a bulk write that succeeds or leaves it alone. */
  function Written(db: Table, batch: seq<User>, ok: bool): Table {
    if ok then Apply(db, batch) else db
  }

  function Step(c: Config, s: State, e: Event): State
    requires Enabled(s, e)
  {
    match e
    case Enqueue(user) =>
      if |s.queue| < c.queueSize
      then s.(queue := s.queue + [user], accepted := s.accepted + [user], late := s.late || s.cancelled)
      else s
    case Cancel => s.(cancelled := true)
    case SeeCancel => s.(phase := ShuttingDown)
    case Receive =>
      var batch := s.batch + [s.queue[0]];
      var full := |batch| >= c.batchSize;
      s.(batch := batch, queue := s.queue[1..],
      phase := if !full then s.phase else if s.phase == Listening then BatchFull else DrainFull)
    case Flush(ok) =>
      var db := Written(s.db, s.batch, ok);
      (match s.phase
       case BatchFull => s.(db := db, batch := [], phase := Listening)
       case ShuttingDown => s.(db := db, phase := Draining)
       case DrainFull => s.(db := db, batch := [], phase := Draining)
       case _ => s.(db := db, batch := [], phase := Done))
    case Tick(ok) => s.(db := Written(s.db, s.batch, ok), batch := [])
    case QueueEmpty => s.(phase := LastFlush)
  }

  /** The database overlaid with the batch and then the queue. */
  function Seen(s: State): Table {
    Apply(s.db, s.batch + s.queue)
  }

  /** What the worker has received so far, when the queue holds what was accepted last. */
  function Received(s: State): seq<User>
    requires |s.queue| <= |s.accepted|
  {
    s.accepted[..|s.accepted| - |s.queue|]
  }

  ghost predicate Inv(db0: Table, s: State) {
    && |s.queue| <= |s.accepted| && s.accepted == Received(s) + s.queue
    && Apply(s.db, s.batch) == Apply(db0, Received(s))
    && (s.phase == Done ==> s.batch == [])
    && (s.phase in {ShuttingDown, Draining, DrainFull, LastFlush, Done} ==> s.cancelled)
    && (s.phase in {LastFlush, Done} && !s.late ==> s.queue == [])
  }

  predicate Succeeds(e: Event) {
    match e
    case Flush(ok) => ok
    case Tick(ok) => ok
    case _ => true
  }

  lemma ReceivedIs(s: State, received: seq<User>)
    requires s.accepted == received + s.queue
    ensures |s.queue| <= |s.accepted| && Received(s) == received
  {
  }

  /** The worker receives from the front of the queue, what was accepted first. */
  lemma StepReceives(c: Config, s: State, e: Event)
    requires |s.queue| <= |s.accepted| && s.accepted == Received(s) + s.queue && Enabled(s, e)
    ensures var s' := Step(c, s, e);
            && |s'.queue| <= |s'.accepted| && s'.accepted == Received(s') + s'.queue
            && Received(s') == Received(s) + if e.Receive? then [s.queue[0]] else []
  {
    hide Apply, Received;
    var s', received := Step(c, s, e), Received(s);
    if e.Receive? {
      assert s.queue == [s.queue[0]] + s'.queue;
      ReceivedIs(s', received + [s.queue[0]]);
    } else {
      if e.Enqueue? && s' != s {
        assert s'.accepted == received + (s.queue + [e.user]);
      }
      ReceivedIs(s', received);
      assert received + [] == received;
    }
  }

  lemma StepKeepsInv(c: Config, db0: Table, s: State, e: Event)
    requires Inv(db0, s) && Enabled(s, e) && Succeeds(e)
    ensures Inv(db0, Step(c, s, e))
  {
    hide Apply, Received;
    StepReceives(c, s, e);
    if e.Receive? {
      ApplyConcat(s.db, s.batch, [s.queue[0]]);
      ApplyConcat(db0, Received(s), [s.queue[0]]);
    } else {
      assert Received(s) + [] == Received(s);
      WriteAgain(s.db, s.batch);
    }
  }

  lemma WriteAgain(db: Table, batch: seq<User>)
    ensures Apply(Apply(db, batch), batch) == Apply(db, batch) == Apply(Apply(db, batch), [])
  {
    ReplayIsHarmless(db, batch, []);
    assert batch + [] == batch;
  }

  ghost predicate Reaches(c: Config, s: State, events: seq<Event>, t: State)
    decreases |events|
  {
    if events == [] then s == t
    else Enabled(s, events[0]) && Reaches(c, Step(c, s, events[0]), events[1..], t)
  }

  lemma {:induction false} RunKeepsInv(c: Config, db0: Table, s: State, events: seq<Event>, t: State)
    requires Inv(db0, s) && Reaches(c, s, events, t)
    requires forall e <- events :: Succeeds(e)
    ensures Inv(db0, t)
    decreases |events|
  {
    if events != [] {
      StepKeepsInv(c, db0, s, events[0]);
      RunKeepsInv(c, db0, Step(c, s, events[0]), events[1..], t);
    }
  }

  // ---- Which updates are accepted ----

  function Receives(events: seq<Event>): nat {
    if events == [] then 0
    else Receives(events[..|events| - 1]) + if events[|events| - 1].Receive? then 1 else 0
  }

  /** The users of those updates at whose turn fewer than `size` of the accepted ones had not
      been received yet. */
  function Accepted(size: nat, events: seq<Event>): seq<User> {
    if events == [] then []
    else
      var before, e := events[..|events| - 1], events[|events| - 1];
      if e.Enqueue? && |Accepted(size, before)| - Receives(before) < size
      then Accepted(size, before) + [e.user]
      else Accepted(size, before)
  }

  /** The k-th event is an update that is accepted after cancellation. */
  ghost predicate AcceptedLate(size: nat, events: seq<Event>, k: int) {
    && 0 <= k < |events| && events[k].Enqueue? && Cancel in events[..k]
    && |Accepted(size, events[..k + 1])| > |Accepted(size, events[..k])|
  }

  lemma {:induction false} LastStep(c: Config, s: State, events: seq<Event>, t: State) returns (m: State)
    requires Reaches(c, s, events, t) && events != []
    ensures Reaches(c, s, events[..|events| - 1], m) && Enabled(m, events[|events| - 1])
    ensures t == Step(c, m, events[|events| - 1])
    decreases |events|
  {
    if |events| == 1 {
      m := s;
    } else {
      m := LastStep(c, Step(c, s, events[0]), events[1..], t);
      assert events[1..][..|events| - 2] == events[..|events| - 1][1..];
    }
  }

  /** One step in a state in which `received` of the accepted updates have been received. */
  lemma StepAccepts(c: Config, s: State, e: Event, received: nat)
    requires Enabled(s, e) && received <= |s.accepted| && s.queue == s.accepted[received..]
    ensures var s', room := Step(c, s, e), |s.accepted| - received < c.queueSize;
            && s'.accepted == (if e.Enqueue? && room then s.accepted + [e.user] else s.accepted)
            && s'.queue == s'.accepted[if e.Receive? then received + 1 else received..]
            && (s'.cancelled <==> s.cancelled || e.Cancel?)
            && (s'.late <==> s.late || (e.Enqueue? && room && s.cancelled))
  {
    hide Written;
    if e.Enqueue? {
      assert (s.accepted + [e.user])[received..] == s.queue + [e.user];
    } else if e.Receive? {
      assert s.queue[1..] == s.accepted[received + 1..];
    }
  }

  /** Over every run, whether the bulk writes succeed or not, an update is accepted exactly
      when the queue has room, and the queue holds, in order, what is accepted and not yet
      received. */
  lemma {:induction false} AcceptedExactly(c: Config, db0: Table, events: seq<Event>, t: State)
    requires Reaches(c, Init(db0), events, t)
    ensures t.accepted == Accepted(c.queueSize, events)
    ensures Receives(events) <= |t.accepted| && t.queue == t.accepted[Receives(events)..]
    decreases |events|
  {
    hide Step, Enabled, Reaches;
    if events == [] {
      NothingYet(c, db0, t);
    } else {
      var before := events[..|events| - 1];
      var m := LastStep(c, Init(db0), events, t);
      AcceptedExactly(c, db0, before, m);
      StepAccepts(c, m, events[|events| - 1], Receives(before));
    }
  }

  /** `late` tells whether an update has been accepted after cancellation. */
  lemma {:induction false} LateExactly(c: Config, db0: Table, events: seq<Event>, t: State)
    requires Reaches(c, Init(db0), events, t)
    ensures t.cancelled <==> Cancel in events
    ensures t.late <==> exists k :: AcceptedLate(c.queueSize, events, k)
    decreases |events|
  {
    hide Step, Enabled, Reaches, AcceptedLate, Accepted, Receives;
    if events == [] {
      NothingYet(c, db0, t);
    } else {
      var before, e := events[..|events| - 1], events[|events| - 1];
      var m := LastStep(c, Init(db0), events, t);
      LateExactly(c, db0, before, m);
      AcceptedExactly(c, db0, before, m);
      StepAccepts(c, m, e, Receives(before));
      LateIsBeforeOrLast(c.queueSize, before, e);
      assert events == before + [e];
    }
  }

  lemma NothingYet(c: Config, db0: Table, t: State)
    requires Reaches(c, Init(db0), [], t)
    ensures t.accepted == t.queue == [] && !t.cancelled && !t.late
    ensures forall k :: !AcceptedLate(c.queueSize, [], k)
  {
  }

  lemma LateIsBeforeOrLast(size: nat, before: seq<Event>, e: Event)
    ensures (exists k :: AcceptedLate(size, before + [e], k)) <==>
            (exists k :: AcceptedLate(size, before, k)) ||
            (e.Enqueue? && Cancel in before && |Accepted(size, before)| - Receives(before) < size)
  {
    var all := before + [e];
    assert all[..|before|] == before && all[..|before| + 1] == all;
    forall k | 0 <= k < |before|
      ensures AcceptedLate(size, all, k) <==> AcceptedLate(size, before, k)
    {
      assert all[..k] == before[..k] && all[..k + 1] == before[..k + 1];
    }
    assert AcceptedLate(size, all, |before|) <==>
           e.Enqueue? && Cancel in before && |Accepted(size, before)| - Receives(before) < size;
  }

  lemma InitIsInv(db0: Table)
    ensures Inv(db0, Init(db0))
  {
  }

  lemma ApplyNone(db: Table)
    ensures Apply(db, []) == db
  {
  }

  /** Whenever every bulk write has succeeded, nothing accepted is out of sight: the
      database overlaid with the batch and then the queue shows for every user the last
      accepted update, or what the database held at first. */
  lemma NothingIsLost(c: Config, db0: Table, events: seq<Event>, t: State)
    requires Reaches(c, Init(db0), events, t) && forall e <- events :: Succeeds(e)
    ensures Seen(t) == Apply(db0, t.accepted)
    ensures forall id :: Lookup(Seen(t), id) ==
                         if LastUpdate(t.accepted, id).Some? then LastUpdate(t.accepted, id) else Lookup(db0, id)
  {
    hide Apply, Reaches, Step, LastUpdate;
    InitIsInv(db0);
    RunKeepsInv(c, db0, Init(db0), events, t);
    ApplyConcat(t.db, t.batch, t.queue);
    ApplyConcat(db0, Received(t), t.queue);
    forall id {
      ApplyGivesLastUpdate(db0, t.accepted, id);
    }
  }

  /** After a bulk write that succeeds, the database alone holds everything the worker has
      received, and the batch starts anew, except on the first write of the shutdown. */
  lemma WriteIsComplete(c: Config, db0: Table, events: seq<Event>, s: State, e: Event)
    requires Reaches(c, Init(db0), events, s) && forall e <- events :: Succeeds(e)
    requires Enabled(s, e) && e in {Flush(true), Tick(true)}
    ensures Receives(events) <= |s.accepted|
    ensures Step(c, s, e).db == Apply(db0, s.accepted[..Receives(events)])
    ensures Step(c, s, e).batch == if s.phase == ShuttingDown then s.batch else []
  {
    hide Apply, Reaches;
    InitIsInv(db0);
    RunKeepsInv(c, db0, Init(db0), events, s);
    AcceptedExactly(c, db0, events, s);
    assert Received(s) == s.accepted[..Receives(events)];
  }

  /** After the drain has found the queue empty, what is accepted stays in the queue. */
  lemma {:induction false} NothingIsReceivedAfterDrain(c: Config, s: State, events: seq<Event>, t: State, seen: seq<User>)
    requires s.phase in {LastFlush, Done} && s.accepted == seen + s.queue && Reaches(c, s, events, t)
    ensures t.accepted == seen + t.queue
    decreases |events|
  {
    if events != [] {
      NothingIsReceivedAfterDrain(c, Step(c, s, events[0]), events[1..], t, seen);
    }
  }

  /** When Stop returns, the database holds the updates accepted before the drain found the
      queue empty, those accepted later are still queued, and the database is complete if
      and only if they add nothing to it. */
  lemma StopExactly(c: Config, db0: Table, before: seq<Event>, s: State, after: seq<Event>, t: State)
    requires Reaches(c, Init(db0), before, s) && Enabled(s, QueueEmpty)
    requires Reaches(c, Step(c, s, QueueEmpty), after, t) && t.phase == Done
    requires forall e <- before + after :: Succeeds(e)
    ensures t.db == Apply(db0, s.accepted) && t.accepted == s.accepted + t.queue
    ensures t.db == Apply(db0, t.accepted) <==> AddNothing(Apply(db0, s.accepted), t.queue, [])
  {
    hide Apply, Reaches, AddNothing;
    InitIsInv(db0);
    assert forall e <- before :: e in before + after;
    assert forall e <- after :: e in before + after;
    RunKeepsInv(c, db0, Init(db0), before, s);
    var s' := Step(c, s, QueueEmpty);
    StepKeepsInv(c, db0, s, QueueEmpty);
    RunKeepsInv(c, db0, s', after, t);
    NothingIsReceivedAfterDrain(c, s', after, t, s.accepted);
    assert Received(t) == s.accepted;
    ApplyNone(t.db);
    ApplyConcat(db0, s.accepted, t.queue);
    AddNothingExactly(t.db, t.queue, []);
    assert t.queue + [] == t.queue;
  }

  /** Every run to the worker's return passes through the moment at which the drain finds
      the queue empty. */
  lemma {:induction false} EveryStopDrains(c: Config, s: State, events: seq<Event>, t: State)
    requires s.phase !in {LastFlush, Done} && Reaches(c, s, events, t) && t.phase == Done
    ensures exists k, m :: DrainsAt(c, s, events, t, k, m)
    decreases |events|
  {
    var s1 := Step(c, s, events[0]);
    if events[0].QueueEmpty? {
      assert DrainsAt(c, s, events, t, 0, s);
    } else {
      EveryStopDrains(c, s1, events[1..], t);
      var k, m :| DrainsAt(c, s1, events[1..], t, k, m);
      assert events[..k + 1][1..] == events[1..][..k] && events[k + 2..] == events[1..][k + 1..];
      assert DrainsAt(c, s, events, t, k + 1, m);
    }
  }

  /** The k-th event of the run is the end of the drain, in state m. */
  ghost predicate DrainsAt(c: Config, s: State, events: seq<Event>, t: State, k: int, m: State) {
    && 0 <= k < |events| && events[k] == QueueEmpty
    && Reaches(c, s, events[..k], m) && Enabled(m, QueueEmpty)
    && Reaches(c, Step(c, m, QueueEmpty), events[k + 1..], t)
  }

  /** When Stop returns, every update accepted before some moment of the drain is in the
      database, and every update is if none was accepted after cancellation. */
  lemma StopFlushesAll(c: Config, db0: Table, events: seq<Event>, t: State)
    requires Reaches(c, Init(db0), events, t) && forall e <- events :: Succeeds(e)
    requires t.phase == Done
    ensures exists k, m :: DrainsAt(c, Init(db0), events, t, k, m) && t.db == Apply(db0, m.accepted)
                           && t.accepted == m.accepted + t.queue
    ensures (forall k :: !AcceptedLate(c.queueSize, events, k)) ==> t.queue == [] && t.db == Apply(db0, t.accepted)
  {
    hide Apply, Reaches, Step, Enabled, Received, AcceptedLate;
    LateExactly(c, db0, events, t);
    InitIsInv(db0);
    EveryStopDrains(c, Init(db0), events, t);
    var k, m :| DrainsAt(c, Init(db0), events, t, k, m);
    StopExactly(c, db0, events[..k], m, events[k + 1..], t);
    RunKeepsInv(c, db0, Init(db0), events, t);
  }

  /** An update accepted after the drain has found the queue empty is never written. */
  lemma LateUpdateIsLost(c: Config, u: User)
    requires c.Valid()
    ensures exists events, t ::
              && Reaches(c, Init(map[]), events, t) && (forall e <- events :: Succeeds(e))
              && t.phase == Done && t.accepted == [u] && t.db == map[]
  {
    var s0 := Init(map[]);
    var s1 := Step(c, s0, Cancel);
    var s2 := Step(c, s1, SeeCancel);
    var s3 := Step(c, s2, Flush(true));
    var s4 := Step(c, s3, QueueEmpty);
    var s5 := Step(c, s4, Enqueue(u));
    var s6 := Step(c, s5, Flush(true));
    assert s6.phase == Done && s6.accepted == [u] && s6.db == map[];
    assert Reaches(c, s5, [Flush(true)], s6);
    ReachesCons(c, s4, Enqueue(u), [Flush(true)], s6);
    ReachesCons(c, s3, QueueEmpty, [Enqueue(u), Flush(true)], s6);
    ReachesCons(c, s2, Flush(true), [QueueEmpty, Enqueue(u), Flush(true)], s6);
    ReachesCons(c, s1, SeeCancel, [Flush(true), QueueEmpty, Enqueue(u), Flush(true)], s6);
    ReachesCons(c, s0, Cancel, [SeeCancel, Flush(true), QueueEmpty, Enqueue(u), Flush(true)], s6);
  }

  /** A bulk write that fails, as it does once its context is cancelled, loses its batch. */
  lemma FailedFlushIsLost(u: User)
    ensures exists events, t ::
              && Reaches(Config(1, 1), Init(map[]), events, t)
              && t.accepted == [u] && Seen(t) == map[]
  {
    var c := Config(1, 1);
    var s0 := Init(map[]);
    var s1 := Step(c, s0, Enqueue(u));
    var s2 := Step(c, s1, Receive);
    var s3 := Step(c, s2, Flush(false));
    assert s3.accepted == [u] && Seen(s3) == map[];
    assert Reaches(c, s3, [], s3);
    ReachesCons(c, s2, Flush(false), [], s3);
    ReachesCons(c, s1, Receive, [Flush(false)], s3);
    ReachesCons(c, s0, Enqueue(u), [Receive, Flush(false)], s3);
  }

  /** A bulk write that fails loses nothing from sight exactly when it is the first one of
      the shutdown, which keeps the batch, or when the batch adds nothing to what the
      database and the queue show. */
  lemma FailedFlush(c: Config, s: State)
    requires Enabled(s, Flush(false))
    ensures Seen(Step(c, s, Flush(false))) == Seen(s) <==>
            s.phase == ShuttingDown || AddNothing(s.db, s.batch, s.queue)
  {
    hide Apply, AddNothing;
    AddNothingExactly(s.db, s.batch, s.queue);
    assert [] + s.queue == s.queue;
  }

  /** The same for the periodic write. */
  lemma FailedTick(c: Config, s: State)
    requires Enabled(s, Tick(false))
    ensures Seen(Step(c, s, Tick(false))) == Seen(s) <==> AddNothing(s.db, s.batch, s.queue)
  {
    hide Apply, AddNothing;
    AddNothingExactly(s.db, s.batch, s.queue);
    assert [] + s.queue == s.queue;
  }

  lemma ReachesCons(c: Config, s: State, e: Event, rest: seq<Event>, t: State)
    requires Enabled(s, e) && Reaches(c, Step(c, s, e), rest, t)
    ensures Reaches(c, s, [e] + rest, t)
  {
  }

  /** Before every receive the batch has room for the received update. */
  ghost predicate BatchBounded(c: Config, s: State) {
    && |s.queue| <= c.queueSize
    && |s.batch| <= c.batchSize
    && (s.phase in {Listening, ShuttingDown, Draining} ==> |s.batch| < c.batchSize)
    && (s.phase in {BatchFull, DrainFull} ==> |s.batch| == c.batchSize)
  }

  /** The queue never exceeds its capacity, and a batch is flushed for being full exactly
      when it has the batch size. */
  lemma {:induction false} RunIsBounded(c: Config, s: State, events: seq<Event>, t: State)
    requires c.Valid() && BatchBounded(c, s) && Reaches(c, s, events, t)
    ensures BatchBounded(c, t)
    decreases |events|
  {
    if events != [] {
      RunIsBounded(c, Step(c, s, events[0]), events[1..], t);
    }
  }

  // ---- The worker comes to an end ----

  predicate IsWorkers(e: Event) { !e.Enqueue? && !e.Cancel? }

  /** How far the worker is from its end, but for what is queued. */
  function Rank(phase: Phase): nat {
    match phase
    case Done => 0
    case LastFlush => 1
    case Draining => 2
    case DrainFull => 3
    case ShuttingDown => 3
    case Listening => 4
    case BatchFull => 5
  }

  /** What a cancelled worker does next. */
  function NextEvent(s: State): Event {
    match s.phase
    case Listening => SeeCancel
    case Draining => if s.queue == [] then QueueEmpty else Receive
    case _ => Flush(true)
  }

  /** From wherever the worker is when Stop cancels it, it can go on to its end by itself,
      within two steps per queued update and five more. */
  lemma {:induction false} StopReturns(c: Config, s: State) returns (events: seq<Event>, t: State)
    requires s.cancelled
    ensures Reaches(c, s, events, t) && t.phase == Done && forall e <- events :: IsWorkers(e) && Succeeds(e)
    ensures |events| <= 2 * |s.queue| + Rank(s.phase)
    decreases 2 * |s.queue| + Rank(s.phase)
  {
    if s.phase == Done {
      return [], s;
    }
    var e, rest := NextEvent(s), [];
    rest, t := StopReturns(c, Step(c, s, e));
    events := [e] + rest;
    ReachesCons(c, s, e, rest, t);
  }

  /** Once it is shutting down, no run of its own steps is longer than that. */
  lemma {:induction false} ShutdownIsBounded(c: Config, s: State, events: seq<Event>, t: State)
    requires Reaches(c, s, events, t) && s.phase !in {Listening, BatchFull}
    requires forall e <- events :: IsWorkers(e)
    ensures |events| + 2 * |t.queue| + Rank(t.phase) <= 2 * |s.queue| + Rank(s.phase)
    decreases |events|
  {
    if events != [] {
      assert IsWorkers(events[0]) && forall e <- events[1..] :: e in events;
      ShutdownIsBounded(c, Step(c, s, events[0]), events[1..], t);
    }
  }

  // ---- The shutdown path ----

  /** What the drain and the final flush make of the database, from the n-th bulk write on. */
  function Drained(batchSize: nat, db: Table, batch: seq<User>, queue: seq<User>,
                   succeeds: nat -> bool, n: nat): Table
    decreases |queue|
  {
    if queue == [] then Written(db, batch, succeeds(n))
    else
      var batch', rest := batch + [queue[0]], queue[1..];
      if |batch'| < batchSize then Drained(batchSize, db, batch', rest, succeeds, n)
      else Drained(batchSize, Written(db, batch', succeeds(n)), [], rest, succeeds, n + 1)
  }

  /** If all bulk writes from here on succeed, every update is written as if once, in order. */
  lemma {:induction false} DrainedIsComplete(batchSize: nat, db: Table, batch: seq<User>, queue: seq<User>,
                                             succeeds: nat -> bool, n: nat)
    requires forall k: nat | n <= k :: succeeds(k)
    ensures Drained(batchSize, db, batch, queue, succeeds, n) == Apply(db, batch + queue)
    decreases |queue|
  {
    if queue == [] {
      assert batch + queue == batch;
    } else {
      var batch', rest := batch + [queue[0]], queue[1..];
      assert batch' + rest == batch + queue;
      if |batch'| < batchSize {
        DrainedIsComplete(batchSize, db, batch', rest, succeeds, n);
      } else {
        ApplyConcat(db, batch', rest);
        assert [] + rest == rest;
        DrainedIsComplete(batchSize, Apply(db, batch'), [], rest, succeeds, n + 1);
      }
    }
  }

  /** The drain's bulk writes, the n-th first. */
  function WriteBatches(db: Table, batches: seq<seq<User>>, succeeds: nat -> bool, n: nat): Table
    decreases |batches|
  {
    if batches == [] then db
    else WriteBatches(Written(db, batches[0], succeeds(n)), batches[1..], succeeds, n + 1)
  }

  function Flatten(batches: seq<seq<User>>): seq<User> {
    if batches == [] then [] else batches[0] + Flatten(batches[1..])
  }

  /** Whatever fails, the drain writes batch and queue in consecutive batches, all but the
      last of the batch size, and a write that fails loses its own batch and no other. */
  lemma {:induction false} DrainedInBatches(batchSize: nat, db: Table, batch: seq<User>, queue: seq<User>,
                                            succeeds: nat -> bool, n: nat) returns (batches: seq<seq<User>>)
    requires |batch| < batchSize
    ensures Flatten(batches) == batch + queue && batches != []
    ensures forall i | 0 <= i < |batches| - 1 :: |batches[i]| == batchSize
    ensures |batches[|batches| - 1]| < batchSize
    ensures Drained(batchSize, db, batch, queue, succeeds, n) == WriteBatches(db, batches, succeeds, n)
    decreases |queue|
  {
    if queue == [] {
      batches := [batch];
      assert Flatten([batch]) == batch + Flatten([]) == batch == batch + queue;
      assert WriteBatches(db, [batch], succeeds, n) == WriteBatches(Written(db, batch, succeeds(n)), [], succeeds, n + 1);
      return;
    }
    var batch', rest := batch + [queue[0]], queue[1..];
    assert batch' + rest == batch + queue;
    if |batch'| < batchSize {
      batches := DrainedInBatches(batchSize, db, batch', rest, succeeds, n);
    } else {
      var later := DrainedInBatches(batchSize, Written(db, batch', succeeds(n)), [], rest, succeeds, n + 1);
      batches := [batch'] + later;
      assert batches[1..] == later && [] + rest == rest;
    }
  }

  /** The worker's own state and the ends of the queue and the database it works on. */
  class Worker {
    const batchSize: nat
    var db: Table
    var queue: seq<User>
    var batch: seq<User>

    constructor (batchSize: nat)
      ensures this.batchSize == batchSize && db == map[] && queue == [] && batch == []
    {
      this.batchSize := batchSize;
      db, queue, batch := map[], [], [];
    }

    /** `ok` says whether the bulk write succeeds. */
    method FlushBatchToDB(ok: bool)
      modifies this`db
      ensures db == Written(old(db), batch, ok)
    {
      if |batch| == 0 {
        return;
      }
      if ok {
        db := Apply(db, batch);
      }
    }

    /** Flush, drain, flush: the first flush does not clear the batch, so its updates are
        written again, and may fail; when the others succeed the database ends up as if each
        update had been written once, in order. */
    method Shutdown(succeeds: nat -> bool)
      modifies this
      ensures queue == []
      ensures db == Drained(batchSize, Written(old(db), old(batch), succeeds(0)), old(batch), old(queue), succeeds, 1)
      ensures (forall n: nat | n > 0 :: succeeds(n)) ==> db == Apply(old(db), old(batch) + old(queue))
    {
      FlushBatchToDB(succeeds(0));
      ghost var end := Drained(batchSize, db, batch, queue, succeeds, 1);
      if forall n: nat | n > 0 :: succeeds(n) {
        DrainedIsComplete(batchSize, db, batch, queue, succeeds, 1);
        ReplayIsHarmless(old(db), batch, queue);
      }
      var n := 1;
      while queue != []
        invariant n > 0 && Drained(batchSize, db, batch, queue, succeeds, n) == end
        decreases |queue|
      {
        batch := batch + [queue[0]];
        queue := queue[1..];
        if |batch| >= batchSize {
          FlushBatchToDB(succeeds(n));
          n := n + 1;
          batch := [];
        }
      }
      FlushBatchToDB(succeeds(n));
    }
  }
}
