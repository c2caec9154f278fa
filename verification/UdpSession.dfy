/** One UDP session: the read loop between the listener and any number of readers, who meet
    it on unbuffered channels. */
module UdpSession {
  type Datagram = seq<int>

  function Min(a: nat, b: nat): nat { if a < b then a else b }

  /** A Read call: offering its buffer on readCh, waiting on sizeCh after the loop has taken
      it, returned with a size, or returned at the end of the session. `got` is the datagram
      copied into the buffer. */
  datatype Reader =
    | Offering(room: nat)
    | AwaitingSize(room: nat, got: Datagram)
    | Returned(room: nat, got: Datagram, size: nat)
    | AtEof

  /** The loop: in the select that has no message to give, in the select that has one,
      sending a size, or returned. */
  datatype Phase = Idle | Ready | Replying(size: nat) | Exited

  /** `received` are the datagrams the loop has taken in, `takers` the Reads it has served,
      both in order. */
  datatype State = State(phase: Phase, msgs: seq<Datagram>, readers: map<nat, Reader>, closed: bool,
                         received: seq<Datagram>, takers: seq<nat>)

  datatype Event =
    | StartRead(r: nat, room: nat)
    | Arrive(msg: Datagram)
    | Take(r: nat)
    | Reply(r: nat)
    | Tick(expired: bool)
    | Close
    | SeeClosed(r: nat)

  function Init(): State { State(Idle, [], map[], false, [], []) }

  predicate Offers(s: State, r: nat) { r in s.readers && s.readers[r].Offering? }

  predicate Awaits(s: State, r: nat) { r in s.readers && s.readers[r].AwaitingSize? }

  predicate Enabled(s: State, e: Event) {
    match e
    case StartRead(r, _) => r !in s.readers
    case Arrive(_) => s.phase.Idle? || s.phase.Ready?
    case Take(r) => s.phase.Ready? && Offers(s, r) && s.msgs != []
    case Reply(r) => s.phase.Replying? && Awaits(s, r)
    case Tick(_) => s.phase.Idle? || s.phase.Ready?
    case Close => true
    case SeeClosed(r) => s.closed && Offers(s, r)
  }

  /** Back to the top of the loop. */
  function Top(msgs: seq<Datagram>): Phase { if msgs == [] then Idle else Ready }

  function Step(s: State, e: Event): State
    requires Enabled(s, e)
  {
    match e
    case StartRead(r, room) => s.(readers := s.readers[r := Offering(room)])
    case Arrive(msg) => s.(msgs := s.msgs + [msg], received := s.received + [msg], phase := Ready)
    case Take(r) =>
      var msg, room := s.msgs[0], s.readers[r].room;
      s.(msgs := s.msgs[1..], takers := s.takers + [r], phase := Replying(Min(room, |msg|)),
      readers := s.readers[r := AwaitingSize(room, msg[..Min(room, |msg|)])])
    case Reply(r) =>
      s.(phase := Top(s.msgs),
      readers := s.readers[r := Returned(s.readers[r].room, s.readers[r].got, s.phase.size)])
    case Tick(expired) =>
      if expired then s.(phase := Exited, closed := true) else s.(phase := Top(s.msgs))
    case Close => s.(closed := true)
    case SeeClosed(r) => s.(readers := s.readers[r := AtEof])
  }

  /** A Read that the loop has served. */
  predicate Served(s: State, r: nat) {
    r in s.readers && (s.readers[r].AwaitingSize? || s.readers[r].Returned?)
  }

  /** The front of a datagram, as much as there is room for. */
  function Front(msg: Datagram, room: nat): Datagram { msg[..Min(room, |msg|)] }

  /** The k-th Read that was served has in its buffer the front of the k-th datagram. */
  ghost predicate GotItsDatagram(s: State, k: nat)
    requires k < |s.takers|
  {
    && k < |s.received|
    && Served(s, s.takers[k])
    && s.readers[s.takers[k]].got == Front(s.received[k], s.readers[s.takers[k]].room)
  }

  /** The datagrams that have been handed out are those received first. */
  ghost predicate InOrder(s: State) {
    && |s.takers| <= |s.received| && s.received[|s.takers|..] == s.msgs
    && forall k | 0 <= k < |s.takers| :: GotItsDatagram(s, k)
  }

  /** Every Read served was served once. */
  ghost predicate ServedOnce(s: State) {
    && (forall j, k | 0 <= j < k < |s.takers| :: s.takers[j] != s.takers[k])
    && (forall r | Served(s, r) :: r in s.takers)
  }

  ghost predicate ReaderOk(s: State, r: nat) {
    r in s.readers ==>
      match s.readers[r]
      case AwaitingSize(_, got) => s.phase == Replying(|got|)
      case Returned(_, got, size) => size == |got|
      case _ => true
  }

  ghost predicate Inv(s: State) {
    && InOrder(s) && ServedOnce(s)
    && (s.phase.Ready? ==> s.msgs != [])
    && (forall r :: ReaderOk(s, r))
    && (forall r, q | Awaits(s, r) && Awaits(s, q) :: r == q)
    && (s.phase.Replying? ==> exists r :: Awaits(s, r))
  }

  lemma StepKeepsOrder(s: State, e: Event)
    requires InOrder(s) && Enabled(s, e)
    ensures InOrder(Step(s, e))
  {
    var s' := Step(s, e);
    forall k | 0 <= k < |s'.takers|
      ensures GotItsDatagram(s', k)
    {
      if k < |s.takers| {
        assert GotItsDatagram(s, k) && s'.takers[k] == s.takers[k] && s'.received[k] == s.received[k];
      } else {
        assert s.received[k] == s.received[k..][0] == s.msgs[0];
      }
    }
    if e.Arrive? {
      assert s'.received[|s.takers|..] == s.msgs + [e.msg];
    } else if e.Take? {
      assert s.received[|s.takers| + 1..] == s.msgs[1..];
    }
  }

  lemma StepKeepsServedOnce(s: State, e: Event)
    requires InOrder(s) && ServedOnce(s) && Enabled(s, e)
    ensures ServedOnce(Step(s, e))
  {
    var s' := Step(s, e);
    assert forall k | 0 <= k < |s.takers| :: GotItsDatagram(s, k) ==> Served(s, s.takers[k]);
    forall r | Served(s', r)
      ensures r in s'.takers
    {
      if s'.takers != s.takers + [r] {
        assert Served(s, r);
      }
    }
  }

  lemma StepKeepsReader(s: State, e: Event, r: nat)
    requires Inv(s) && Enabled(s, e)
    ensures ReaderOk(Step(s, e), r)
  {
    assert ReaderOk(s, r);
    if e.Reply? {
      assert Awaits(s, e.r) && (Awaits(s, r) ==> r == e.r);
    }
  }

  lemma StepKeepsInv(s: State, e: Event)
    requires Inv(s) && Enabled(s, e)
    ensures Inv(Step(s, e))
  {
    var s' := Step(s, e);
    StepKeepsOrder(s, e);
    StepKeepsServedOnce(s, e);
    forall r
      ensures ReaderOk(s', r)
    {
      StepKeepsReader(s, e, r);
    }
    if e.Take? {
      assert Awaits(s', e.r);
    } else if s'.phase.Replying? {
      var r :| Awaits(s, r);
      assert Awaits(s', r);
    }
    forall r, q | Awaits(s', r) && Awaits(s', q)
      ensures r == q
    {
      assert ReaderOk(s, r) && ReaderOk(s, q);
      assert !e.Take? ==> Awaits(s, r) && Awaits(s, q);
    }
  }

  lemma InitIsInv()
    ensures Inv(Init())
  {
  }

  ghost predicate Reaches(s: State, events: seq<Event>, t: State)
    decreases |events|
  {
    if events == [] then s == t
    else Enabled(s, events[0]) && Reaches(Step(s, events[0]), events[1..], t)
  }

  lemma {:induction false} RunKeepsInv(s: State, events: seq<Event>, t: State)
    requires Inv(s) && Reaches(s, events, t)
    ensures Inv(t)
    decreases |events|
  {
    hide Inv, Step, Enabled;
    if events != [] {
      StepKeepsInv(s, events[0]);
      RunKeepsInv(Step(s, events[0]), events[1..], t);
    }
  }

  function Arrival(e: Event): seq<Datagram> { if e.Arrive? then [e.msg] else [] }

  function Taken(e: Event): seq<nat> { if e.Take? then [e.r] else [] }

  /** The datagrams that arrive in a run. */
  function Arrivals(events: seq<Event>): seq<Datagram> {
    if events == [] then [] else Arrival(events[0]) + Arrivals(events[1..])
  }

  /** The Reads whose buffers the loop takes in a run. */
  function Takes(events: seq<Event>): seq<nat> {
    if events == [] then [] else Taken(events[0]) + Takes(events[1..])
  }

  lemma StepLogs(s: State, e: Event)
    requires Enabled(s, e)
    ensures Step(s, e).received == s.received + Arrival(e) && Step(s, e).takers == s.takers + Taken(e)
  {
  }

  lemma {:induction false} LogsAreTheRuns(s: State, events: seq<Event>, t: State)
    requires Reaches(s, events, t)
    ensures t.received == s.received + Arrivals(events) && t.takers == s.takers + Takes(events)
    decreases |events|
  {
    hide Step, Arrival, Taken;
    if events != [] {
      StepLogs(s, events[0]);
      LogsAreTheRuns(Step(s, events[0]), events[1..], t);
    }
  }

  /** What a Read has been handed. */
  function Buffer(s: State, r: nat): Datagram { if Served(s, r) then s.readers[r].got else [] }

  /** What the Reads served have in their buffers, in the order in which they were served. */
  function HandedOut(s: State): seq<Datagram> {
    seq(|s.takers|, k requires 0 <= k < |s.takers| => Buffer(s, s.takers[k]))
  }

  lemma OnlyTakersAreServed(s: State)
    requires InOrder(s) && ServedOnce(s)
    ensures forall r :: Served(s, r) <==> r in s.takers
    ensures forall j, k | 0 <= j < k < |s.takers| :: s.takers[j] != s.takers[k]
  {
    hide Served;
    forall r | r in s.takers
      ensures Served(s, r)
    {
      var k :| 0 <= k < |s.takers| && s.takers[k] == r;
      assert GotItsDatagram(s, k);
    }
  }

  /** `got` is as much of the beginning of `msg` as there is room for. */
  ghost predicate IsFront(got: Datagram, msg: Datagram, room: nat) {
    got <= msg && |got| <= room && (|got| == room || got == msg)
  }

  lemma TakersHold(s: State)
    requires InOrder(s)
    ensures |s.takers| <= |s.received| && s.received == s.received[..|s.takers|] + s.msgs
    ensures forall k | 0 <= k < |s.takers| ::
              Served(s, s.takers[k]) && IsFront(HandedOut(s)[k], s.received[k], s.readers[s.takers[k]].room)
  {
    forall k | 0 <= k < |s.takers|
      ensures Served(s, s.takers[k]) && IsFront(HandedOut(s)[k], s.received[k], s.readers[s.takers[k]].room)
    {
      assert GotItsDatagram(s, k);
    }
  }

  /** In every reachable state the Reads taken so far, in order and each of them once, hold
      the datagrams that arrived first, in order, each as far as the buffer had room; all
      other datagrams that arrived are still queued, in order. Nobody else has got anything, and a
      loop that takes a buffer has a datagram for it. */
  lemma DeliveredInOrder(events: seq<Event>, t: State)
    requires Reaches(Init(), events, t)
    ensures t.received == Arrivals(events) && t.takers == Takes(events)
    ensures forall r :: Served(t, r) <==> r in t.takers
    ensures forall j, k | 0 <= j < k < |t.takers| :: t.takers[j] != t.takers[k]
    ensures |t.takers| <= |t.received| && t.received == t.received[..|t.takers|] + t.msgs
    ensures forall k | 0 <= k < |t.takers| ::
              Served(t, t.takers[k]) && IsFront(HandedOut(t)[k], t.received[k], t.readers[t.takers[k]].room)
    ensures t.phase.Ready? ==> t.msgs != []
  {
    InitIsInv();
    hide Reaches, InOrder, ServedOnce;
    RunKeepsInv(Init(), events, t);
    LogsAreTheRuns(Init(), events, t);
    OnlyTakersAreServed(t);
    TakersHold(t);
  }

  /** When every buffer has room for its datagram, what the Reads were handed followed by
      what is queued is what has arrived. */
  lemma NothingIsCutOrLost(events: seq<Event>, t: State)
    requires Reaches(Init(), events, t)
    requires forall k, r | 0 <= k < |t.received| && Served(t, r) :: |t.received[k]| <= t.readers[r].room
    ensures HandedOut(t) + t.msgs == Arrivals(events)
  {
    DeliveredInOrder(events, t);
    forall k | 0 <= k < |t.takers|
      ensures HandedOut(t)[k] == t.received[k]
    {
      assert Served(t, t.takers[k]);
    }
  }

  /** However many Reads are under way, each one that returns has the size of what was copied
      into its own buffer, the front of the one datagram it was served, as much as fits. */
  lemma EachReadGetsItsSize(events: seq<Event>, t: State, r: nat)
    requires Reaches(Init(), events, t) && r in t.readers && t.readers[r].Returned?
    ensures var Returned(room, got, size) := t.readers[r];
            exists k | 0 <= k < |t.takers| <= |t.received| && t.takers[k] == r ::
              IsFront(got, t.received[k], room) && size == |got|
  {
    RunKeepsInv(Init(), events, t);
    assert ReaderOk(t, r) && Served(t, r);
    var k :| 0 <= k < |t.takers| && t.takers[k] == r;
    assert GotItsDatagram(t, k);
  }

  /** While the loop is sending a size exactly one Read is waiting for it, the one whose
      buffer was filled: no other can take the size away. */
  lemma OneReadAwaits(events: seq<Event>, t: State, r: nat)
    requires Reaches(Init(), events, t) && Awaits(t, r)
    ensures t.phase == Replying(|t.readers[r].got|)
    ensures forall q :: Awaits(t, q) <==> q == r
  {
    RunKeepsInv(Init(), events, t);
    assert ReaderOk(t, r);
  }

  // ---- What opens, serves and ends the session ----

  /** The room of a Read's buffer is that of its call; a Read is at the end of the session
      only when the session has been closed. */
  ghost predicate ReaderOfRun(s: State, events: seq<Event>, r: nat) {
    && (r in s.readers <==> exists room :: StartRead(r, room) in events)
    && (r in s.readers && !s.readers[r].AtEof? ==> StartRead(r, s.readers[r].room) in events)
    && (r in s.readers && s.readers[r].AtEof? ==> s.closed)
  }

  /** Whether the loop has ended and whether the session is closed, by the events. */
  ghost predicate EndedByRun(s: State, events: seq<Event>) {
    && (s.phase.Exited? <==> Tick(true) in events)
    && (s.closed <==> Close in events || Tick(true) in events)
    && (s.phase.Idle? ==> s.msgs == [])
  }

  lemma StepKeepsEnd(s: State, before: seq<Event>, e: Event)
    requires EndedByRun(s, before) && Enabled(s, e)
    ensures EndedByRun(Step(s, e), before + [e])
  {
  }

  lemma StepKeepsReaderOfRun(s: State, before: seq<Event>, e: Event, r: nat)
    requires ReaderOfRun(s, before, r) && Enabled(s, e)
    ensures ReaderOfRun(Step(s, e), before + [e], r)
  {
    assert forall room :: StartRead(r, room) in before + [e] <==> StartRead(r, room) in before || e == StartRead(r, room);
  }

  lemma {:induction false} RunExplainsState(s: State, before: seq<Event>, events: seq<Event>, t: State, r: nat)
    requires EndedByRun(s, before) && ReaderOfRun(s, before, r) && Reaches(s, events, t)
    ensures EndedByRun(t, before + events) && ReaderOfRun(t, before + events, r)
    decreases |events|
  {
    hide EndedByRun, ReaderOfRun, Step, Enabled;
    if events == [] {
      assert before + events == before;
    } else {
      StepKeepsEnd(s, before, events[0]);
      StepKeepsReaderOfRun(s, before, events[0], r);
      RunExplainsState(Step(s, events[0]), before + [events[0]], events[1..], t, r);
      assert before + [events[0]] + events[1..] == before + events;
    }
  }

  /** The loop ends only by a tick after the time-out, which closes the session, as Close
      does; until then it takes in every datagram, it takes the buffer of any waiting Read
      exactly when a datagram is queued, and it never hangs sending a size. Reads are those
      that have been called, with the buffers they were called with, and end with io.EOF only
      in a closed session. */
  lemma LoopServes(events: seq<Event>, t: State, r: nat)
    requires Reaches(Init(), events, t)
    ensures t.phase.Exited? <==> Tick(true) in events
    ensures t.closed <==> Close in events || Tick(true) in events
    ensures !t.phase.Exited? && !t.phase.Replying? ==>
              && (forall msg :: Enabled(t, Arrive(msg)))
              && (Enabled(t, Take(r)) <==> Offers(t, r) && t.msgs != [])
    ensures t.phase.Replying? ==> exists q :: Enabled(t, Reply(q))
    ensures r in t.readers <==> exists room :: StartRead(r, room) in events
    ensures r in t.readers && !t.readers[r].AtEof? ==> StartRead(r, t.readers[r].room) in events
    ensures r in t.readers && t.readers[r].AtEof? ==> t.closed
    ensures Offers(t, r) && t.closed ==> Enabled(t, SeeClosed(r))
  {
    assert EndedByRun(Init(), []) && ReaderOfRun(Init(), [], r);
    RunExplainsState(Init(), [], events, t, r);
    assert [] + events == events;
    hide Step, Reaches, InOrder, ServedOnce;
    RunKeepsInvFromInit(events, t);
    if t.phase.Replying? {
      var q :| Awaits(t, q);
      assert Enabled(t, Reply(q));
    }
  }

  lemma RunKeepsInvFromInit(events: seq<Event>, t: State)
    requires Reaches(Init(), events, t)
    ensures Inv(t)
  {
    InitIsInv();
    RunKeepsInv(Init(), events, t);
  }
}
