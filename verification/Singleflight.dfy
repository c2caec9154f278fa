/** Group.Do as the interleaved steps of any number of goroutines. */
module Singleflight {
  import opened Wrappers

  /** One flight: the call record, `outcome` standing for val and err together and `done`
      for the wait group having been released. */
  datatype Call = Call(key: string, leader: nat, outcome: Option<int>, done: bool)

  /** Where a goroutine is in Do. A leader runs fn, has stored what it returned, has released
      the wait group, and has deleted the call from the map before it returns. */
  datatype Pc =
    | Idle
    | Waiting(call: nat)
    | RunningFn(call: nat)
    | Stored(call: nat)
    | Released(call: nat)
    | Returned(call: nat, outcome: int)

  datatype State = State(m: map<string, nat>, calls: map<nat, Call>, pcs: map<nat, Pc>)

  datatype Event =
    | Do(t: nat, key: string, fresh_call: nat)
    | FnReturns(t: nat, outcome: int)
    | Release(t: nat)
    | Delete(t: nat)
    | Wake(t: nat)

  function At(s: State, t: nat): Pc {
    if t in s.pcs then s.pcs[t] else Idle
  }

  function Init(): State { State(map[], map[], map[]) }

  predicate Known(s: State, c: nat) { c in s.calls }

  /** `fresh_call` is the address `new` returns. */
  predicate Enabled(s: State, e: Event) {
    var pc := At(s, e.t);
    match e
    case Do(_, _, c) => (pc.Idle? || pc.Returned?) && !Known(s, c)
    case FnReturns(_, _) => pc.RunningFn? && Known(s, pc.call)
    case Release(_) => pc.Stored? && Known(s, pc.call)
    case Delete(_) => pc.Released? && Known(s, pc.call) && s.calls[pc.call].outcome.Some?
    case Wake(_) => pc.Waiting? && Known(s, pc.call) && s.calls[pc.call].done && s.calls[pc.call].outcome.Some?
  }

  function Step(s: State, e: Event): State
    requires Enabled(s, e)
  {
    var pc := At(s, e.t);
    match e
    case Do(t, key, c) =>
      if key in s.m
      then s.(pcs := s.pcs[t := Waiting(s.m[key])])
      else State(s.m[key := c], s.calls[c := Call(key, t, None, false)], s.pcs[t := RunningFn(c)])
    case FnReturns(t, outcome) =>
      s.(calls := s.calls[pc.call := s.calls[pc.call].(outcome := Some(outcome))], pcs := s.pcs[t := Stored(pc.call)])
    case Release(t) =>
      s.(calls := s.calls[pc.call := s.calls[pc.call].(done := true)], pcs := s.pcs[t := Released(pc.call)])
    case Delete(t) =>
      s.(m := s.m - {s.calls[pc.call].key}, pcs := s.pcs[t := Returned(pc.call, s.calls[pc.call].outcome.value)])
    case Wake(t) =>
      s.(pcs := s.pcs[t := Returned(pc.call, s.calls[pc.call].outcome.value)])
  }

  predicate Leads(pc: Pc) { pc.RunningFn? || pc.Stored? || pc.Released? }

  /** What holds of every goroutine. */
  ghost predicate ThreadOk(s: State, t: nat) {
    var pc := At(s, t);
    match pc
    case Idle => true
    case Waiting(c) => Known(s, c)
    case Returned(c, v) => Known(s, c) && s.calls[c].outcome == Some(v)
    case _ =>
      && Known(s, pc.call)
      && var call := s.calls[pc.call];
         && call.leader == t
         && call.key in s.m && s.m[call.key] == pc.call
         && (call.outcome.None? <==> pc.RunningFn?)
         && (call.done <==> pc.Released?)
  }

  /** What holds of every flight: what is in the map is led by someone, and only a finished
      flight is released. */
  ghost predicate CallOk(s: State, c: nat) {
    c in s.calls ==>
      && (s.calls[c].done ==> s.calls[c].outcome.Some?)
      && (!s.calls[c].done ==>
            At(s, s.calls[c].leader) == if s.calls[c].outcome.None? then RunningFn(c) else Stored(c))
  }

  ghost predicate KeyOk(s: State, key: string) {
    key in s.m ==>
      && Known(s, s.m[key])
      && s.calls[s.m[key]].key == key
      && var pc := At(s, s.calls[s.m[key]].leader);
         Leads(pc) && pc.call == s.m[key]
  }

  ghost predicate Inv(s: State) {
    && (forall t :: ThreadOk(s, t))
    && (forall c :: CallOk(s, c))
    && (forall key :: KeyOk(s, key))
  }

  lemma StepKeepsInv(s: State, e: Event)
    requires Inv(s) && Enabled(s, e)
    ensures Inv(Step(s, e))
  {
    var s' := Step(s, e);
    assert ThreadOk(s, e.t);
    if e.Do? {
      assert KeyOk(s, e.key);
    }
    forall t
      ensures ThreadOk(s', t)
    {
      assert ThreadOk(s, t);
    }
    forall c
      ensures CallOk(s', c)
    {
      assert CallOk(s, c);
    }
    forall key
      ensures KeyOk(s', key)
    {
      assert KeyOk(s, key);
    }
  }

  ghost predicate Reaches(s: State, events: seq<Event>, t: State)
    decreases |events|
  {
    if events == [] then s == t
    else Enabled(s, events[0]) && Reaches(Step(s, events[0]), events[1..], t)
  }

  lemma {:induction false} RunKeepsInv(s: State, events: seq<Event>, t: State)
    requires Inv(s) && Reaches(s, events, t)
    ensures Inv(t)
    decreases |events|
  {
    hide Inv, Step, Enabled;
    if events != [] {
      StepKeepsInv(s, events[0]);
      RunKeepsInv(Step(s, events[0]), events[1..], t);
    }
  }

  /** At most one fn runs per key at any moment. */
  lemma OneFnPerKey(events: seq<Event>, s: State, t: nat, u: nat)
    requires Reaches(Init(), events, s)
    requires At(s, t).RunningFn? && At(s, u).RunningFn?
    requires Known(s, At(s, t).call) && Known(s, At(s, u).call)
    requires s.calls[At(s, t).call].key == s.calls[At(s, u).call].key
    ensures t == u
  {
    RunKeepsInv(Init(), events, s);
    assert ThreadOk(s, t) && ThreadOk(s, u);
  }

  /** A key is in the map, so that a call of Do for it joins a flight instead of running fn,
      exactly while some goroutine leads a flight for it and has not deleted it yet. */
  lemma InMapExactlyInFlight(events: seq<Event>, s: State, key: string)
    requires Reaches(Init(), events, s)
    ensures key in s.m <==>
            exists t :: Leads(At(s, t)) && Known(s, At(s, t).call) && s.calls[At(s, t).call].key == key
  {
    RunKeepsInv(Init(), events, s);
    assert KeyOk(s, key);
    forall t | Leads(At(s, t)) && Known(s, At(s, t).call) && s.calls[At(s, t).call].key == key
      ensures key in s.m
    {
      assert ThreadOk(s, t);
    }
  }

  /** The deletion of a leader removes its own flight and no other. */
  lemma DeletesOwnCall(events: seq<Event>, s: State, t: nat)
    requires Reaches(Init(), events, s) && At(s, t).Released?
    ensures Enabled(s, Delete(t))
    ensures var c := At(s, t).call;
            var key := s.calls[c].key;
            s.m == Step(s, Delete(t)).m[key := c] && key !in Step(s, Delete(t)).m
  {
    RunKeepsInv(Init(), events, s);
    assert ThreadOk(s, t);
  }

  /** Somewhere along the run fn returned `outcome` to the goroutine `t` that was running it
      for the flight `c`. */
  ghost predicate FnReturned(s: State, events: seq<Event>, c: nat, t: nat, outcome: int)
    decreases |events|
  {
    && events != []
    && Enabled(s, events[0])
    && ((events[0] == FnReturns(t, outcome) && At(s, t) == RunningFn(c))
        || FnReturned(Step(s, events[0]), events[1..], c, t, outcome))
  }

  /** An outcome that is set was set before the run, or is what fn returned along the run to
      the flight's leader. */
  lemma {:induction false} OutcomesComeFromFn(s: State, events: seq<Event>, t: State, c: nat)
    requires Inv(s) && Reaches(s, events, t) && c in t.calls && t.calls[c].outcome.Some?
    ensures (c in s.calls && s.calls[c].outcome == t.calls[c].outcome)
            || FnReturned(s, events, c, t.calls[c].leader, t.calls[c].outcome.value)
    decreases |events|
  {
    if events != [] {
      var s' := Step(s, events[0]);
      StepKeepsInv(s, events[0]);
      OutcomesComeFromFn(s', events[1..], t, c);
      if c in s'.calls && s'.calls[c].outcome == t.calls[c].outcome {
        assert ThreadOk(s, events[0].t);
        if !(c in s.calls && s.calls[c].outcome == s'.calls[c].outcome) {
          LeaderIsFixed(s', events[1..], t, c);
        }
      }
    }
  }

  lemma {:induction false} LeaderIsFixed(s: State, events: seq<Event>, t: State, c: nat)
    requires Reaches(s, events, t) && c in s.calls
    ensures c in t.calls && t.calls[c].leader == s.calls[c].leader && t.calls[c].key == s.calls[c].key
    decreases |events|
  {
    if events != [] {
      LeaderIsFixed(Step(s, events[0]), events[1..], t, c);
    }
  }

  /** Everybody who has returned from a flight, leader or follower, has what fn returned to
      the leader of that flight. */
  lemma AllGetTheLeadersResult(events: seq<Event>, s: State, t: nat)
    requires Reaches(Init(), events, s) && At(s, t).Returned?
    ensures Known(s, At(s, t).call)
    ensures FnReturned(Init(), events, At(s, t).call, s.calls[At(s, t).call].leader, At(s, t).outcome)
  {
    RunKeepsInv(Init(), events, s);
    assert ThreadOk(s, t);
    OutcomesComeFromFn(Init(), events, s, At(s, t).call);
  }

  /** Until it calls Do again, a goroutine stays with its flight. */
  lemma {:induction false} StaysWithItsCall(s: State, events: seq<Event>, u: State, t: nat)
    requires Reaches(s, events, u) && !At(s, t).Idle?
    requires forall e <- events :: !(e.Do? && e.t == t)
    ensures !At(u, t).Idle? && At(u, t).call == At(s, t).call
    decreases |events|
  {
    if events != [] {
      assert events[0] in events && forall e <- events[1..] :: e in events;
      StaysWithItsCall(Step(s, events[0]), events[1..], u, t);
    }
  }

  /** Whatever happens after a goroutine has called Do for a key, until it calls Do again it
      is on a flight for that key: the one in the map, or else a new one that it leads and
      whose fn returns, after the call, what the goroutine returns. */
  lemma DoAnswersItsKey(before: seq<Event>, s: State, t: nat, key: string, c: nat, after: seq<Event>, u: State)
    requires Reaches(Init(), before, s) && Enabled(s, Do(t, key, c)) && Reaches(Step(s, Do(t, key, c)), after, u)
    requires forall e <- after :: !(e.Do? && e.t == t)
    ensures !At(u, t).Idle? && At(u, t).call == (if key in s.m then s.m[key] else c)
    ensures Known(u, At(u, t).call) && u.calls[At(u, t).call].key == key
    ensures key !in s.m ==>
              && u.calls[c].leader == t
              && (At(u, t).Returned? ==> FnReturned(Step(s, Do(t, key, c)), after, c, t, At(u, t).outcome))
  {
    var s' := Step(s, Do(t, key, c));
    RunKeepsInv(Init(), before, s);
    StepKeepsInv(s, Do(t, key, c));
    RunKeepsInv(s', after, u);
    assert KeyOk(s, key) && ThreadOk(u, t);
    StaysWithItsCall(s', after, u, t);
    var call := At(u, t).call;
    assert call in s'.calls && s'.calls[call].key == key;
    LeaderIsFixed(s', after, u, call);
    if At(u, t).Returned? {
      OutcomesComeFromFn(s', after, u, call);
    }
  }

  /** A flight has one result: what fn returned for it is the outcome it has ever after. */
  lemma {:induction false} FnReturnsOnce(s: State, events: seq<Event>, t: State, c: nat, leader: nat, outcome: int)
    requires Inv(s) && Reaches(s, events, t) && FnReturned(s, events, c, leader, outcome)
    ensures c in t.calls && t.calls[c].leader == leader && t.calls[c].outcome == Some(outcome)
    decreases |events|
  {
    var s' := Step(s, events[0]);
    StepKeepsInv(s, events[0]);
    if events[0] == FnReturns(leader, outcome) && At(s, leader) == RunningFn(c) {
      assert ThreadOk(s, leader);
      ResultIsFinal(s', events[1..], t, c);
      LeaderIsFixed(s', events[1..], t, c);
    } else {
      FnReturnsOnce(s', events[1..], t, c, leader, outcome);
    }
  }

  /** A follower can go on exactly when its flight is released, and finds the result set. */
  lemma FollowersFindTheResult(events: seq<Event>, s: State, t: nat)
    requires Reaches(Init(), events, s) && At(s, t).Waiting?
    ensures Known(s, At(s, t).call) && (s.calls[At(s, t).call].done <==> Enabled(s, Wake(t)))
  {
    RunKeepsInv(Init(), events, s);
    assert ThreadOk(s, t) && CallOk(s, At(s, t).call);
  }

  /** Once stored, the result of a flight stays what it is. */
  lemma {:induction false} ResultIsFinal(s: State, events: seq<Event>, t: State, c: nat)
    requires Inv(s) && Reaches(s, events, t) && c in s.calls && s.calls[c].outcome.Some?
    ensures c in t.calls && t.calls[c].outcome == s.calls[c].outcome
    decreases |events|
  {
    if events != [] {
      StepKeepsInv(s, events[0]);
      assert ThreadOk(s, events[0].t);
      ResultIsFinal(Step(s, events[0]), events[1..], t, c);
    }
  }

  /** A goroutine that waits is never forgotten: its flight is released already, or its
      leader is still on the way to releasing it. */
  lemma WaitersHaveALeader(events: seq<Event>, s: State, t: nat)
    requires Reaches(Init(), events, s) && At(s, t).Waiting?
    ensures Known(s, At(s, t).call)
    ensures var c := At(s, t).call;
            s.calls[c].done || (At(s, s.calls[c].leader) in {RunningFn(c), Stored(c)})
  {
    RunKeepsInv(Init(), events, s);
    assert ThreadOk(s, t);
    assert CallOk(s, At(s, t).call);
  }

  /** In reachable states the code never has to check more than the program counter says:
      a leader can always take its next step, whatever the others do, and a goroutine that
      is not in Do can always call it. */
  lemma LeadersNeverBlock(events: seq<Event>, s: State, t: nat, v: int)
    requires Reaches(Init(), events, s)
    ensures At(s, t).Idle? || At(s, t).Returned? ==> forall key, c | c !in s.calls :: Enabled(s, Do(t, key, c))
    ensures At(s, t).RunningFn? ==> Enabled(s, FnReturns(t, v))
    ensures At(s, t).Stored? ==> Enabled(s, Release(t))
    ensures At(s, t).Released? ==> Enabled(s, Delete(t))
  {
    RunKeepsInv(Init(), events, s);
    assert ThreadOk(s, t);
  }
}
