/** Timers of the event loop: the in-place filter of the timer list, and the way a handle
    travels between the list, the scheduler, the fire channel and its callback. */
module Timers {
  import opened Wrappers

  /** The part of a timer handle that the scheduler looks at. */
  datatype Info = Info(next: int, repeat: nat, active: bool)

  function Filter<T>(keep: T -> bool, s: seq<T>): seq<T> {
    if s == [] then []
    else (if keep(s[0]) then [s[0]] else []) + Filter(keep, s[1..])
  }

  /** Active and to be fired at `now` or before. */
  ghost function IsDue<T>(info: map<T, Info>, now: int): T -> bool {
    t => t in info && info[t].active && info[t].next <= now
  }

  /** Active and to be fired after `now`. */
  ghost function IsWaiting<T>(info: map<T, Info>, now: int): T -> bool {
    t => t in info && info[t].active && info[t].next > now
  }

  lemma FilterEmpty<T>(keep: T -> bool)
    ensures Filter(keep, []) == []
  {
  }

  lemma {:induction false} FilterSnoc<T>(keep: T -> bool, s: seq<T>, x: T)
    ensures Filter(keep, s + [x]) == if keep(x) then Filter(keep, s) + [x] else Filter(keep, s)
    decreases |s|
  {
    if s == [] {
      assert s + [x] == [x];
    } else {
      var first := if keep(s[0]) then [s[0]] else [];
      assert (s + [x])[1..] == s[1..] + [x];
      FilterSnoc(keep, s[1..], x);
      assert Filter(keep, s + [x]) == first + Filter(keep, s[1..] + [x]);
      assert first + (Filter(keep, s[1..]) + [x]) == Filter(keep, s) + [x];
    }
  }

  lemma {:induction false} FilterMembers<T>(keep: T -> bool, s: seq<T>)
    ensures forall x :: x in Filter(keep, s) <==> x in s && keep(x)
    decreases |s|
  {
    if s != [] {
      FilterMembers(keep, s[1..]);
      assert forall x :: x in s <==> x == s[0] || x in s[1..];
    }
  }

  // ---- The list of the loop ----

  class TimerHandle {
    var next: int
    const repeat: nat
    var active: bool

    constructor (next: int, repeat: nat)
      ensures this.next == next && this.repeat == repeat && active
    {
      this.next, this.repeat, active := next, repeat, true;
    }
  }

  ghost function Snapshot(hs: seq<TimerHandle>): map<TimerHandle, Info>
    reads hs
  {
    map h | h in hs :: Info(h.next, h.repeat, h.active)
  }

  class Loop {
    // The backing array of the timer slice and the slice's length.
    var slots: array<TimerHandle?>
    var count: nat

    constructor ()
      ensures Valid() && Timers() == [] && fresh(slots)
    {
      slots := new TimerHandle?[0];
      count := 0;
    }

    ghost predicate Valid()
      reads this, slots
    {
      count <= slots.Length && forall i | 0 <= i < count :: slots[i] != null
    }

    ghost function Timers(): (hs: seq<TimerHandle>)
      requires Valid()
      reads this, slots
      ensures |hs| == count && forall i | 0 <= i < count :: hs[i] == slots[i]
    {
      seq(count, i requires 0 <= i < count && Valid() reads this, slots => slots[i])
    }

    /** append on the timer slice. */
    method Append(th: TimerHandle)
      requires Valid()
      modifies this, slots
      ensures Valid() && (slots == old(slots) || fresh(slots))
      ensures Timers() == old(Timers()) + [th]
    {
      if count == slots.Length {
        var larger := new TimerHandle?[2 * count + 1];
        forall i | 0 <= i < count {
          larger[i] := slots[i];
        }
        slots := larger;
      }
      slots[count] := th;
      count := count + 1;
    }

    /** TimerStart: a new handle at the end of the list. */
    method TimerStart(now: int, first: int, repeat: nat) returns (th: TimerHandle)
      requires Valid()
      modifies this, slots
      ensures Valid() && (slots == old(slots) || fresh(slots))
      ensures fresh(th) && th.next == now + first && th.repeat == repeat && th.active
      ensures Timers() == old(Timers()) + [th]
    {
      th := new TimerHandle(now + first, repeat);
      Append(th);
    }

    /** Puts a handle back into the list unless it is there. */
    method RescheduleTimer(th: TimerHandle)
      requires Valid()
      modifies this, slots
      ensures Valid() && (slots == old(slots) || fresh(slots))
      ensures Timers() == old(Timers()) + if th in old(Timers()) then [] else [th]
    {
      for i := 0 to count
        invariant th !in Timers()[..i]
      {
        assert Timers()[..i + 1] == Timers()[..i] + [slots[i]];
        if slots[i] == th {
          assert Timers()[i] == th;
          return;
        }
      }
      assert Timers()[..count] == Timers();
      Append(th);
    }

    /** The earliest deadline of the active timers, or `now` if that is past. */
    method NextTimerDeadline(now: int) returns (r: Option<int>)
      requires Valid()
      ensures r == None <==> forall h <- Timers() :: !h.active
      ensures r.Some? ==>
                && (forall h <- Timers() | h.active :: r.value <= if h.next < now then now else h.next)
                && exists h <- Timers() :: h.active && r.value == if h.next < now then now else h.next
    {
      var min, ok := 0, false;
      ghost var hs := Timers();
      for i := 0 to count
        invariant ok <==> exists h <- hs[..i] :: h.active
        invariant ok ==> (forall h <- hs[..i] | h.active :: min <= h.next) && exists h <- hs[..i] :: h.active && h.next == min
      {
        var th := slots[i];
        assert hs[..i + 1] == hs[..i] + [th] && hs[i] == th;
        if th.active && (!ok || th.next < min) {
          min, ok := th.next, true;
        }
      }
      assert hs[..count] == hs;
      r := if !ok then None else Some(if min < now then now else min);
    }

    /** Filters the list in place: what is due is taken out, in order, what is stopped is
        dropped, and what is waiting stays, in order. */
    method FireDueTimers(now: int) returns (due: seq<TimerHandle>)
      requires Valid()
      modifies this`count, slots
      ensures Valid()
      ensures due == Filter(IsDue(old(Snapshot(Timers())), now), old(Timers()))
      ensures Timers() == Filter(IsWaiting(old(Snapshot(Timers())), now), old(Timers()))
      ensures forall h :: h in due <==> h in old(Timers()) && h.active && h.next <= now
      ensures forall h :: h in Timers() <==> h in old(Timers()) && h.active && h.next > now
    {
      hide Filter;
      due := [];
      var kept := 0;
      ghost var hs, info := Timers(), Snapshot(Timers());
      ghost var n := count;
      ghost var remain: seq<TimerHandle> := [];
      FilterEmpty(IsDue(info, now));
      FilterEmpty(IsWaiting(info, now));
      for i := 0 to count
        invariant kept == |remain| <= i && count == n && Valid()
        invariant forall k | 0 <= k < kept :: slots[k] == remain[k]
        invariant forall k | i <= k < n :: slots[k] == hs[k]
        invariant forall h <- hs :: info[h] == Info(h.next, h.repeat, h.active)
        invariant due == Filter(IsDue(info, now), hs[..i])
        invariant remain == Filter(IsWaiting(info, now), hs[..i])
      {
        var th: TimerHandle := slots[i];
        assert th == hs[i] && th in hs && hs[..i + 1] == hs[..i] + [th];
        FilterSnoc(IsDue(info, now), hs[..i], th);
        FilterSnoc(IsWaiting(info, now), hs[..i], th);
        assert IsDue(info, now)(th) <==> th.active && th.next <= now;
        assert IsWaiting(info, now)(th) <==> th.active && th.next > now;
        if !th.active {
          continue;
        }
        if th.next <= now {
          due := due + [th];
          continue;
        }
        slots[kept] := th;
        remain := remain + [th];
        kept := kept + 1;
      }
      assert hs[..n] == hs;
      count := kept;
      assert Timers() == remain;
      FilterMembers(IsDue(info, now), hs);
      FilterMembers(IsWaiting(info, now), hs);
    }
  }
}

/** Handles as they move between the timer list, the slice of due timers the scheduler is
    sending, the fire channel and the callback that is running. */
module TimerProtocol {
  import opened Timers
  import opened Wrappers

  const FIRE_CAPACITY := 32

  /** A handle, and how often its callback has been started. */
  datatype State = State(now: int, info: map<nat, Info>, started: map<nat, nat>,
                         timers: seq<nat>, due: seq<nat>, fire: seq<nat>, running: Option<nat>)

  /** Actions of any goroutine (Start, Stop), of the clock, of the scheduler (FireDue, Send,
      Abandon) and of the loop (BeginDispatch, EndDispatch). */
  datatype Event =
    | Start(id: nat, first: int, repeat: nat)
    | Stop(id: nat)
    | Pass(time: nat)
    | FireDue
    | Send
    | Abandon
    | BeginDispatch
    | EndDispatch

  function Init(now: int): State {
    State(now, map[], map[], [], [], [], None)
  }

  ghost predicate Enabled(s: State, e: Event) {
    match e
    case Start(id, _, _) => id !in s.info
    case Stop(id) => id in s.info
    case Pass(_) => true
    case FireDue => s.due == []
    case Send => s.due != [] && |s.fire| < FIRE_CAPACITY
    case Abandon => true
    case BeginDispatch => s.running.None? && s.fire != []
    case EndDispatch => s.running.Some? && s.running.value in s.info
  }

  ghost function Step(s: State, e: Event): State
    requires Enabled(s, e)
  {
    match e
    case Start(id, first, repeat) =>
      s.(info := s.info[id := Info(s.now + first, repeat, true)],
      started := s.started[id := 0], timers := s.timers + [id])
    case Stop(id) => s.(info := s.info[id := s.info[id].(active := false)])
    case Pass(time) => s.(now := s.now + time)
    case FireDue =>
      s.(timers := Filter(IsWaiting(s.info, s.now), s.timers), due := Filter(IsDue(s.info, s.now), s.timers))
    case Send => s.(due := s.due[1..], fire := s.fire + [s.due[0]])
    case Abandon => s.(due := [])
    case BeginDispatch =>
      var th := s.fire[0];
      if th in s.info && s.info[th].active
      then s.(fire := s.fire[1..], running := Some(th), started := s.started[th := Started(s, th) + 1])
      else s.(fire := s.fire[1..])
    case EndDispatch =>
      var th := s.running.value;
      var i := s.info[th];
      if i.repeat > 0
      then s.(running := None, info := s.info[th := i.(next := s.now + i.repeat)],
      timers := s.timers + if th in s.timers then [] else [th])
      else s.(running := None, info := s.info[th := i.(active := false)])
  }

  ghost function Started(s: State, id: nat): nat {
    if id in s.started then s.started[id] else 0
  }

  function Occurrences(q: seq<nat>, id: nat): nat { multiset(q)[id] }

  /** In how many places a handle is. */
  ghost function Places(s: State, id: nat): nat {
    Occurrences(s.timers, id) + Occurrences(s.due, id) + Occurrences(s.fire, id)
    + if s.running == Some(id) then 1 else 0
  }

  /** A handle is in at most one place, what has left the list is due, and a one-shot timer
      whose callback has been started is nowhere it could be started from again. */
  ghost predicate HandleOk(s: State, id: nat) {
    && Places(s, id) <= 1
    && (Places(s, id) > 0 || id in s.started ==> id in s.info)
    && (id in s.info && (id in s.due || id in s.fire) ==> s.info[id].next <= s.now)
    && (id in s.info && s.info[id].repeat == 0 ==>
          Started(s, id) + Occurrences(s.timers, id) + Occurrences(s.due, id) + Occurrences(s.fire, id) <= 1)
  }

  ghost predicate Inv(s: State) {
    forall id :: HandleOk(s, id)
  }

  lemma OccurrencesSnoc(q: seq<nat>, x: nat, id: nat)
    ensures Occurrences(q + [x], id) == Occurrences(q, id) + if x == id then 1 else 0
    ensures q != [] ==> Occurrences(q[1..], id) == Occurrences(q, id) - if q[0] == id then 1 else 0
    ensures id in q <==> Occurrences(q, id) > 0
  {
    if q != [] {
      assert q == [q[0]] + q[1..];
    }
  }

  /** The filter sends every occurrence of an active handle to exactly one of the two sides
      and drops the stopped ones. */
  lemma {:induction false} FilterSplits(info: map<nat, Info>, now: int, q: seq<nat>, id: nat)
    ensures Occurrences(Filter(IsWaiting(info, now), q), id) + Occurrences(Filter(IsDue(info, now), q), id)
            == if id in info && info[id].active then Occurrences(q, id) else 0
    ensures id in Filter(IsDue(info, now), q) ==> id in info && info[id].next <= now
    ensures id in Filter(IsWaiting(info, now), q) ==> id in info && info[id].next > now
    decreases |q|
  {
    if q != [] {
      assert q == [q[0]] + q[1..];
      FilterSplits(info, now, q[1..], id);
    }
  }

  lemma MovesKeepHandle(s: State, e: Event, id: nat)
    requires HandleOk(s, id) && Enabled(s, e) && (e.Send? || e.FireDue? || e.Abandon?)
    ensures HandleOk(Step(s, e), id)
  {
    if e.FireDue? {
      FilterSplits(s.info, s.now, s.timers, id);
      OccurrencesSnoc(s.fire, 0, id);
    } else if e.Send? {
      OccurrencesSnoc(s.due, 0, id);
      OccurrencesSnoc(s.fire, s.due[0], id);
    }
  }

  lemma BeginKeepsHandle(s: State, id: nat)
    requires HandleOk(s, id) && Enabled(s, BeginDispatch)
    ensures HandleOk(Step(s, BeginDispatch), id)
  {
    OccurrencesSnoc(s.fire, 0, id);
    assert id in s.fire[1..] ==> id in s.fire;
    hide Occurrences;
  }

  lemma EndKeepsHandle(s: State, id: nat)
    requires HandleOk(s, id) && Enabled(s, EndDispatch)
    ensures HandleOk(Step(s, EndDispatch), id)
  {
    hide Occurrences;
    OccurrencesSnoc(s.timers, s.running.value, id);
    OccurrencesSnoc(s.due, 0, id);
    OccurrencesSnoc(s.fire, 0, id);
    var s' := Step(s, EndDispatch);
    assert s.timers + [] == s.timers;
    assert s'.due == s.due && s'.fire == s.fire && s'.running == None;
    assert Occurrences(s'.timers, id) <= Occurrences(s.timers, id) + if s.running == Some(id) then 1 else 0;
  }

  lemma OthersKeepHandle(s: State, e: Event, id: nat)
    requires HandleOk(s, id) && Enabled(s, e) && (e.Start? || e.Stop? || e.Pass?)
    ensures HandleOk(Step(s, e), id)
  {
  }

  lemma StepKeepsHandle(s: State, e: Event, id: nat)
    requires HandleOk(s, id) && Enabled(s, e)
    ensures HandleOk(Step(s, e), id)
  {
    match e
    case Start(_, _, _) => OthersKeepHandle(s, e, id);
    case Stop(_) => OthersKeepHandle(s, e, id);
    case Pass(_) => OthersKeepHandle(s, e, id);
    case BeginDispatch => BeginKeepsHandle(s, id);
    case EndDispatch => EndKeepsHandle(s, id);
    case _ => MovesKeepHandle(s, e, id);
  }

  lemma StepKeepsInv(s: State, e: Event)
    requires Inv(s) && Enabled(s, e)
    ensures Inv(Step(s, e))
  {
    forall id
      ensures HandleOk(Step(s, e), id)
    {
      assert HandleOk(s, id);
      StepKeepsHandle(s, e, id);
    }
  }

  ghost predicate Reaches(s: State, events: seq<Event>, t: State)
    decreases |events|
  {
    if events == [] then s == t
    else Enabled(s, events[0]) && Reaches(Step(s, events[0]), events[1..], t)
  }

  lemma {:induction false} RunKeepsInv(s: State, events: seq<Event>, t: State)
    requires Inv(s) && Reaches(s, events, t)
    ensures Inv(t)
    decreases |events|
  {
    hide HandleOk, Step, Enabled;
    if events != [] {
      StepKeepsInv(s, events[0]);
      RunKeepsInv(Step(s, events[0]), events[1..], t);
    }
  }

  /** In every reachable state a handle is in at most one of the list, the due slice, the
      channel and its callback: the search in rescheduleTimer never finds it. */
  lemma OnePlace(now: int, events: seq<Event>, t: State, id: nat)
    requires Reaches(Init(now), events, t)
    ensures Places(t, id) <= 1
    ensures t.running.Some? ==> t.running.value !in t.timers && t.running.value in t.info
  {
    RunKeepsInv(Init(now), events, t);
    assert HandleOk(t, id);
    if t.running.Some? {
      assert HandleOk(t, t.running.value);
    }
  }

  /** In every reachable state the callback of a one-shot timer has been started at most once. */
  lemma OneShotRunsOnce(now: int, events: seq<Event>, t: State, id: nat)
    requires Reaches(Init(now), events, t) && id in t.info && t.info[id].repeat == 0
    ensures Started(t, id) <= 1
  {
    RunKeepsInv(Init(now), events, t);
    assert HandleOk(t, id);
  }

  /** A callback is started only for an active handle whose time has come. */
  lemma NeverEarly(now: int, events: seq<Event>, t: State, id: nat)
    requires Reaches(Init(now), events, t) && Enabled(t, BeginDispatch)
    requires Started(Step(t, BeginDispatch), id) > Started(t, id)
    ensures id in t.info && t.info[id].active && t.info[id].next <= t.now
  {
    RunKeepsInv(Init(now), events, t);
    assert HandleOk(t, id);
  }

  /** Whatever happens after Stop, from whichever goroutine, the callback of the stopped
      handle is not started again. */
  lemma StopIsFinal(s: State, events: seq<Event>, t: State, id: nat)
    requires Enabled(s, Stop(id)) && Reaches(Step(s, Stop(id)), events, t)
    ensures id in t.info && !t.info[id].active && Started(t, id) == Started(s, id)
  {
    InactiveStays(Step(s, Stop(id)), events, t, id);
  }

  lemma {:induction false} InactiveStays(s: State, events: seq<Event>, t: State, id: nat)
    requires Reaches(s, events, t) && id in s.info && !s.info[id].active
    ensures id in t.info && !t.info[id].active && Started(t, id) == Started(s, id)
    decreases |events|
  {
    if events != [] {
      InactiveStays(Step(s, events[0]), events[1..], t, id);
    }
  }

  /** How often a callback has been started never goes down. */
  lemma {:induction false} StartedGrows(s: State, events: seq<Event>, t: State, id: nat)
    requires Reaches(s, events, t) && id in s.info
    ensures id in t.info && Started(s, id) <= Started(t, id)
    decreases |events|
  {
    if events != [] {
      StartedGrows(Step(s, events[0]), events[1..], t, id);
    }
  }

  /** Until its callback is started again, a handle that is not running keeps its deadline. */
  lemma {:induction false} DeadlineStays(s: State, events: seq<Event>, t: State, id: nat)
    requires Reaches(s, events, t) && id in s.info && s.running != Some(id) && Started(t, id) == Started(s, id)
    ensures id in t.info && t.info[id].next == s.info[id].next
    decreases |events|
  {
    if events != [] {
      var s' := Step(s, events[0]);
      StartedGrows(s', events[1..], t, id);
      DeadlineStays(s', events[1..], t, id);
    }
  }

  /** Callbacks of a repeating timer are spaced: after one has ended, at time s.now, the next
      is started no earlier than s.now plus the interval, whatever happens in between. */
  lemma RepeatsAreSpaced(now: int, before: seq<Event>, s: State, after: seq<Event>, t: State, id: nat)
    requires Reaches(Init(now), before, s) && Enabled(s, EndDispatch)
    requires s.running == Some(id) && s.info[id].repeat > 0
    requires Reaches(Step(s, EndDispatch), after, t) && Started(t, id) == Started(s, id)
    requires Enabled(t, BeginDispatch) && Started(Step(t, BeginDispatch), id) > Started(t, id)
    ensures t.now >= s.now + s.info[id].repeat
  {
    RunKeepsInv(Init(now), before, s);
    StepKeepsInv(s, EndDispatch);
    RunKeepsInv(Step(s, EndDispatch), after, t);
    DeadlineStays(Step(s, EndDispatch), after, t, id);
    assert HandleOk(t, id);
  }

  // ---- Nothing active is forgotten ----

  /** The scheduler gives up, as the loop is being stopped, while the handle is due. */
  ghost predicate Abandons(s: State, events: seq<Event>, id: nat)
    decreases |events|
  {
    && events != [] && Enabled(s, events[0])
    && ((events[0].Abandon? && id in s.due) || Abandons(Step(s, events[0]), events[1..], id))
  }

  /** An active handle has a place. */
  ghost predicate Placed(s: State, id: nat) {
    id in s.info && s.info[id].active ==> Places(s, id) == 1
  }

  lemma MovesKeepPlace(s: State, e: Event, id: nat)
    requires HandleOk(s, id) && Placed(s, id) && Enabled(s, e) && !(e.Abandon? && id in s.due)
    requires e.Send? || e.FireDue? || e.Abandon?
    ensures Placed(Step(s, e), id)
  {
    OccurrencesSnoc(s.due, 0, id);
    if e.FireDue? {
      FilterSplits(s.info, s.now, s.timers, id);
    } else if e.Send? {
      OccurrencesSnoc(s.fire, s.due[0], id);
    }
  }

  lemma DispatchKeepsPlace(s: State, e: Event, id: nat)
    requires HandleOk(s, id) && Placed(s, id) && Enabled(s, e) && (e.BeginDispatch? || e.EndDispatch?)
    ensures Placed(Step(s, e), id)
  {
    hide Occurrences;
    OccurrencesSnoc(s.timers, id, id);
    OccurrencesSnoc(s.fire, 0, id);
    if e.EndDispatch? {
      OccurrencesSnoc(s.timers, s.running.value, id);
      assert s.timers + [] == s.timers;
    }
  }

  lemma OthersKeepPlace(s: State, e: Event, id: nat)
    requires HandleOk(s, id) && Placed(s, id) && Enabled(s, e) && (e.Start? || e.Stop? || e.Pass?)
    ensures Placed(Step(s, e), id)
  {
    hide Occurrences;
    if e.Start? {
      OccurrencesSnoc(s.timers, e.id, id);
    }
  }

  lemma {:induction false} RunKeepsPlace(s: State, events: seq<Event>, t: State, id: nat)
    requires Inv(s) && Placed(s, id) && Reaches(s, events, t) && !Abandons(s, events, id)
    ensures Placed(t, id)
    decreases |events|
  {
    hide Placed, HandleOk, Step, Enabled;
    if events != [] {
      var e := events[0];
      assert HandleOk(s, id);
      match e {
        case Start(_, _, _) => OthersKeepPlace(s, e, id);
        case Stop(_) => OthersKeepPlace(s, e, id);
        case Pass(_) => OthersKeepPlace(s, e, id);
        case BeginDispatch => DispatchKeepsPlace(s, e, id);
        case EndDispatch => DispatchKeepsPlace(s, e, id);
        case _ => MovesKeepPlace(s, e, id);
      }
      StepKeepsInv(s, e);
      RunKeepsPlace(Step(s, e), events[1..], t, id);
    }
  }

  /** In every reachable state an active handle is in exactly one of the list, the due slice,
      the channel and its callback, unless the scheduler gave up while it was due. */
  lemma ActiveIsInOnePlace(now: int, events: seq<Event>, t: State, id: nat)
    requires Reaches(Init(now), events, t) && !Abandons(Init(now), events, id)
    requires id in t.info && t.info[id].active
    ensures Places(t, id) == 1
  {
    RunKeepsPlace(Init(now), events, t, id);
  }

  /** A filter of the list takes a handle out as due, or keeps it, exactly as its deadline
      says, and drops it if it has been stopped. */
  lemma FiresWhenDue(now: int, events: seq<Event>, t: State, id: nat)
    requires Reaches(Init(now), events, t) && Enabled(t, FireDue) && id in t.timers
    ensures id in t.info
    ensures var u := Step(t, FireDue);
            && (id in u.due <==> t.info[id].active && t.info[id].next <= t.now)
            && (id in u.timers <==> t.info[id].active && t.info[id].next > t.now)
  {
    RunKeepsInv(Init(now), events, t);
    assert HandleOk(t, id);
    FilterMembers(IsDue(t.info, t.now), t.timers);
    FilterMembers(IsWaiting(t.info, t.now), t.timers);
  }

  /** When a callback of a repeating timer has ended, the handle goes on: until its callback
      is started again, and as long as it is not stopped or abandoned, it is in one place and
      its deadline is one interval after that end. */
  lemma RepeatsGoOn(now: int, before: seq<Event>, s: State, after: seq<Event>, t: State, id: nat)
    requires Reaches(Init(now), before, s) && Enabled(s, EndDispatch)
    requires s.running == Some(id) && s.info[id].repeat > 0
    requires Reaches(Step(s, EndDispatch), after, t) && Started(t, id) == Started(s, id)
    requires !Abandons(Step(s, EndDispatch), after, id)
    ensures id in t.info && t.info[id].next == s.now + s.info[id].repeat
    ensures t.info[id].active ==> Places(t, id) == 1
  {
    var s' := Step(s, EndDispatch);
    RunKeepsInv(Init(now), before, s);
    assert HandleOk(s, id);
    DispatchKeepsPlace(s, EndDispatch, id);
    StepKeepsInv(s, EndDispatch);
    RunKeepsPlace(s', after, t, id);
    DeadlineStays(s', after, t, id);
  }

  /** A new timer waits for its first deadline in the same way. */
  lemma StartIsFiled(now: int, before: seq<Event>, s: State, first: int, repeat: nat, after: seq<Event>, t: State, id: nat)
    requires Reaches(Init(now), before, s) && Enabled(s, Start(id, first, repeat))
    requires Reaches(Step(s, Start(id, first, repeat)), after, t) && Started(t, id) == 0
    requires !Abandons(Step(s, Start(id, first, repeat)), after, id)
    ensures id in t.info && t.info[id].next == s.now + first
    ensures t.info[id].active ==> Places(t, id) == 1
  {
    var e := Start(id, first, repeat);
    RunKeepsInv(Init(now), before, s);
    assert HandleOk(s, id);
    OthersKeepPlace(s, e, id);
    StepKeepsInv(s, e);
    RunKeepsPlace(Step(s, e), after, t, id);
    DeadlineStays(Step(s, e), after, t, id);
  }

  // ---- What a callback is started for ----

  /** Why a handle is not active: it has been stopped, or it is a one-shot timer whose
      callback has come to its end. */
  ghost predicate InactiveFor(s: State, id: nat, stopped: bool) {
    if id in s.info then
      && (!s.info[id].active <==> stopped || (s.info[id].repeat == 0 && Started(s, id) > 0 && s.running != Some(id)))
      && (s.running == Some(id) ==> Started(s, id) > 0)
    else !stopped && s.running != Some(id)
  }

  lemma StepKeepsInactive(s: State, e: Event, id: nat, stopped: bool)
    requires HandleOk(s, id) && InactiveFor(s, id, stopped) && Enabled(s, e)
    ensures InactiveFor(Step(s, e), id, stopped || e == Stop(id))
  {
    hide Occurrences;
    OccurrencesSnoc(s.fire, 0, id);
  }

  lemma {:induction false} RunKeepsInactive(s: State, events: seq<Event>, t: State, id: nat, stopped: bool)
    requires Inv(s) && InactiveFor(s, id, stopped) && Reaches(s, events, t)
    ensures InactiveFor(t, id, stopped || Stop(id) in events)
    decreases |events|
  {
    hide InactiveFor, HandleOk, Step, Enabled;
    if events != [] {
      var e := events[0];
      assert HandleOk(s, id);
      StepKeepsInactive(s, e, id, stopped);
      StepKeepsInv(s, e);
      RunKeepsInactive(Step(s, e), events[1..], t, id, stopped || e == Stop(id));
    }
  }

  /** When the loop takes a handle from the channel, its callback is started if and only if
      the timer has never been stopped. */
  lemma DispatchRunsExactly(now: int, events: seq<Event>, t: State)
    requires Reaches(Init(now), events, t) && Enabled(t, BeginDispatch)
    ensures var id, u := t.fire[0], Step(t, BeginDispatch);
            && (Stop(id) !in events ==> u.running == Some(id) && Started(u, id) == Started(t, id) + 1)
            && (Stop(id) in events ==> u.running == None && Started(u, id) == Started(t, id))
  {
    var id := t.fire[0];
    RunKeepsInv(Init(now), events, t);
    RunKeepsInactive(Init(now), events, t, id, false);
    assert HandleOk(t, id);
    OccurrencesSnoc(t.fire, 0, id);
  }

  // ---- An active timer can run ----

  /** What brings an active handle closer to its callback: a callback that is running ends,
      what is ahead in the channel and in the due slice moves on, and time passes. */
  ghost function NextEvent(s: State, id: nat): Event
    requires id in s.info
  {
    if s.running.Some? then EndDispatch
    else if id in s.fire then BeginDispatch
    else if s.due == [] then if s.info[id].next <= s.now then FireDue else Pass(s.info[id].next - s.now)
    else if |s.fire| < FIRE_CAPACITY then Send
    else BeginDispatch
  }

  function Stage(s: State, id: nat): nat {
    if id in s.fire then 0 else if id in s.due then 1 else 2
  }

  function Early(s: State, id: nat): nat
    requires id in s.info
  {
    if s.info[id].next <= s.now then 0 else 1
  }

  function Busy(s: State): nat { if s.running.Some? then 1 else 0 }

  /** Active, and waiting somewhere for its callback. */
  ghost predicate Waits(s: State, id: nat) {
    id in s.info && s.info[id].active && Places(s, id) == 1 && s.running != Some(id)
  }

  lemma NextIsEnabled(s: State, id: nat)
    requires Inv(s) && Waits(s, id)
    ensures Enabled(s, NextEvent(s, id)) && NextEvent(s, id) != Abandon
  {
    if s.running.Some? {
      assert HandleOk(s, s.running.value);
    }
  }

  /** `s'` is closer to the callback of the handle than `s`. */
  ghost predicate Closer(s: State, s': State, id: nat) {
    && Waits(s, id) && Waits(s', id) && Started(s', id) == Started(s, id)
    && if Stage(s', id) != Stage(s, id) then Stage(s', id) < Stage(s, id)
       else if Early(s', id) != Early(s, id) then Early(s', id) < Early(s, id)
       else if |s'.due| != |s.due| then |s'.due| < |s.due|
       else if |s'.fire| != |s.fire| then |s'.fire| < |s.fire|
       else Busy(s') < Busy(s)
  }

  lemma EndComesCloser(s: State, id: nat)
    requires HandleOk(s, id) && Waits(s, id) && Enabled(s, EndDispatch)
    ensures Closer(s, Step(s, EndDispatch), id)
  {
    DispatchKeepsPlace(s, EndDispatch, id);
    hide Places;
  }

  lemma BeginComesCloser(s: State, id: nat)
    requires HandleOk(s, id) && Waits(s, id) && Enabled(s, BeginDispatch) && s.fire[0] != id
    ensures Closer(s, Step(s, BeginDispatch), id)
  {
    DispatchKeepsPlace(s, BeginDispatch, id);
    assert id in s.fire ==> id in s.fire[1..];
    hide Places;
  }

  lemma SendComesCloser(s: State, id: nat)
    requires HandleOk(s, id) && Waits(s, id) && Enabled(s, Send) && s.running.None? && id !in s.fire
    ensures Closer(s, Step(s, Send), id)
  {
    MovesKeepPlace(s, Send, id);
    assert s.due[0] != id && id in s.due ==> id in s.due[1..];
    hide Places;
  }

  lemma FireComesCloser(s: State, id: nat)
    requires HandleOk(s, id) && Waits(s, id) && Enabled(s, FireDue) && s.running.None?
    requires id !in s.fire && s.info[id].next <= s.now
    ensures Closer(s, Step(s, FireDue), id)
  {
    MovesKeepPlace(s, FireDue, id);
    FilterMembers(IsDue(s.info, s.now), s.timers);
    OccurrencesSnoc(s.timers, 0, id);
    OccurrencesSnoc(s.fire, 0, id);
    OccurrencesSnoc(s.due, 0, id);
    assert id in Step(s, FireDue).due;
    hide Filter, Occurrences;
  }

  lemma PassComesCloser(s: State, id: nat)
    requires HandleOk(s, id) && Waits(s, id) && s.info[id].next > s.now
    ensures Closer(s, Step(s, Pass(s.info[id].next - s.now)), id)
  {
    hide Occurrences;
  }

  /** The next event starts the callback or comes closer to it. */
  lemma NextComesCloser(s: State, id: nat)
    requires Inv(s) && Waits(s, id) && Enabled(s, NextEvent(s, id))
    ensures var s' := Step(s, NextEvent(s, id));
            if s.running.None? && s.fire != [] && s.fire[0] == id then Started(s', id) == Started(s, id) + 1
            else Closer(s, s', id)
  {
    assert HandleOk(s, id);
    if s.running.None? && s.fire != [] && s.fire[0] == id {
      return;
    }
    hide Closer, Step, HandleOk, Places;
    match NextEvent(s, id)
    case EndDispatch => EndComesCloser(s, id);
    case BeginDispatch => BeginComesCloser(s, id);
    case Send => SendComesCloser(s, id);
    case FireDue => FireComesCloser(s, id);
    case Pass(_) => PassComesCloser(s, id);
  }

  /** From every reachable state in which a handle is active and not running, and has not
      been abandoned, its callback can still be started without any other Start or Stop. */
  lemma ActiveTimerCanFire(now: int, before: seq<Event>, s: State, id: nat) returns (events: seq<Event>, t: State)
    requires Reaches(Init(now), before, s) && !Abandons(Init(now), before, id)
    requires id in s.info && s.info[id].active && s.running != Some(id)
    ensures Reaches(s, events, t) && Started(t, id) == Started(s, id) + 1
    ensures forall e <- events :: !e.Start? && !e.Stop? && !e.Abandon?
  {
    RunKeepsInv(Init(now), before, s);
    ActiveIsInOnePlace(now, before, s, id);
    events, t := ActiveCanRun(s, id);
  }

  lemma {:induction false} ActiveCanRun(s: State, id: nat) returns (events: seq<Event>, t: State)
    requires Inv(s) && Waits(s, id)
    ensures Reaches(s, events, t) && Started(t, id) == Started(s, id) + 1
    ensures forall e <- events :: !e.Start? && !e.Stop? && !e.Abandon?
    decreases Stage(s, id), Early(s, id), |s.due|, |s.fire|, Busy(s)
  {
    var e := NextEvent(s, id);
    NextIsEnabled(s, id);
    NextComesCloser(s, id);
    hide HandleOk, Step, Enabled, Places;
    t := Step(s, e);
    StepKeepsInv(s, e);
    var rest: seq<Event> := [];
    if !(s.running.None? && s.fire != [] && s.fire[0] == id) {
      rest, t := ActiveCanRun(t, id);
    }
    events := [e] + rest;
    assert events[1..] == rest;
  }

  // ---- Callbacks are started in the order in which timers fall due ----

  ghost function Fired(s: State, e: Event): seq<nat> {
    if e.FireDue? then Filter(IsDue(s.info, s.now), s.timers) else []
  }

  ghost function Taken(s: State, e: Event): seq<nat> {
    if e.BeginDispatch? && s.fire != [] then [s.fire[0]] else []
  }

  /** The handles that the filter takes out of the list along a run, in order. */
  ghost function AllFired(s: State, events: seq<Event>): seq<nat>
    decreases |events|
  {
    if events == [] || !Enabled(s, events[0]) then []
    else Fired(s, events[0]) + AllFired(Step(s, events[0]), events[1..])
  }

  /** The handles that the loop takes from the channel along a run, in order. */
  ghost function AllTaken(s: State, events: seq<Event>): seq<nat>
    decreases |events|
  {
    if events == [] || !Enabled(s, events[0]) then []
    else Taken(s, events[0]) + AllTaken(Step(s, events[0]), events[1..])
  }

  lemma StepIsFifo(s: State, e: Event)
    requires Enabled(s, e) && !e.Abandon?
    ensures s.fire + s.due + Fired(s, e) == Taken(s, e) + (Step(s, e).fire + Step(s, e).due)
  {
    hide Filter;
    if e.Send? {
      assert s.due == [s.due[0]] + s.due[1..];
    } else if e.BeginDispatch? {
      assert s.fire == [s.fire[0]] + s.fire[1..];
    }
  }

  /** What the loop takes from the channel is, in order, what the filter has taken out of the
      list; the rest is in the channel and then in the due slice, in order. */
  lemma {:induction false} DispatchIsFifo(s: State, events: seq<Event>, t: State)
    requires Reaches(s, events, t) && Abandon !in events
    ensures s.fire + s.due + AllFired(s, events) == AllTaken(s, events) + (t.fire + t.due)
    decreases |events|
  {
    hide Step, Enabled, Fired, Taken;
    if events != [] {
      var e, s', rest := events[0], Step(s, events[0]), events[1..];
      assert e in events && Abandon !in rest;
      StepIsFifo(s, e);
      DispatchIsFifo(s', rest, t);
      calc {
        s.fire + s.due + AllFired(s, events);
        (s.fire + s.due + Fired(s, e)) + AllFired(s', rest);
        Taken(s, e) + (s'.fire + s'.due + AllFired(s', rest));
        AllTaken(s, events) + (t.fire + t.due);
      }
    }
  }
}
