/** The tunnel server: who owns a route, which waiter a response goes to, and which prefix
    a path is routed by. */
module Tunnel {
  import opened Wrappers

  // ---- Longest prefix ----

  predicate HasPrefix(path: string, prefix: string) { prefix <= path }

  /** Visits the registered prefixes in whatever order the map yields them. The result is
      the longest one the path starts with, or "" when it starts with none but perhaps "". */
  method ExtractPrefix(path: string, routes: set<string>) returns (matched: string)
    ensures HasPrefix(path, matched)
    ensures matched != "" ==> matched in routes
    ensures forall p <- routes | HasPrefix(path, p) :: |p| <= |matched|
    ensures forall p <- routes | HasPrefix(path, p) && |p| == |matched| :: p == matched
  {
    matched := "";
    var maxLen := 0;
    var remaining := routes;
    while remaining != {}
      invariant remaining <= routes && maxLen == |matched|
      invariant HasPrefix(path, matched) && (matched != "" ==> matched in routes)
      invariant forall p <- routes - remaining | HasPrefix(path, p) :: |p| <= maxLen
    {
      var prefix :| prefix in remaining;
      remaining := remaining - {prefix};
      if HasPrefix(path, prefix) {
        if |prefix| > maxLen {
          maxLen := |prefix|;
          matched := prefix;
        }
      }
    }
    forall p <- routes | HasPrefix(path, p) && |p| == |matched|
      ensures p == matched
    {
      SameLengthSamePrefix(path, p, matched);
    }
  }

  lemma SameLengthSamePrefix(path: string, p: string, q: string)
    requires HasPrefix(path, p) && HasPrefix(path, q) && |p| == |q|
    ensures p == q
  {
  }

  // ---- Routes ----

  /** A call of OpenTunnel: refused, serving its prefix, or returned. */
  datatype Stream = Rejected | Serving(prefix: string) | Gone

  datatype Routing = Routing(routes: map<string, nat>, streams: map<nat, Stream>)

  /** `prefix` holds the prefixes found in the metadata, of which the first counts. */
  datatype RouteEvent = Open(stream: nat, prefix: seq<string>) | Disconnect(stream: nat)

  predicate RouteEnabled(s: Routing, e: RouteEvent) {
    match e
    case Open(stream, _) => stream !in s.streams
    case Disconnect(stream) => stream in s.streams && s.streams[stream].Serving?
  }

  function RouteStep(s: Routing, e: RouteEvent): Routing
    requires RouteEnabled(s, e)
  {
    match e
    case Open(stream, prefix) =>
      if prefix == [] || prefix[0] in s.routes then s.(streams := s.streams[stream := Rejected])
      else Routing(s.routes[prefix[0] := stream], s.streams[stream := Serving(prefix[0])])
    case Disconnect(stream) =>
      Routing(s.routes - {s.streams[stream].prefix}, s.streams[stream := Gone])
  }

  /** A prefix is routed to a stream exactly when the stream is serving that prefix. */
  ghost predicate RoutesExact(s: Routing) {
    forall p, x :: p in s.routes && s.routes[p] == x <==> x in s.streams && s.streams[x] == Serving(p)
  }

  ghost predicate RouteReaches(s: Routing, events: seq<RouteEvent>, t: Routing)
    decreases |events|
  {
    if events == [] then s == t
    else RouteEnabled(s, events[0]) && RouteReaches(RouteStep(s, events[0]), events[1..], t)
  }

  lemma RouteStepKeeps(s: Routing, e: RouteEvent)
    requires RoutesExact(s) && RouteEnabled(s, e)
    ensures RoutesExact(RouteStep(s, e))
  {
  }

  /** In every reachable state routes[p] is the one stream that was accepted for p and is
      still served, and no other stream is serving p: the deletion on disconnect, which
      goes by the prefix alone, only ever unbinds the stream's own route. */
  lemma {:induction false} RoutesAreOwned(s: Routing, events: seq<RouteEvent>, t: Routing)
    requires RoutesExact(s) && RouteReaches(s, events, t)
    ensures RoutesExact(t)
    decreases |events|
  {
    if events != [] {
      RouteStepKeeps(s, events[0]);
      RoutesAreOwned(RouteStep(s, events[0]), events[1..], t);
    }
  }

  lemma OneStreamPerPrefix(events: seq<RouteEvent>, t: Routing, x: nat, y: nat)
    requires RouteReaches(Routing(map[], map[]), events, t)
    requires x in t.streams && y in t.streams && t.streams[x].Serving? && t.streams[x] == t.streams[y]
    ensures x == y && t.streams[x].prefix in t.routes && t.routes[t.streams[x].prefix] == x
  {
    RoutesAreOwned(Routing(map[], map[]), events, t);
    assert t.streams[x] == Serving(t.streams[x].prefix);
    assert t.streams[y] == Serving(t.streams[x].prefix);
  }

  /** A stream is accepted if and only if it names a prefix that no stream is serving; then
      it serves that prefix. No other stream is affected. */
  lemma OpenExactly(events: seq<RouteEvent>, s: Routing, x: nat, prefix: seq<string>)
    requires RouteReaches(Routing(map[], map[]), events, s) && RouteEnabled(s, Open(x, prefix))
    ensures var accepted := prefix != [] && Serving(prefix[0]) !in s.streams.Values;
            var s' := RouteStep(s, Open(x, prefix));
            && s'.streams == s.streams[x := if accepted then Serving(prefix[0]) else Rejected]
            && s'.routes == if accepted then s.routes[prefix[0] := x] else s.routes
  {
    RoutesAreOwned(Routing(map[], map[]), events, s);
    if prefix != [] && prefix[0] in s.routes {
      var y := s.routes[prefix[0]];
      assert prefix[0] in s.routes && s.routes[prefix[0]] == y;
      assert y in s.streams && s.streams[y] == Serving(prefix[0]);
    }
  }

  /** A stream that disconnects frees its own prefix and no other. */
  lemma DisconnectExactly(events: seq<RouteEvent>, s: Routing, x: nat)
    requires RouteReaches(Routing(map[], map[]), events, s) && RouteEnabled(s, Disconnect(x))
    ensures var s' := RouteStep(s, Disconnect(x));
            && s'.streams == s.streams[x := Gone]
            && s'.routes == map p | p in s.routes && s.routes[p] != x :: s.routes[p]
  {
    RoutesAreOwned(Routing(map[], map[]), events, s);
    var p := s.streams[x].prefix;
    assert p in s.routes && s.routes[p] == x;
    forall q | q in s.routes && s.routes[q] == x
      ensures q == p
    {
      assert x in s.streams && s.streams[x] == Serving(q);
    }
  }

  // ---- Waiters ----

  datatype Response = Response(id: string, body: string)

  /** An HTTP handler with the id it has chosen, its channel (room for one response) and
      the response it has taken from it. */
  datatype Handler = Handler(id: string, channel: Option<Response>, taken: Option<Response>)

  /** `holding` are responses whose receive loop has looked up a channel and not yet tried
      to send. */
  datatype Waiting = Waiting(pool: map<string, nat>, handlers: map<nat, Handler>,
                             holding: map<nat, (Response, nat)>)

  datatype WaitEvent =
    | Register(h: nat, id: string)
    | Unregister(h: nat)
    | Lookup(loop: nat, resp: Response)
    | Send(loop: nat)
    | Take(h: nat)

  predicate WaitEnabled(s: Waiting, e: WaitEvent) {
    match e
    case Register(h, _) => h !in s.handlers
    case Unregister(h) => h in s.handlers
    case Lookup(loop, _) => loop !in s.holding
    case Send(loop) => loop in s.holding && s.holding[loop].1 in s.handlers
    case Take(h) => h in s.handlers && s.handlers[h].channel.Some?
  }

  function WaitStep(s: Waiting, e: WaitEvent): Waiting
    requires WaitEnabled(s, e)
  {
    match e
    case Register(h, id) => s.(pool := s.pool[id := h], handlers := s.handlers[h := Handler(id, None, None)])
    case Unregister(h) => s.(pool := s.pool - {s.handlers[h].id})
    case Lookup(loop, resp) =>
      if resp.id in s.pool then s.(holding := s.holding[loop := (resp, s.pool[resp.id])]) else s
    case Send(loop) =>
      var (resp, h) := s.holding[loop];
      var handler := s.handlers[h];
      var sent := if handler.channel.None? then handler.(channel := Some(resp)) else handler;
      s.(holding := s.holding - {loop}, handlers := s.handlers[h := sent])
    case Take(h) =>
      s.(handlers := s.handlers[h := s.handlers[h].(channel := None, taken := s.handlers[h].channel)])
  }

  ghost predicate Addressed(s: Waiting) {
    && (forall id <- s.pool :: s.pool[id] in s.handlers && s.handlers[s.pool[id]].id == id)
    && (forall l <- s.holding :: s.holding[l].1 in s.handlers && s.handlers[s.holding[l].1].id == s.holding[l].0.id)
    && (forall h <- s.handlers ::
          && (s.handlers[h].channel.Some? ==> s.handlers[h].channel.value.id == s.handlers[h].id)
          && (s.handlers[h].taken.Some? ==> s.handlers[h].taken.value.id == s.handlers[h].id))
  }

  ghost predicate WaitReaches(s: Waiting, events: seq<WaitEvent>, t: Waiting)
    decreases |events|
  {
    if events == [] then s == t
    else WaitEnabled(s, events[0]) && WaitReaches(WaitStep(s, events[0]), events[1..], t)
  }

  lemma {:induction false} RunStaysAddressed(s: Waiting, events: seq<WaitEvent>, t: Waiting)
    requires Addressed(s) && WaitReaches(s, events, t)
    ensures Addressed(t)
    decreases |events|
  {
    if events != [] {
      WaitStepKeeps(s, events[0]);
      RunStaysAddressed(WaitStep(s, events[0]), events[1..], t);
    }
  }

  lemma WaitStepKeeps(s: Waiting, e: WaitEvent)
    requires Addressed(s) && WaitEnabled(s, e)
    ensures Addressed(WaitStep(s, e))
  {
  }

  /** Whatever registrations, time-outs, look-ups and late sends interleave, a handler only
      ever takes a response that carries its own id. */
  lemma HandlerGetsOwnResponse(events: seq<WaitEvent>, t: Waiting, h: nat)
    requires WaitReaches(Waiting(map[], map[], map[]), events, t)
    requires h in t.handlers && t.handlers[h].taken.Some?
    ensures t.handlers[h].taken.value.id == t.handlers[h].id
  {
    RunStaysAddressed(Waiting(map[], map[], map[]), events, t);
  }

  // ---- A response finds its handler ----

  lemma {:induction false} HandlersStay(s: Waiting, events: seq<WaitEvent>, t: Waiting, h: nat)
    requires WaitReaches(s, events, t) && h in s.handlers
    ensures h in t.handlers && t.handlers[h].id == s.handlers[h].id
    decreases |events|
  {
    if events != [] {
      HandlersStay(WaitStep(s, events[0]), events[1..], t, h);
    }
  }

  lemma {:induction false} StaysRegistered(s: Waiting, events: seq<WaitEvent>, t: Waiting, h: nat)
    requires Addressed(s) && WaitReaches(s, events, t) && Unregister(h) !in events
    requires h in s.handlers && s.handlers[h].id in s.pool && s.pool[s.handlers[h].id] == h
    requires forall g <- t.handlers | g != h :: t.handlers[g].id != s.handlers[h].id
    ensures s.handlers[h].id in t.pool && t.pool[s.handlers[h].id] == h
    decreases |events|
  {
    if events != [] {
      var e, s' := events[0], WaitStep(s, events[0]);
      WaitStepKeeps(s, e);
      assert e in events && Unregister(h) !in events[1..];
      if e.Register? {
        HandlersStay(s', events[1..], t, e.h);
      } else if e.Unregister? {
        HandlersStay(s, events, t, e.h);
      }
      StaysRegistered(s', events[1..], t, h);
    }
  }

  /** A handler that registers is found under its id until it unregisters, if no other handler
      chooses the same id. */
  lemma RegisteredIsFound(before: seq<WaitEvent>, s: Waiting, h: nat, id: string, events: seq<WaitEvent>, t: Waiting)
    requires WaitReaches(Waiting(map[], map[], map[]), before, s) && WaitEnabled(s, Register(h, id))
    requires WaitReaches(WaitStep(s, Register(h, id)), events, t) && Unregister(h) !in events
    requires forall g <- t.handlers | g != h :: t.handlers[g].id != id
    ensures id in t.pool && t.pool[id] == h && h in t.handlers && t.handlers[h].id == id
  {
    RunStaysAddressed(Waiting(map[], map[], map[]), before, s);
    WaitStepKeeps(s, Register(h, id));
    StaysRegistered(WaitStep(s, Register(h, id)), events, t, h);
    HandlersStay(WaitStep(s, Register(h, id)), events, t, h);
  }

  /** Once it has unregistered, nobody is found under its id unless it is registered again:
      nothing leaks. */
  lemma UnregisteredIsGone(s: Waiting, h: nat, events: seq<WaitEvent>, t: Waiting)
    requires WaitEnabled(s, Unregister(h)) && WaitReaches(WaitStep(s, Unregister(h)), events, t)
    requires forall g :: Register(g, s.handlers[h].id) !in events
    ensures s.handlers[h].id !in t.pool
  {
    StaysGone(WaitStep(s, Unregister(h)), events, t, s.handlers[h].id);
  }

  lemma {:induction false} StaysGone(s: Waiting, events: seq<WaitEvent>, t: Waiting, id: string)
    requires WaitReaches(s, events, t) && id !in s.pool && forall g :: Register(g, id) !in events
    ensures id !in t.pool
    decreases |events|
  {
    if events != [] {
      assert events[0] in events && forall g :: Register(g, id) !in events[1..];
      StaysGone(WaitStep(s, events[0]), events[1..], t, id);
    }
  }

  /** A response that has been looked up goes to the handler that was registered for its id
      at that time, whatever happens until it is sent; one whose id nobody waits for is
      dropped. */
  lemma LookedUpIsHeld(before: seq<WaitEvent>, s: Waiting, loop: nat, resp: Response, events: seq<WaitEvent>, t: Waiting)
    requires WaitReaches(Waiting(map[], map[], map[]), before, s) && WaitEnabled(s, Lookup(loop, resp))
    requires WaitReaches(WaitStep(s, Lookup(loop, resp)), events, t) && Send(loop) !in events
    ensures resp.id in s.pool ==> WaitEnabled(t, Send(loop)) && t.holding[loop] == (resp, s.pool[resp.id])
    ensures resp.id !in s.pool ==> WaitStep(s, Lookup(loop, resp)) == s
  {
    RunStaysAddressed(Waiting(map[], map[], map[]), before, s);
    if resp.id in s.pool {
      HeldStays(WaitStep(s, Lookup(loop, resp)), events, t, loop);
      HandlersStay(WaitStep(s, Lookup(loop, resp)), events, t, s.pool[resp.id]);
    }
  }

  lemma {:induction false} HeldStays(s: Waiting, events: seq<WaitEvent>, t: Waiting, loop: nat)
    requires WaitReaches(s, events, t) && Send(loop) !in events && loop in s.holding
    ensures loop in t.holding && t.holding[loop] == s.holding[loop]
    decreases |events|
  {
    if events != [] {
      assert events[0] in events && Send(loop) !in events[1..];
      HeldStays(WaitStep(s, events[0]), events[1..], t, loop);
    }
  }

  /** The send never blocks and never replaces a response: the handler takes the one that was
      sent to it first, whatever happens in between. */
  lemma SentIsTaken(s: Waiting, loop: nat, events: seq<WaitEvent>, t: Waiting)
    requires WaitEnabled(s, Send(loop)) && WaitReaches(WaitStep(s, Send(loop)), events, t)
    requires Take(s.holding[loop].1) !in events
    ensures var (resp, h) := s.holding[loop];
            && WaitEnabled(t, Take(h))
            && WaitStep(t, Take(h)).handlers[h].taken ==
               if s.handlers[h].channel.None? then Some(resp) else s.handlers[h].channel
  {
    ChannelStays(WaitStep(s, Send(loop)), events, t, s.holding[loop].1);
  }

  lemma {:induction false} ChannelStays(s: Waiting, events: seq<WaitEvent>, t: Waiting, h: nat)
    requires WaitReaches(s, events, t) && Take(h) !in events
    requires h in s.handlers && s.handlers[h].channel.Some?
    ensures h in t.handlers && t.handlers[h].channel == s.handlers[h].channel
    decreases |events|
  {
    if events != [] {
      assert events[0] in events && Take(h) !in events[1..];
      ChannelStays(WaitStep(s, events[0]), events[1..], t, h);
    }
  }

  /** A response that some loop has received. */
  ghost predicate Arrived(events: seq<WaitEvent>, resp: Response) {
    exists loop :: Lookup(loop, resp) in events
  }

  ghost predicate AllArrived(s: Waiting, events: seq<WaitEvent>) {
    && (forall l <- s.holding :: Arrived(events, s.holding[l].0))
    && (forall h <- s.handlers | s.handlers[h].channel.Some? :: Arrived(events, s.handlers[h].channel.value))
    && (forall h <- s.handlers | s.handlers[h].taken.Some? :: Arrived(events, s.handlers[h].taken.value))
  }

  lemma StepKeepsArrived(s: Waiting, before: seq<WaitEvent>, e: WaitEvent)
    requires AllArrived(s, before) && WaitEnabled(s, e)
    ensures AllArrived(WaitStep(s, e), before + [e])
  {
    forall resp | Arrived(before, resp)
      ensures Arrived(before + [e], resp)
    {
      var loop :| Lookup(loop, resp) in before;
      assert Lookup(loop, resp) in before + [e];
    }
    if e.Lookup? {
      assert e == Lookup(e.loop, e.resp) && e in before + [e];
      assert Arrived(before + [e], e.resp);
    }
  }

  lemma {:induction false} RunKeepsArrived(s: Waiting, before: seq<WaitEvent>, events: seq<WaitEvent>, t: Waiting)
    requires AllArrived(s, before) && WaitReaches(s, events, t)
    ensures AllArrived(t, before + events)
    decreases |events|
  {
    hide AllArrived, WaitStep, WaitEnabled;
    if events == [] {
      assert before + events == before;
    } else {
      StepKeepsArrived(s, before, events[0]);
      RunKeepsArrived(WaitStep(s, events[0]), before + [events[0]], events[1..], t);
      assert before + [events[0]] + events[1..] == before + events;
    }
  }

  /** What a handler takes is a response that has arrived, unaltered. */
  lemma TakenHasArrived(events: seq<WaitEvent>, t: Waiting, h: nat)
    requires WaitReaches(Waiting(map[], map[], map[]), events, t)
    requires h in t.handlers && t.handlers[h].taken.Some?
    ensures exists loop :: Lookup(loop, t.handlers[h].taken.value) in events
  {
    RunKeepsArrived(Waiting(map[], map[], map[]), [], events, t);
    assert [] + events == events;
    assert Arrived(events, t.handlers[h].taken.value);
  }
}
