/** The bidirectional order stream: ids come in, orders are collected per destination, and
    combined shipments go out in batches. */
module ProcessOrders {
  const ORDER_BATCH_SIZE := 3

  datatype Order = Order(id: string, destination: string)
  datatype Shipment = Shipment(id: string, status: string, orders: seq<Order>)

  /** orderMap[id]: an unknown id yields the zero order. */
  function Lookup(orderMap: map<string, Order>, id: string): Order {
    if id in orderMap then orderMap[id] else Order("", "")
  }

  function LookupAll(orderMap: map<string, Order>, ids: seq<string>): (r: seq<Order>)
    ensures |r| == |ids|
  {
    if ids == [] then [] else [Lookup(orderMap, ids[0])] + LookupAll(orderMap, ids[1..])
  }

  /** The orders for one destination, in order of arrival. */
  function For(destination: string, orders: seq<Order>): seq<Order> {
    if orders == [] then []
    else (if orders[0].destination == destination then [orders[0]] else []) + For(destination, orders[1..])
  }

  /** The orders for all other destinations, in order of arrival. */
  function NotFor(destination: string, orders: seq<Order>): seq<Order> {
    if orders == [] then []
    else (if orders[0].destination != destination then [orders[0]] else []) + NotFor(destination, orders[1..])
  }

  function Destinations(orders: seq<Order>): set<string> {
    if orders == [] then {} else {orders[0].destination} + Destinations(orders[1..])
  }

  function Combined(destination: string, orders: seq<Order>): Shipment {
    Shipment("cmb - " + destination, "Processed!", For(destination, orders))
  }

  function OrdersIn(shipments: seq<Shipment>): seq<Order> {
    if shipments == [] then [] else shipments[0].orders + OrdersIn(shipments[1..])
  }

  ghost predicate Visits(route: seq<string>, places: set<string>) {
    && (forall i, j | 0 <= i < j < |route| :: route[i] != route[j])
    && (forall d :: d in route <==> d in places)
  }

  /** `route` lists every destination of the batch once, and the shipments follow it. */
  ghost predicate Ships(batch: seq<Order>, route: seq<string>, shipments: seq<Shipment>) {
    && |route| == |shipments|
    && Visits(route, Destinations(batch))
    && (forall i | 0 <= i < |route| :: shipments[i] == Combined(route[i], batch))
  }

  lemma {:induction false} ForSnoc(d: string, orders: seq<Order>, o: Order)
    ensures For(d, orders + [o]) == if o.destination == d then For(d, orders) + [o] else For(d, orders)
    ensures Destinations(orders + [o]) == Destinations(orders) + {o.destination}
    decreases |orders|
  {
    if orders == [] {
      assert orders + [o] == [o];
    } else {
      var first := if orders[0].destination == d then [orders[0]] else [];
      assert (orders + [o])[1..] == orders[1..] + [o];
      ForSnoc(d, orders[1..], o);
      assert first + (For(d, orders[1..]) + [o]) == For(d, orders) + [o];
    }
  }

  /** The looked-up orders: what the map holds, or the zero order, id by id. */
  lemma {:induction false} LookupAllAt(orderMap: map<string, Order>, ids: seq<string>, i: nat)
    requires i < |ids|
    ensures ids[i] in orderMap ==> LookupAll(orderMap, ids)[i] == orderMap[ids[i]]
    ensures ids[i] !in orderMap ==> LookupAll(orderMap, ids)[i] == Order("", "")
    decreases i
  {
    if i > 0 {
      LookupAllAt(orderMap, ids[1..], i - 1);
    }
  }

  /** The orders for a destination are those that have it, as often as they come. */
  lemma {:induction false} ForExactly(d: string, orders: seq<Order>, o: Order)
    ensures multiset(For(d, orders))[o] == if o.destination == d then multiset(orders)[o] else 0
    decreases |orders|
  {
    if orders != [] {
      ForExactly(d, orders[1..], o);
      assert orders == [orders[0]] + orders[1..];
    }
  }

  /** A shipment of some orders, all for the destination that its id names. */
  ghost predicate Labelled(s: Shipment) {
    && s.orders != [] && s.status == "Processed!"
    && s.id == "cmb - " + s.orders[0].destination
    && forall o <- s.orders :: o.destination == s.orders[0].destination
  }

  lemma {:induction false} SomeFor(d: string, orders: seq<Order>)
    requires d in Destinations(orders)
    ensures For(d, orders) != []
    decreases |orders|
  {
    if orders[0].destination != d {
      SomeFor(d, orders[1..]);
    }
  }

  lemma ShipmentsAreLabelled(batch: seq<Order>, route: seq<string>, shipments: seq<Shipment>)
    requires Ships(batch, route, shipments)
    ensures forall s <- shipments :: Labelled(s)
  {
    hide For, Destinations;
    forall i | 0 <= i < |route|
      ensures Labelled(shipments[i])
    {
      SomeFor(route[i], batch);
      forall o | o in shipments[i].orders
        ensures o.destination == route[i]
      {
        ForExactly(route[i], batch, o);
        assert multiset(For(route[i], batch))[o] > 0;
      }
    }
  }

  lemma {:induction false} Separate(d: string, orders: seq<Order>)
    ensures multiset(For(d, orders)) + multiset(NotFor(d, orders)) == multiset(orders)
    ensures Destinations(NotFor(d, orders)) == Destinations(orders) - {d}
    ensures forall e | e != d :: For(e, NotFor(d, orders)) == For(e, orders)
    decreases |orders|
  {
    if orders != [] {
      assert orders == [orders[0]] + orders[1..];
      Separate(d, orders[1..]);
      SeparateCons(d, orders[0], orders[1..]);
    }
  }

  lemma SeparateCons(d: string, o: Order, rest: seq<Order>)
    requires Destinations(NotFor(d, rest)) == Destinations(rest) - {d}
    requires forall e | e != d :: For(e, NotFor(d, rest)) == For(e, rest)
    ensures Destinations(NotFor(d, [o] + rest)) == Destinations([o] + rest) - {d}
    ensures forall e | e != d :: For(e, NotFor(d, [o] + rest)) == For(e, [o] + rest)
  {
    assert ([o] + rest)[1..] == rest;
    if o.destination == d {
      assert NotFor(d, [o] + rest) == NotFor(d, rest);
    } else {
      assert NotFor(d, [o] + rest) == [o] + NotFor(d, rest);
      assert ([o] + NotFor(d, rest))[1..] == NotFor(d, rest);
    }
  }

  /** The shipments of a batch carry every order of the batch, and each only once. */
  lemma {:induction false} ShipmentsConserve(batch: seq<Order>, route: seq<string>, shipments: seq<Shipment>)
    requires Ships(batch, route, shipments)
    ensures multiset(OrdersIn(shipments)) == multiset(batch)
    decreases |route|
  {
    if route == [] {
      SomeDestination(batch);
    } else {
      Separate(route[0], batch);
      ShipsRest(batch, route, shipments);
      ShipmentsConserve(NotFor(route[0], batch), route[1..], shipments[1..]);
    }
  }

  lemma SomeDestination(orders: seq<Order>)
    ensures orders != [] ==> exists d :: d in Destinations(orders)
  {
    assert orders != [] ==> orders[0].destination in Destinations(orders);
  }

  /** Without the first destination the rest of the shipments serve the rest of the batch. */
  lemma ShipsRest(batch: seq<Order>, route: seq<string>, shipments: seq<Shipment>)
    requires Ships(batch, route, shipments) && route != []
    ensures shipments != [] && shipments[0].orders == For(route[0], batch)
    ensures Ships(NotFor(route[0], batch), route[1..], shipments[1..])
  {
    Separate(route[0], batch);
    TailVisits(route, Destinations(batch));
    TailShipments(batch, route, shipments);
    hide For, NotFor, Destinations, Combined, Visits;
  }

  lemma TailShipments(batch: seq<Order>, route: seq<string>, shipments: seq<Shipment>)
    requires Ships(batch, route, shipments) && route != []
    ensures forall i | 0 <= i < |route[1..]| ::
              shipments[1..][i] == Combined(route[1..][i], NotFor(route[0], batch))
  {
    Separate(route[0], batch);
    hide For, NotFor, Destinations;
    forall i | 0 <= i < |route[1..]|
      ensures shipments[1..][i] == Combined(route[1..][i], NotFor(route[0], batch))
    {
      assert route[1..][i] == route[i + 1] && route[i + 1] != route[0];
      assert For(route[i + 1], NotFor(route[0], batch)) == For(route[i + 1], batch);
    }
  }

  lemma TailVisits(route: seq<string>, places: set<string>)
    requires Visits(route, places) && route != []
    ensures Visits(route[1..], places - {route[0]})
  {
  }

  // ---- Batches ----

  /** The number of messages after which the first and every later batch is shipped. */
  function FirstBatch(): nat { ORDER_BATCH_SIZE }
  function LaterBatch(): nat { ORDER_BATCH_SIZE + 1 }

  /** Orders received but not yet shipped after n messages. */
  function Pending(n: nat): (p: nat)
    ensures p <= n
  {
    if n < FirstBatch() then n else (n - FirstBatch()) % LaterBatch()
  }

  function Marker(n: nat): nat {
    if n < FirstBatch() then n + 1 else Pending(n)
  }

  /** Between messages at most ORDER_BATCH_SIZE orders are pending. */
  lemma PendingBounded(n: nat)
    ensures Pending(n) <= ORDER_BATCH_SIZE
  {
  }

  /** The marker decides when to ship: with the message that makes it due nothing is left
      pending, with any other the pending orders grow by one. */
  lemma MarkerStep(n: nat)
    ensures Marker(n) == ORDER_BATCH_SIZE <==> Pending(n + 1) == 0
    ensures Marker(n) == ORDER_BATCH_SIZE ==> Marker(n + 1) == 0
    ensures Marker(n) != ORDER_BATCH_SIZE ==> Marker(n + 1) == Marker(n) + 1 && Pending(n + 1) == Pending(n) + 1
    ensures Marker(n) == ORDER_BATCH_SIZE ==>
              n + 1 >= FirstBatch() && Pending(n) + 1 == if n < FirstBatch() then FirstBatch() else LaterBatch()
    ensures n + 1 == FirstBatch() ==> Marker(n) == ORDER_BATCH_SIZE
  {
  }

  /** A batch that is shipped before the end of the stream holds ORDER_BATCH_SIZE orders
      exactly when it is the first: the marker restarts at 0, not at 1, so every later one
      holds one order more. */
  lemma BatchSize(n: nat)
    requires Pending(n + 1) == 0
    ensures Pending(n) + 1 == ORDER_BATCH_SIZE <==> n + 1 == ORDER_BATCH_SIZE
    ensures n + 1 != ORDER_BATCH_SIZE ==> Pending(n) + 1 == ORDER_BATCH_SIZE + 1
  {
  }

  // ---- The loop ----

  datatype End = Eof | Failed

  lemma {:induction false} OrdersInConcat(a: seq<Shipment>, b: seq<Shipment>)
    ensures OrdersIn(a + b) == OrdersIn(a) + OrdersIn(b)
    decreases |a|
  {
    if a == [] {
      assert a + b == b;
    } else {
      assert (a + b)[1..] == a[1..] + b;
      OrdersInConcat(a[1..], b);
    }
  }

  lemma {:induction false} LookupAllSnoc(orderMap: map<string, Order>, ids: seq<string>, id: string)
    ensures LookupAll(orderMap, ids + [id]) == LookupAll(orderMap, ids) + [Lookup(orderMap, id)]
    decreases |ids|
  {
    if ids == [] {
      assert ids + [id] == [id];
    } else {
      assert (ids + [id])[1..] == ids[1..] + [id];
      LookupAllSnoc(orderMap, ids[1..], id);
    }
  }

  ghost predicate Collects(combined: map<string, Shipment>, pending: seq<Order>) {
    && combined.Keys == Destinations(pending)
    && forall d <- combined :: combined[d] == Combined(d, pending)
  }

  lemma CollectsOne(combined: map<string, Shipment>, pending: seq<Order>, o: Order)
    requires Collects(combined, pending)
    ensures Collects(AddOrder(combined, o), pending + [o])
  {
    var d := o.destination;
    var c := AddOrder(combined, o);
    if d !in combined {
      NoneFor(d, pending);
    }
    ForSnoc(d, pending, o);
    forall e <- c
      ensures c[e] == Combined(e, pending + [o])
    {
      ForSnoc(e, pending, o);
    }
  }

  lemma {:induction false} NoneFor(d: string, orders: seq<Order>)
    requires d !in Destinations(orders)
    ensures For(d, orders) == []
    decreases |orders|
  {
    if orders != [] {
      NoneFor(d, orders[1..]);
    }
  }

  /** Ships what is combined, in whatever order the map yields it. */
  method SendAll(combined: map<string, Shipment>, ghost pending: seq<Order>) returns (shipments: seq<Shipment>)
    requires Collects(combined, pending)
    ensures exists route :: Ships(pending, route, shipments)
  {
    shipments := [];
    ghost var route := [];
    var remaining := combined.Keys;
    while remaining != {}
      invariant remaining <= combined.Keys && |route| == |shipments|
      invariant Visits(route, combined.Keys - remaining)
      invariant forall i | 0 <= i < |route| :: shipments[i] == Combined(route[i], pending)
    {
      var d :| d in remaining;
      assert d !in route;
      remaining := remaining - {d};
      shipments := shipments + [combined[d]];
      route := route + [d];
    }
    assert Ships(pending, route, shipments);
  }

  /** One round of shipments: the batch it serves and the order in which it was sent. */
  datatype Round = Round(batch: seq<Order>, route: seq<string>, shipments: seq<Shipment>)

  ghost predicate RoundOk(r: Round) { Ships(r.batch, r.route, r.shipments) }

  function AllBatches(rounds: seq<Round>): seq<Order> {
    if rounds == [] then [] else AllBatches(rounds[..|rounds| - 1]) + rounds[|rounds| - 1].batch
  }

  function AllShipments(rounds: seq<Round>): seq<Shipment> {
    if rounds == [] then [] else AllShipments(rounds[..|rounds| - 1]) + rounds[|rounds| - 1].shipments
  }

  lemma {:induction false} RoundsConserve(rounds: seq<Round>)
    requires forall r <- rounds :: RoundOk(r)
    ensures multiset(OrdersIn(AllShipments(rounds))) == multiset(AllBatches(rounds))
    decreases |rounds|
  {
    if rounds != [] {
      var init, last := rounds[..|rounds| - 1], rounds[|rounds| - 1];
      assert last in rounds && forall r <- init :: r in rounds;
      RoundsConserve(init);
      ShipmentsConserve(last.batch, last.route, last.shipments);
      OrdersInConcat(AllShipments(init), last.shipments);
    }
  }

  lemma {:induction false} RoundsAreLabelled(rounds: seq<Round>)
    requires forall r <- rounds :: RoundOk(r)
    ensures forall s <- AllShipments(rounds) :: Labelled(s)
    decreases |rounds|
  {
    hide Labelled, Ships;
    if rounds != [] {
      var init, last := rounds[..|rounds| - 1], rounds[|rounds| - 1];
      assert last in rounds && forall r <- init :: r in rounds;
      RoundsAreLabelled(init);
      ShipmentsAreLabelled(last.batch, last.route, last.shipments);
    }
  }

  lemma RoundsSnoc(rounds: seq<Round>, r: Round)
    ensures AllBatches(rounds + [r]) == AllBatches(rounds) + r.batch
    ensures AllShipments(rounds + [r]) == AllShipments(rounds) + r.shipments
  {
  }

  /** What `sent` is made of: rounds that serve `orders` batch by batch, the first batch of
      ORDER_BATCH_SIZE orders and the others of one more, except for the last round if it
      was sent at the end of the stream. */
  ghost predicate Delivers(rounds: seq<Round>, sent: seq<Shipment>, orders: seq<Order>, end: End) {
    && sent == AllShipments(rounds) && orders == AllBatches(rounds)
    && (forall r <- rounds :: RoundOk(r))
    && (forall i | 0 <= i < |rounds| - (if end.Eof? then 1 else 0) ::
          |rounds[i].batch| == if i == 0 then FirstBatch() else LaterBatch())
  }

  /** After n messages, `received` being the orders looked up: the full batches have been
      shipped and the rest is pending. */
  ghost predicate Progress(rounds: seq<Round>, sent: seq<Shipment>, pending: seq<Order>, received: seq<Order>, n: nat) {
    && Delivers(rounds, sent, AllBatches(rounds), Failed)
    && AllBatches(rounds) + pending == received
    && |pending| == Pending(n)
    && (n < FirstBatch() <==> rounds == [])
  }

  /** One more message that does not complete a batch. */
  lemma ProgressWaits(rounds: seq<Round>, sent: seq<Shipment>, pending: seq<Order>, received: seq<Order>, n: nat, o: Order)
    requires Progress(rounds, sent, pending, received, n) && Marker(n) != ORDER_BATCH_SIZE
    ensures Progress(rounds, sent, pending + [o], received + [o], n + 1)
  {
    MarkerStep(n);
    assert AllBatches(rounds) + (pending + [o]) == received + [o];
  }

  /** One more message that completes a batch, which is shipped. */
  lemma ProgressShips(rounds: seq<Round>, sent: seq<Shipment>, pending: seq<Order>, received: seq<Order>, n: nat, o: Order,
                      r: Round)
    requires Progress(rounds, sent, pending, received, n) && Marker(n) == ORDER_BATCH_SIZE
    requires RoundOk(r) && r.batch == pending + [o]
    ensures Progress(rounds + [r], sent + r.shipments, [], received + [o], n + 1)
  {
    MarkerStep(n);
    RoundsSnoc(rounds, r);
    assert AllBatches(rounds) + (pending + [o]) + [] == received + [o];
  }

  /** The end of the stream, at which the pending orders are shipped, or its failure. */
  lemma ProgressEnds(rounds: seq<Round>, sent: seq<Shipment>, pending: seq<Order>, received: seq<Order>, n: nat, r: Round)
    requires Progress(rounds, sent, pending, received, n)
    ensures |pending| == Pending(n) <= |received|
    ensures Delivers(rounds, sent, received[..|received| - Pending(n)], Failed)
    ensures RoundOk(r) && r.batch == pending ==> Delivers(rounds + [r], sent + r.shipments, received, Eof)
  {
    RoundsSnoc(rounds, r);
    assert received[..|received| - Pending(n)] == AllBatches(rounds);
  }

  lemma DeliversConserves(rounds: seq<Round>, sent: seq<Shipment>, orders: seq<Order>, end: End)
    requires Delivers(rounds, sent, orders, end)
    ensures multiset(OrdersIn(sent)) == multiset(orders) && forall s <- sent :: Labelled(s)
  {
    RoundsConserve(rounds);
    RoundsAreLabelled(rounds);
  }

  /** At the end of the stream the shipments sent carry exactly the orders looked up from the
      received ids; if the stream breaks instead, all but the last few that are pending.
      Every round serves one batch, with one shipment per destination and the orders in the
      order they came in. */
  method Process(orderMap: map<string, Order>, ids: seq<string>, end: End) returns (sent: seq<Shipment>)
    ensures var all := LookupAll(orderMap, ids);
            var served := if end.Eof? then all else all[..|all| - Pending(|ids|)];
            && multiset(OrdersIn(sent)) == multiset(served)
            && exists rounds :: Delivers(rounds, sent, served, end)
    ensures forall s <- sent :: Labelled(s)
  {
    hide Labelled, Ships, RoundOk, Collects, Progress, Delivers, LookupAll, Lookup, OrdersIn, Marker, Pending, AddOrder;
    sent := [];
    ghost var rounds, pending := [], [];
    NothingYet(orderMap);
    var batchMarker := 1;
    var combined: map<string, Shipment> := map[];
    assert ids[..0] == [];
    for i := 0 to |ids|
      invariant batchMarker == Marker(i)
      invariant Collects(combined, pending)
      invariant Progress(rounds, sent, pending, LookupAll(orderMap, ids[..i]), i)
    {
      MarkerStep(i);
      LookupAllSnoc(orderMap, ids[..i], ids[i]);
      assert ids[..i + 1] == ids[..i] + [ids[i]];
      var order := Lookup(orderMap, ids[i]);
      CollectsOne(combined, pending, order);
      combined := AddOrder(combined, order);
      if batchMarker == ORDER_BATCH_SIZE {
        var shipments := SendAll(combined, pending + [order]);
        ghost var r := NewRound(pending + [order], shipments);
        ProgressShips(rounds, sent, pending, LookupAll(orderMap, ids[..i]), i, order, r);
        sent, rounds, pending := sent + shipments, rounds + [r], [];
        batchMarker := 0;
        combined := map[];
      } else {
        ProgressWaits(rounds, sent, pending, LookupAll(orderMap, ids[..i]), i, order);
        pending := pending + [order];
        batchMarker := batchMarker + 1;
      }
    }
    assert ids[..|ids|] == ids;
    ghost var all := LookupAll(orderMap, ids);
    if end.Failed? {
      ProgressEnds(rounds, sent, pending, all, |ids|, Round([], [], []));
      DeliversConserves(rounds, sent, all[..|all| - Pending(|ids|)], Failed);
      return;
    }
    var shipments := SendAll(combined, pending);
    ghost var r := NewRound(pending, shipments);
    ProgressEnds(rounds, sent, pending, all, |ids|, r);
    sent, rounds := sent + shipments, rounds + [r];
    DeliversConserves(rounds, sent, all, Eof);
  }

  ghost function NewRound(batch: seq<Order>, shipments: seq<Shipment>): (r: Round)
    requires exists route :: Ships(batch, route, shipments)
    ensures RoundOk(r) && r.batch == batch && r.shipments == shipments
  {
    var route :| Ships(batch, route, shipments);
    Round(batch, route, shipments)
  }

  /** The order joins the shipment for its destination, or starts it. */
  function AddOrder(combined: map<string, Shipment>, o: Order): map<string, Shipment> {
    var d := o.destination;
    if d in combined
    then combined[d := combined[d].(orders := combined[d].orders + [o])]
    else combined[d := Shipment("cmb - " + d, "Processed!", [o])]
  }

  lemma NothingYet(orderMap: map<string, Order>)
    ensures Marker(0) == 1 && Collects(map[], []) && Progress([], [], [], LookupAll(orderMap, []), 0)
  {
  }
}
