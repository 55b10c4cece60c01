/** C_DELIVERY_CNT over every run: how many of the customer's orders were delivered since loading. */
module TpccDeliveries {
  import opened TpccFormulas
  import opened TpccState
  import opened TpccInvariant
  import opened TpccRuns

  /** The customer's orders that have a carrier and were not delivered before the run. */
  ghost function DeliveredOrders(c: Config, s: State, w: int, d: int, id: int): set<int> {
    set k | k in s.orders && k.0 == w && k.1 == d && LoadedDelivered(c) < k.2 &&
            s.orders[k].cid == id && s.orders[k].carrier.Some? :: k.2
  }

  ghost predicate CountHolds(c: Config, s: State, w: int, d: int, id: int) {
    (w, d, id) in s.customer && s.customer[(w, d, id)].deliveryCnt == |DeliveredOrders(c, s, w, d, id)|
  }

  ghost predicate CountInv(c: Config, s: State) {
    forall w, d, id :: InRange(c, w, d) && 1 <= id <= c.customers ==> CountHolds(c, s, w, d, id)
  }

  lemma IsDelivered(c: Config, s: State, w: int, d: int, id: int, o: int)
    ensures o in DeliveredOrders(c, s, w, d, id) <==>
            LoadedDelivered(c) < o && (w, d, o) in s.orders && s.orders[(w, d, o)].cid == id &&
            s.orders[(w, d, o)].carrier.Some?
  {
    if (w, d, o) in s.orders { var k := (w, d, o); }
  }

  lemma LoadedCounts(c: Config)
    requires ValidConfig(c)
    ensures CountInv(c, Load(c))
  {
    forall w, d, id | InRange(c, w, d) && 1 <= id <= c.customers ensures CountHolds(c, Load(c), w, d, id) {
      forall o ensures o !in DeliveredOrders(c, Load(c), w, d, id) {
        IsDelivered(c, Load(c), w, d, id, o);
        LoadedOrderRow(c, w, d, o);
      }
      assert DeliveredOrders(c, Load(c), w, d, id) == {};
      assert (w, d, id) in Load(c).customer;
    }
  }

  /** No order of the customer got a carrier, and the counter did not move. */
  lemma SameCount(c: Config, s: State, t: State, w: int, d: int, id: int)
    requires CountHolds(c, s, w, d, id)
    requires (w, d, id) in t.customer && t.customer[(w, d, id)].deliveryCnt == s.customer[(w, d, id)].deliveryCnt
    requires forall o :: (w, d, o) in t.orders && t.orders[(w, d, o)].carrier.Some? <==>
                         (w, d, o) in s.orders && s.orders[(w, d, o)].carrier.Some?
    requires forall o :: (w, d, o) in s.orders && (w, d, o) in t.orders ==>
               t.orders[(w, d, o)].cid == s.orders[(w, d, o)].cid
    ensures CountHolds(c, t, w, d, id)
  {
    forall o ensures o in DeliveredOrders(c, t, w, d, id) <==> o in DeliveredOrders(c, s, w, d, id) {
      IsDelivered(c, t, w, d, id, o);
      IsDelivered(c, s, w, d, id, o);
    }
    assert DeliveredOrders(c, t, w, d, id) == DeliveredOrders(c, s, w, d, id);
  }

  /** Which orders count after a Delivery. */
  lemma DeliveredAfter(c: Config, s: State, w: int, d: int, o: int, carrier: int, w': int, d': int, id: int, p: int)
    requires DeliveryCommits(s, w, d, o) && LoadedDelivered(c) < o
    ensures p in DeliveredOrders(c, Deliver(s, w, d, o, carrier), w', d', id) <==>
            p in DeliveredOrders(c, s, w', d', id) ||
            (p == o && (w', d') == (w, d) && s.orders[(w, d, o)].cid == id)
  {
    hide LineCount, LineAmount, MarkDelivered, DeliveredOrders;
    IsDelivered(c, Deliver(s, w, d, o, carrier), w', d', id, p);
    IsDelivered(c, s, w', d', id, p);
  }

  lemma DeliverCounts(c: Config, s: State, w: int, d: int, o: int, carrier: int, w': int, d': int, id: int)
    requires ValidConfig(c) && TablesInv(c, s) && DeliveryCommits(s, w, d, o) && CountHolds(c, s, w', d', id)
    ensures CountHolds(c, Deliver(s, w, d, o, carrier), w', d', id)
  {
    hide LineCount, LineAmount, MarkDelivered, DeliveredOrders, LineInv;
    assert DistrictInv(c, s, w, d) && OrderInv(c, s, w, d, o);
    var before, after := DeliveredOrders(c, s, w', d', id),
                         DeliveredOrders(c, Deliver(s, w, d, o, carrier), w', d', id);
    forall p { DeliveredAfter(c, s, w, d, o, carrier, w', d', id, p); }
    IsDelivered(c, s, w', d', id, o);
    if (w', d') == (w, d) && s.orders[(w, d, o)].cid == id {
      assert after == before + {o} && o !in before;
    } else {
      assert after == before;
    }
  }

  lemma NewOrderCounts(c: Config, s: State, w: int, d: int, id: int, w': int, d': int, id': int)
    requires CountHolds(c, s, w', d', id')
    ensures CountHolds(c, NewOrder(c, s, w, d, id), w', d', id')
  {
    hide CountHolds, AllAvailable, NoLines, WithNewLines, Restocked, NewItems;
    if NewOrderCommits(c, s, w, d, id) {
      CounterKept(c, s, w', d', id');
      SameCount(c, s, NewOrder(c, s, w, d, id), w', d', id');
    }
  }

  lemma CounterKept(c: Config, s: State, w: int, d: int, id: int)
    requires CountHolds(c, s, w, d, id)
    ensures (w, d, id) in s.customer
  {
  }

  lemma PaymentCounts(c: Config, s: State, w: int, d: int, id: int, w': int, d': int, id': int)
    requires CountHolds(c, s, w', d', id')
    ensures CountHolds(c, Payment(s, w, d, id), w', d', id')
  {
    hide CountHolds;
    CounterKept(c, s, w', d', id');
    SameCount(c, s, Payment(s, w, d, id), w', d', id');
  }

  lemma StepCount(c: Config, s: State, step: Step, w: int, d: int, id: int)
    requires ValidConfig(c) && TablesInv(c, s) && CountHolds(c, s, w, d, id)
    ensures CountHolds(c, Next(c, s, step), w, d, id)
  {
    hide CountHolds, NewOrder, Payment, Deliver, Search, SearchPart, TablesInv;
    CounterKept(c, s, w, d, id);
    match step
    case NewOrderStep(w', d', id') => NewOrderCounts(c, s, w', d', id', w, d, id);
    case PaymentStep(w', d', id') => PaymentCounts(c, s, w', d', id', w, d, id);
    case DeliveryStep(w', d', carrier) =>
      match DeliveryOutcome(c, s, w', d') {
        case Delivered(o) => DeliverCounts(c, s, w', d', o, carrier, w, d, id);
        case NotDelivered => SameCount(c, s, MoveCursor(c, s, w', d'), w, d, id);
      }
    case Publish(w', d') => SameCount(c, s, AddYtd(s, w', d'), w, d, id);
    case AbortDelivery(w', d', looks) => SameCount(c, s, LeaveCursor(c, s, w', d', looks), w, d, id);
    case Abort =>
    case Reset => SameCount(c, s, Next(c, s, step), w, d, id);
  }

  /** After every run a customer's delivery count is the number of their orders delivered since loading. */
  lemma {:induction false} RunCounts(c: Config, steps: seq<Step>)
    requires ValidConfig(c)
    ensures CountInv(c, Run(c, Load(c), steps))
  {
    hide CountHolds, Next, Load;
    if steps == [] {
      LoadedCounts(c);
    } else {
      var past, last := steps[..|steps| - 1], steps[|steps| - 1];
      RunCounts(c, past);
      RunTables(c, past);
      var s := Run(c, Load(c), past);
      forall w, d, id | InRange(c, w, d) && 1 <= id <= c.customers ensures CountHolds(c, Next(c, s, last), w, d, id) {
        StepCount(c, s, last, w, d, id);
      }
    }
  }
}
