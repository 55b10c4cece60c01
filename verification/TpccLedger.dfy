/**
 What a run was asked to do against what the tables say: whose orders were taken, whose payments were
 booked, and which carrier delivered an order, for every sequence of steps.
 */
module TpccLedger {
  import opened Options
  import opened TpccFormulas
  import opened TpccState
  import opened TpccInvariant
  import opened TpccRuns
  import opened TpccClient

  // --- New-Orders ---

  /** The customer a New-Order in the district is taken for, if the step is one that commits. */
  function BookedBy(c: Config, step: Step, w: int, d: int): seq<int> {
    match step
    case NewOrderStep(w', d', id) =>
      if (w', d') == (w, d) && InRange(c, w, d) && 1 <= id <= c.customers && 10 * d + 5 <= c.items then [id] else []
    case _ => []
  }

  /** The customers of the New-Orders a run takes in a district, in order. */
  function Booked(c: Config, steps: seq<Step>, w: int, d: int): seq<int> {
    if steps == [] then []
    else Booked(c, steps[..|steps| - 1], w, d) + BookedBy(c, steps[|steps| - 1], w, d)
  }

  /** The orders behind the loaded ones are those New-Orders, each for its customer. */
  ghost predicate OrdersBooked(c: Config, s: State, w: int, d: int, booked: seq<int>) {
    && (w, d) in s.district && s.district[(w, d)].nextOid == c.orders + 1 + |booked|
    && forall o :: c.orders < o < s.district[(w, d)].nextOid ==>
                     (w, d, o) in s.orders && s.orders[(w, d, o)].cid == booked[o - c.orders - 1]
  }

  /** The order ids a customer has. */
  ghost function OrderIds(s: State, w: int, d: int, id: int): set<int> {
    set k | k in s.orders && k.0 == w && k.1 == d && s.orders[k].cid == id :: k.2
  }

  lemma OrderIdsAre(s: State, w: int, d: int, id: int, o: int)
    ensures o in OrderIds(s, w, d, id) <==> (w, d, o) in s.orders && s.orders[(w, d, o)].cid == id
  {
    if (w, d, o) in s.orders { var k := (w, d, o); }
  }

  /** A committed New-Order gives its customer exactly the next order id, and no other customer any. */
  lemma NewOrderBooks(c: Config, s: State, w: int, d: int, id: int, w': int, d': int, id': int)
    requires NewOrderCommits(c, s, w, d, id)
    ensures OrderIds(Next(c, s, NewOrderStep(w, d, id)), w', d', id') ==
            OrderIds(s, w', d', id') +
            if (w', d', id') == (w, d, id) then {s.district[(w, d)].nextOid} else {}
  {
    var t, n := NewOrder(c, s, w, d, id), s.district[(w, d)].nextOid;
    forall o ensures o in OrderIds(t, w', d', id') <==>
                     o in OrderIds(s, w', d', id') || ((w', d', id') == (w, d, id) && o == n)
    {
      OrderIdsAre(t, w', d', id', o);
      OrderIdsAre(s, w', d', id', o);
    }
  }

  lemma NewOrderRow(c: Config, s: State, w: int, d: int, id: int, booked: seq<int>)
    requires NewOrderCommits(c, s, w, d, id) && OrdersBooked(c, s, w, d, booked)
    ensures OrdersBooked(c, NewOrder(c, s, w, d, id), w, d, booked + [id])
  {
    hide NewOrderReads, NoLines, Restocked, WithNewLines;
  }

  lemma SameBooked(c: Config, s: State, t: State, w: int, d: int, booked: seq<int>)
    requires SameKnowledge(s, t, w, d) && OrdersBooked(c, s, w, d, booked)
    ensures OrdersBooked(c, t, w, d, booked)
  {
  }

  lemma ResetBooked(c: Config, s: State, w: int, d: int, booked: seq<int>)
    requires OrdersBooked(c, s, w, d, booked)
    ensures OrdersBooked(c, Next(c, s, Reset), w, d, booked)
  {
  }

  lemma CommitsAsBooked(c: Config, s: State, step: Step, w: int, d: int)
    requires ValidConfig(c) && TablesInv(c, s) && InRange(c, w, d)
    ensures (step.NewOrderStep? && (step.w, step.d) == (w, d) && NewOrderCommits(c, s, w, d, step.id)) <==>
            BookedBy(c, step, w, d) != []
  {
    hide TablesInv, NewOrderCommits;
    if step.NewOrderStep? && (step.w, step.d) == (w, d) { NewOrderCommitsIff(c, s, w, d, step.id); }
  }

  lemma StepBooked(c: Config, s: State, step: Step, w: int, d: int, booked: seq<int>)
    requires ValidConfig(c) && TablesInv(c, s) && InRange(c, w, d) && OrdersBooked(c, s, w, d, booked)
    ensures OrdersBooked(c, Next(c, s, step), w, d, booked + BookedBy(c, step, w, d))
  {
    hide TablesInv, NewOrderCommits, OrdersBooked, NewOrder, SameKnowledge;
    CommitsAsBooked(c, s, step, w, d);
    if BookedBy(c, step, w, d) != [] {
      NewOrderRow(c, s, w, d, step.id, booked);
    } else {
      assert booked + [] == booked;
      if step.Reset? {
        ResetBooked(c, s, w, d, booked);
      } else {
        StepSameKnowledge(c, s, step, w, d);
        SameBooked(c, s, Next(c, s, step), w, d, booked);
      }
    }
  }

  lemma LoadedBooked(c: Config, w: int, d: int)
    requires ValidConfig(c) && InRange(c, w, d)
    ensures OrdersBooked(c, Load(c), w, d, [])
  {
    LoadedNextOid(c, w, d);
  }

  /** After every run the orders behind the loaded ones are the New-Orders of the run, each for its customer. */
  lemma {:induction false} RunBooked(c: Config, steps: seq<Step>, w: int, d: int)
    requires ValidConfig(c) && InRange(c, w, d)
    ensures OrdersBooked(c, Run(c, Load(c), steps), w, d, Booked(c, steps, w, d))
  {
    hide OrdersBooked, Load, Next, BookedBy, TablesInv;
    if steps == [] {
      LoadedBooked(c, w, d);
    } else {
      var past := steps[..|steps| - 1];
      RunBooked(c, past, w, d);
      RunTables(c, past);
      StepBooked(c, Run(c, Load(c), past), steps[|steps| - 1], w, d, Booked(c, past, w, d));
    }
  }

  ghost function Positions(booked: seq<int>, base: int, id: int): set<int> {
    set k | 0 <= k < |booked| && booked[k] == id :: base + k
  }

  lemma {:induction false} PositionsCount(booked: seq<int>, base: int, id: int)
    ensures |Positions(booked, base, id)| == multiset(booked)[id]
  {
    if booked == [] {
      assert Positions(booked, base, id) == {};
    } else {
      var front, last := booked[..|booked| - 1], booked[|booked| - 1];
      PositionsCount(front, base, id);
      assert booked == front + [last];
      assert Positions(booked, base, id) ==
             Positions(front, base, id) + if last == id then {base + |front|} else {};
    }
  }

  /** A customer has as many orders since loading as the run has New-Orders that name the customer. */
  lemma RunOrders(c: Config, steps: seq<Step>, w: int, d: int, id: int)
    requires ValidConfig(c) && InRange(c, w, d)
    ensures var taken := set o | o in OrderIds(Run(c, Load(c), steps), w, d, id) && o > c.orders;
            |taken| == multiset(Booked(c, steps, w, d))[id]
  {
    hide Run, Load, Booked;
    var s, booked := Run(c, Load(c), steps), Booked(c, steps, w, d);
    RunBooked(c, steps, w, d);
    RunTables(c, steps);
    assert DistrictInv(c, s, w, d);
    var taken := set o | o in OrderIds(s, w, d, id) && o > c.orders;
    forall o ensures o in taken <==> o in Positions(booked, c.orders + 1, id) {
      OrderIdsAre(s, w, d, id, o);
      var k := o - c.orders - 1;
      if 0 <= k < |booked| { assert c.orders + 1 + k == o; }
    }
    assert taken == Positions(booked, c.orders + 1, id);
    PositionsCount(booked, c.orders + 1, id);
  }

  // --- Payments ---

  /** The customer a Payment is booked for, if the step is one that commits. */
  function PaidBy(c: Config, step: Step): seq<OrderKey> {
    match step
    case PaymentStep(w, d, id) => if InRange(c, w, d) && 1 <= id <= c.customers then [(w, d, id)] else []
    case _ => []
  }

  function Paid(c: Config, steps: seq<Step>): seq<OrderKey> {
    if steps == [] then [] else Paid(c, steps[..|steps| - 1]) + PaidBy(c, steps[|steps| - 1])
  }

  /** Ten for each payment, in the customer's name. */
  function HistoryOf(paid: seq<OrderKey>): (h: seq<History>)
    ensures |h| == |paid|
    ensures forall i :: 0 <= i < |paid| ==> h[i] == History(paid[i].0, paid[i].1, paid[i].2, 1000)
  {
    if paid == [] then []
    else
      var last := paid[|paid| - 1];
      HistoryOf(paid[..|paid| - 1]) + [History(last.0, last.1, last.2, 1000)]
  }

  /** HISTORY is the loaded rows and one row for each payment; every customer's counter says how many are theirs. */
  ghost predicate PaymentsBooked(c: Config, s: State, paid: seq<OrderKey>) {
    && s.history == LoadedHistory(c.warehouses, c.districts, c.customers) + HistoryOf(paid)
    && forall w, d, id :: InRange(c, w, d) && 1 <= id <= c.customers ==> Counted(s, w, d, id, paid)
  }

  ghost predicate Counted(s: State, w: int, d: int, id: int, paid: seq<OrderKey>) {
    (w, d, id) in s.customer && s.customer[(w, d, id)].paymentCnt == 1 + multiset(paid)[(w, d, id)]
  }

  /** No payment was booked. */
  ghost predicate SamePayments(s: State, t: State) {
    && t.history == s.history
    && (forall k :: k in s.customer <==> k in t.customer)
    && (forall k :: k in s.customer ==> t.customer[k].paymentCnt == s.customer[k].paymentCnt)
  }

  lemma NewOrderSamePayments(c: Config, s: State, w: int, d: int, id: int)
    ensures SamePayments(s, NewOrder(c, s, w, d, id))
  {
    hide NewOrderCommits;
  }

  lemma DeliverySamePayments(c: Config, s: State, w: int, d: int, carrier: int)
    ensures SamePayments(s, Delivery(c, s, w, d, carrier))
  {
    hide DeliveryOutcome, Deliver, MoveCursor, SamePayments;
    match DeliveryOutcome(c, s, w, d)
    case Delivered(o) =>
      OutcomeCommits(c, s, w, d);
      DeliverSamePayments(s, w, d, o, carrier);
    case NotDelivered => MoveSamePayments(c, s, w, d);
  }

  lemma OutcomeCommits(c: Config, s: State, w: int, d: int)
    requires DeliveryOutcome(c, s, w, d).Delivered?
    ensures DeliveryCommits(s, w, d, DeliveryOutcome(c, s, w, d).order)
  {
  }

  lemma DeliverSamePayments(s: State, w: int, d: int, o: int, carrier: int)
    requires DeliveryCommits(s, w, d, o)
    ensures SamePayments(s, Deliver(s, w, d, o, carrier))
  {
    hide LineCount, LineAmount, MarkDelivered;
  }

  lemma MoveSamePayments(c: Config, s: State, w: int, d: int)
    ensures SamePayments(s, MoveCursor(c, s, w, d))
  {
    hide Search;
  }

  lemma StepSamePayments(c: Config, s: State, step: Step)
    requires step.PaymentStep? ==> !PaymentCommits(s, step.w, step.d, step.id)
    ensures SamePayments(s, Next(c, s, step))
  {
    hide NewOrder, Delivery, SearchPart;
    match step
    case NewOrderStep(w, d, id) => NewOrderSamePayments(c, s, w, d, id);
    case DeliveryStep(w, d, carrier) => DeliverySamePayments(c, s, w, d, carrier);
    case _ =>
  }

  lemma SamePaymentsBooked(c: Config, s: State, t: State, paid: seq<OrderKey>)
    requires SamePayments(s, t) && PaymentsBooked(c, s, paid)
    ensures PaymentsBooked(c, t, paid)
  {
    forall w, d, id | InRange(c, w, d) && 1 <= id <= c.customers ensures Counted(t, w, d, id, paid) {
      assert Counted(s, w, d, id, paid);
    }
  }

  lemma PaymentRow(s: State, w: int, d: int, id: int, w': int, d': int, id': int, paid: seq<OrderKey>)
    requires PaymentCommits(s, w, d, id) && Counted(s, w', d', id', paid)
    ensures Counted(Payment(s, w, d, id), w', d', id', paid + [(w, d, id)])
  {
    hide AddYtd;
  }

  lemma PaymentHistory(s: State, w: int, d: int, id: int, loaded: seq<History>, paid: seq<OrderKey>)
    requires PaymentCommits(s, w, d, id) && s.history == loaded + HistoryOf(paid)
    ensures Payment(s, w, d, id).history == loaded + HistoryOf(paid + [(w, d, id)])
  {
    hide AddYtd;
    HistoryAppend(paid, (w, d, id));
    Regrouped(loaded, HistoryOf(paid), [History(w, d, id, 1000)]);
  }

  lemma Regrouped(a: seq<History>, b: seq<History>, c: seq<History>)
    ensures (a + b) + c == a + (b + c)
  {
  }

  lemma HistoryAppend(paid: seq<OrderKey>, k: OrderKey)
    ensures HistoryOf(paid + [k]) == HistoryOf(paid) + [History(k.0, k.1, k.2, 1000)]
  {
    assert (paid + [k])[..|paid|] == paid;
  }

  lemma StepPaid(c: Config, s: State, step: Step, paid: seq<OrderKey>)
    requires KeysInv(c, s) && PaymentsBooked(c, s, paid)
    ensures PaymentsBooked(c, Next(c, s, step), paid + PaidBy(c, step))
  {
    if step.PaymentStep? && PaymentCommits(s, step.w, step.d, step.id) {
      var w, d, id := step.w, step.d, step.id;
      assert PaidBy(c, step) == [(w, d, id)];
      PaymentHistory(s, w, d, id, LoadedHistory(c.warehouses, c.districts, c.customers), paid);
      hide Payment, PaymentCommits, HistoryOf, Counted;
      forall w', d', id' | InRange(c, w', d') && 1 <= id' <= c.customers
        ensures Counted(Payment(s, w, d, id), w', d', id', paid + [(w, d, id)])
      {
        assert Counted(s, w', d', id', paid);
        PaymentRow(s, w, d, id, w', d', id', paid);
      }
    } else {
      hide Next, PaymentsBooked, SamePayments;
      assert paid + PaidBy(c, step) == paid;
      StepSamePayments(c, s, step);
      SamePaymentsBooked(c, s, Next(c, s, step), paid);
    }
  }

  lemma LoadedPaid(c: Config)
    requires ValidConfig(c)
    ensures PaymentsBooked(c, Load(c), [])
  {
    forall w, d, id | InRange(c, w, d) && 1 <= id <= c.customers ensures Counted(Load(c), w, d, id, []) {
      assert (w, d, id) in Load(c).customer;
    }
  }

  /**
   After every run HISTORY is the loaded rows and one row of 10.00 for each committed Payment, in order
   and in its customer's name, and C_PAYMENT_CNT is one more than the number of the customer's.
   */
  lemma {:induction false} RunPaid(c: Config, steps: seq<Step>)
    requires ValidConfig(c)
    ensures PaymentsBooked(c, Run(c, Load(c), steps), Paid(c, steps))
  {
    hide PaymentsBooked, Load, Next, PaidBy, DistrictInv, KeysInv;
    if steps == [] {
      LoadedPaid(c);
    } else {
      var past := steps[..|steps| - 1];
      RunPaid(c, past);
      RunTables(c, past);
      StepPaid(c, Run(c, Load(c), past), steps[|steps| - 1], Paid(c, past));
    }
  }

  // --- Deliveries ---

  /** Adds the order a step delivers, with the carrier the step names. */
  function CarriedBy(c: Config, s: State, step: Step, carried: map<OrderKey, int>): map<OrderKey, int> {
    match step
    case DeliveryStep(w, d, carrier) =>
      (match DeliveryOutcome(c, s, w, d)
       case Delivered(o) => carried[(w, d, o) := carrier]
       case NotDelivered => carried)
    case _ => carried
  }

  /** The orders a run delivers, with their carriers. */
  function Carried(c: Config, steps: seq<Step>): map<OrderKey, int>
    requires ValidConfig(c)
  {
    if steps == [] then map[]
    else
      var past := steps[..|steps| - 1];
      CarriedBy(c, Run(c, Load(c), past), steps[|steps| - 1], Carried(c, past))
  }

  /** O_CARRIER_ID: the carrier of the Delivery that took the order, the loader's for one delivered before, or none. */
  function CarrierOf(c: Config, k: OrderKey, carried: map<OrderKey, int>): Option<int> {
    if k in carried then Some(carried[k])
    else if k.2 <= c.orders - c.newOrders then Some(k.2 % 10 + 1)
    else None
  }

  ghost predicate CarriersAre(c: Config, s: State, carried: map<OrderKey, int>) {
    && (forall k :: k in carried ==> k in s.orders && k !in s.newOrder)
    && (forall k :: k in s.orders ==> s.orders[k].carrier == CarrierOf(c, k, carried))
  }

  /** A Delivery gives the order it takes the carrier it names, and leaves the carrier of every other order. */
  lemma DeliveryCarrier(c: Config, s: State, w: int, d: int, carrier: int, k: OrderKey)
    requires k in s.orders
    ensures var t := Next(c, s, DeliveryStep(w, d, carrier));
            k in t.orders &&
            t.orders[k].carrier == if DeliveryOutcome(c, s, w, d).Delivered? &&
                                      k == (w, d, DeliveryOutcome(c, s, w, d).order)
                                   then Some(carrier) else s.orders[k].carrier
  {
    hide DeliveryOutcome, Deliver, Search;
    match DeliveryOutcome(c, s, w, d)
    case Delivered(o) =>
      OutcomeCommits(c, s, w, d);
      DeliverCarrier(s, w, d, o, carrier, k);
    case NotDelivered =>
  }

  lemma DeliverCarrier(s: State, w: int, d: int, o: int, carrier: int, k: OrderKey)
    requires DeliveryCommits(s, w, d, o) && k in s.orders
    ensures var t := Deliver(s, w, d, o, carrier);
            k in t.orders && t.orders[k].carrier == if k == (w, d, o) then Some(carrier) else s.orders[k].carrier
  {
    hide LineCount, LineAmount, MarkDelivered;
  }

  lemma DeliverCarriers(c: Config, s: State, w: int, d: int, o: int, carrier: int, carried: map<OrderKey, int>)
    requires DeliveryCommits(s, w, d, o) && CarriersAre(c, s, carried)
    ensures (w, d, o) !in carried
    ensures CarriersAre(c, Deliver(s, w, d, o, carrier), carried[(w, d, o) := carrier])
  {
    hide LineCount, LineAmount, MarkDelivered;
  }

  lemma NewOrderCarriers(c: Config, s: State, w: int, d: int, id: int, carried: map<OrderKey, int>)
    requires ValidConfig(c) && TablesInv(c, s) && CarriersAre(c, s, carried)
    ensures CarriersAre(c, NewOrder(c, s, w, d, id), carried)
  {
    hide AllAvailable, NoLines, Restocked, WithNewLines;
    if NewOrderCommits(c, s, w, d, id) {
      assert InRange(c, w, d);
      assert DistrictInv(c, s, w, d);
    }
  }

  lemma StepCarriers(c: Config, s: State, step: Step, carried: map<OrderKey, int>)
    requires ValidConfig(c) && TablesInv(c, s) && CarriersAre(c, s, carried)
    ensures CarriersAre(c, Next(c, s, step), CarriedBy(c, s, step, carried))
  {
    hide TablesInv, NewOrder, Search, SearchPart, DeliveryCommits, Deliver, CarrierOf;
    match step
    case NewOrderStep(w, d, id) => NewOrderCarriers(c, s, w, d, id, carried);
    case DeliveryStep(w, d, carrier) =>
      match DeliveryOutcome(c, s, w, d) {
        case Delivered(o) => DeliverCarriers(c, s, w, d, o, carrier, carried);
        case NotDelivered =>
      }
    case _ =>
  }

  lemma LoadedCarriers(c: Config)
    requires ValidConfig(c)
    ensures CarriersAre(c, Load(c), map[])
  {
  }

  /** After every run each order's carrier is that of the Delivery that took it, the loader's, or none. */
  lemma {:induction false} RunCarriers(c: Config, steps: seq<Step>)
    requires ValidConfig(c)
    ensures CarriersAre(c, Run(c, Load(c), steps), Carried(c, steps))
  {
    hide CarriersAre, Load, Next, CarriedBy, TablesInv;
    if steps == [] {
      LoadedCarriers(c);
    } else {
      var past := steps[..|steps| - 1];
      RunCarriers(c, past);
      RunTables(c, past);
      StepCarriers(c, Run(c, Load(c), past), steps[|steps| - 1], Carried(c, past));
    }
  }

  // --- values ---

  predicate CarriersInRange(steps: seq<Step>) {
    forall i :: 0 <= i < |steps| && steps[i].DeliveryStep? ==> 1 <= steps[i].carrier <= 10
  }

  lemma {:induction false} CarriedInRange(c: Config, steps: seq<Step>)
    requires ValidConfig(c) && CarriersInRange(steps)
    ensures forall k :: k in Carried(c, steps) ==> 1 <= Carried(c, steps)[k] <= 10
  {
    hide Run, Load, DeliveryOutcome;
    if steps != [] {
      CarriedInRange(c, steps[..|steps| - 1]);
      assert steps[|steps| - 1].DeliveryStep? ==> 1 <= steps[|steps| - 1].carrier <= 10;
    }
  }

  /** O_CARRIER_ID stays between 1 and 10 in every run whose Deliveries name such carriers. */
  lemma RunCarriersInRange(c: Config, steps: seq<Step>, k: OrderKey)
    requires ValidConfig(c) && CarriersInRange(steps)
    ensures var s := Run(c, Load(c), steps);
            k in s.orders && s.orders[k].carrier.Some? ==> 1 <= s.orders[k].carrier.value <= 10
  {
    hide Run, Load, Carried;
    RunCarriers(c, steps);
    CarriedInRange(c, steps);
  }

  /** Clause 4.3.3.1: prices from 1.00 to 100.00, amounts from 0.01 to 9999.99 or none for a delivered order. */
  lemma LoadedValues(c: Config, i: int, o: int, n: int)
    ensures 100 <= ItemPrice(i) <= 10000
    ensures if o <= c.orders - c.newOrders then LoadedAmount(c, o, n) == 0 else 1 <= LoadedAmount(c, o, n) <= 999999
    ensures 10 <= LoadedQuantity(i) <= 100
  {
  }

  /** Rows of a load with seed 42: order 2000 of warehouse 2, district 3, and its fourth line. */
  lemma LoadedSample()
    ensures var c := Config(2, 10, 3000, 3000, 900, 100000, 42);
            && LoadedCustomer(c, 3, 2000) == 2052 && LoadedLineCount(c, 2, 3, 2000) == 13
            && LoadedItem(c, 3, 2000, 4) == 74104 && LoadedAmount(c, 2101, 4) == 77790
            && ItemPrice(1000) == 7397 && LoadedQuantity(1000) == 64
  {
  }

  /** After every run: quantity five; loaded amounts as loaded, the others quantity times the item's price. */
  lemma RunLines(c: Config, steps: seq<Step>, w: int, d: int, o: int, n: int)
    requires ValidConfig(c) && InRange(c, w, d)
    ensures var s := Run(c, Load(c), steps);
            (w, d, o, n) in s.lines ==>
              var line := s.lines[(w, d, o, n)];
              && line.quantity == 5
              && line.item == (if o <= c.orders then LoadedItem(c, d, o, n) else 10 * d + n)
              && line.amount == if o <= c.orders then LoadedAmount(c, o, n) else 5 * ItemPrice(10 * d + n)
  {
    hide Run, Load;
    var s := Run(c, Load(c), steps);
    RunTables(c, steps);
    assert DistrictInv(c, s, w, d);
    if (w, d, o, n) in s.lines {
      assert OrderInv(c, s, w, d, o);
      assert LineInv(c, s.lines[(w, d, o, n)], d, o, n, (w, d, o) in s.newOrder);
    }
  }
}
