/**
 Conservation of money over every run: customer balances against delivered order lines and payments,
 district and warehouse totals against each other and against the history table.
 */
module TpccMoney {
  import opened TpccFormulas
  import opened TpccState
  import opened TpccInvariant
  import opened TpccRuns

  /** Whose payments are added up. */
  datatype Scope = OfWarehouse(w: int) | OfDistrict(w: int, d: int) | OfCustomer(w: int, d: int, id: int)

  predicate Covers(sc: Scope, h: History) {
    match sc
    case OfWarehouse(w) => h.w == w
    case OfDistrict(w, d) => h.w == w && h.d == d
    case OfCustomer(w, d, id) => h.w == w && h.d == d && h.c == id
  }

  function HistSum(hs: seq<History>, sc: Scope): int {
    if hs == [] then 0
    else HistSum(hs[..|hs| - 1], sc) + if Covers(sc, hs[|hs| - 1]) then hs[|hs| - 1].amount else 0
  }

  /** OL_AMOUNT over the first `n` lines of an order that have a delivery date. */
  function OrderDelivered(lines: map<LineKey, Line>, w: int, d: int, o: int, n: nat): int {
    if n == 0 then 0
    else OrderDelivered(lines, w, d, o, n - 1) +
         if (w, d, o, n) in lines && lines[(w, d, o, n)].delivered.Some? then lines[(w, d, o, n)].amount else 0
  }

  /** What order `o` adds to the delivered total of a customer. */
  function Contribution(s: State, w: int, d: int, id: int, o: int): int {
    if (w, d, o) in s.orders && s.orders[(w, d, o)].cid == id then OrderDelivered(s.lines, w, d, o, MAX_LINES) else 0
  }

  /** OL_AMOUNT over all delivered lines of a customer's orders with ids below `n`. */
  function CustomerDelivered(s: State, w: int, d: int, id: int, n: int): int
    decreases if n > 1 then n else 0
  {
    if n <= 1 then 0 else CustomerDelivered(s, w, d, id, n - 1) + Contribution(s, w, d, id, n - 1)
  }

  function YtdSum(s: State, w: int, n: nat): int {
    if n == 0 then 0 else YtdSum(s, w, n - 1) + if (w, n) in s.district then s.district[(w, n)].ytd else 0
  }

  /** Clauses 3.3.2.12 and 3.3.2.10: what a customer owes and has paid. */
  ghost predicate CustomerMoney(s: State, w: int, d: int, id: int) {
    && (w, d) in s.district && (w, d, id) in s.customer
    && var cust := s.customer[(w, d, id)];
    && cust.balance + cust.ytdPayment == CustomerDelivered(s, w, d, id, s.district[(w, d)].nextOid)
    && cust.ytdPayment == HistSum(s.history, OfCustomer(w, d, id)) && cust.ytdPayment == PAYMENT * cust.paymentCnt
  }

  // --- published updates ---

  /** The warehouse and district updates that a run made permanent without a Payment. */
  function Leaks(steps: seq<Step>): seq<DistrictKey> {
    if steps == [] then [] else Leaks(steps[..|steps| - 1]) + LeakOf(steps[|steps| - 1])
  }

  function LeakOf(step: Step): seq<DistrictKey> {
    if step.Publish? then [(step.w, step.d)] else []
  }

  /** Those of a warehouse, of a district, and of a warehouse for districts it does not have. */
  datatype Place = InWarehouse(w: int) | InDistrict(w: int, d: int) | OutsideDistricts(w: int, districts: nat)

  predicate FallsIn(place: Place, leak: DistrictKey) {
    match place
    case InWarehouse(w) => leak.0 == w
    case InDistrict(w, d) => leak == (w, d)
    case OutsideDistricts(w, n) => leak.0 == w && !(1 <= leak.1 <= n)
  }

  function LeakCount(leaks: seq<DistrictKey>, place: Place): nat {
    if leaks == [] then 0
    else LeakCount(leaks[..|leaks| - 1], place) + if FallsIn(place, leaks[|leaks| - 1]) then 1 else 0
  }

  lemma LeakCountOne(leaks: seq<DistrictKey>, leak: DistrictKey, place: Place)
    ensures LeakCount(leaks + [leak], place) == LeakCount(leaks, place) + if FallsIn(place, leak) then 1 else 0
  {
    assert (leaks + [leak])[..|leaks|] == leaks;
  }

  ghost predicate DistrictMoney(c: Config, s: State, w: int, d: int, leaks: seq<DistrictKey>) {
    && (w, d) in s.district
    && s.district[(w, d)].ytd - HistSum(s.history, OfDistrict(w, d)) ==
       LOADED_DISTRICT_YTD - c.customers * PAYMENT + PAYMENT * LeakCount(leaks, InDistrict(w, d))
  }

  ghost predicate WarehouseMoney(c: Config, s: State, w: int, leaks: seq<DistrictKey>) {
    && w in s.warehouse
    && s.warehouse[w] - YtdSum(s, w, c.districts) ==
       LOADED_WAREHOUSE_YTD - c.districts * LOADED_DISTRICT_YTD +
       PAYMENT * LeakCount(leaks, OutsideDistricts(w, c.districts))
    && s.warehouse[w] - HistSum(s.history, OfWarehouse(w)) ==
       LOADED_WAREHOUSE_YTD - c.districts * (c.customers * PAYMENT) + PAYMENT * LeakCount(leaks, InWarehouse(w))
  }

  ghost predicate MoneyInv(c: Config, s: State, leaks: seq<DistrictKey>) {
    && (forall w, d, id :: InRange(c, w, d) && 1 <= id <= c.customers ==> CustomerMoney(s, w, d, id))
    && (forall w, d :: InRange(c, w, d) ==> DistrictMoney(c, s, w, d, leaks))
    && (forall w :: 1 <= w <= c.warehouses ==> WarehouseMoney(c, s, w, leaks))
  }

  // --- sums ---

  lemma {:induction false} HistSumAppend(a: seq<History>, b: seq<History>, sc: Scope)
    ensures HistSum(a + b, sc) == HistSum(a, sc) + HistSum(b, sc)
  {
    if b == [] {
      assert a + b == a;
    } else {
      assert (a + b)[..|a + b| - 1] == a + b[..|b| - 1];
      HistSumAppend(a, b[..|b| - 1], sc);
    }
  }

  lemma HistSumOne(a: seq<History>, h: History, sc: Scope)
    ensures HistSum(a + [h], sc) == HistSum(a, sc) + if Covers(sc, h) then h.amount else 0
  {
    assert (a + [h])[..|a|] == a;
  }

  lemma {:induction false} OrderDeliveredFrame(lines: map<LineKey, Line>, lines': map<LineKey, Line>,
                                               w: int, d: int, o: int, n: nat)
    requires forall k :: (w, d, o, k) in lines <==> (w, d, o, k) in lines'
    requires forall k :: (w, d, o, k) in lines ==> lines[(w, d, o, k)] == lines'[(w, d, o, k)]
    ensures OrderDelivered(lines', w, d, o, n) == OrderDelivered(lines, w, d, o, n)
  {
    if n > 0 { OrderDeliveredFrame(lines, lines', w, d, o, n - 1); }
  }

  lemma {:induction false} NothingDelivered(lines: map<LineKey, Line>, w: int, d: int, o: int, n: nat)
    requires forall k :: (w, d, o, k) in lines ==> lines[(w, d, o, k)].delivered.None?
    ensures OrderDelivered(lines, w, d, o, n) == 0
  {
    if n > 0 { NothingDelivered(lines, w, d, o, n - 1); }
  }

  lemma {:induction false} NothingToPay(lines: map<LineKey, Line>, w: int, d: int, o: int, n: nat)
    requires forall k :: (w, d, o, k) in lines ==> lines[(w, d, o, k)].amount == 0
    ensures OrderDelivered(lines, w, d, o, n) == 0
  {
    if n > 0 { NothingToPay(lines, w, d, o, n - 1); }
  }

  /** Once marked, all of an order's amounts count as delivered. */
  lemma {:induction false} EverythingDelivered(lines: map<LineKey, Line>, w: int, d: int, o: int, n: nat)
    ensures OrderDelivered(MarkDelivered(lines, w, d, o), w, d, o, n) == LineAmount(lines, w, d, o, n)
  {
    if n > 0 { EverythingDelivered(lines, w, d, o, n - 1); }
  }

  lemma {:induction false} CustomerDeliveredFrame(s: State, t: State, w: int, d: int, id: int, n: int)
    requires forall o :: 1 <= o < n ==> Contribution(t, w, d, id, o) == Contribution(s, w, d, id, o)
    ensures CustomerDelivered(t, w, d, id, n) == CustomerDelivered(s, w, d, id, n)
    decreases if n > 1 then n else 0
  {
    if n > 1 { CustomerDeliveredFrame(s, t, w, d, id, n - 1); }
  }

  /** One order's contribution changed, the others' did not. */
  lemma {:induction false} CustomerDeliveredChange(s: State, t: State, w: int, d: int, id: int, n: int, p: int)
    requires 1 <= p < n
    requires forall o :: 1 <= o < n && o != p ==> Contribution(t, w, d, id, o) == Contribution(s, w, d, id, o)
    ensures CustomerDelivered(t, w, d, id, n) - CustomerDelivered(s, w, d, id, n) ==
            Contribution(t, w, d, id, p) - Contribution(s, w, d, id, p)
    decreases n
  {
    if p == n - 1 {
      CustomerDeliveredFrame(s, t, w, d, id, n - 1);
    } else {
      CustomerDeliveredChange(s, t, w, d, id, n - 1, p);
    }
  }

  lemma {:induction false} YtdSumFrame(s: State, t: State, w: int, n: nat)
    requires forall d :: 1 <= d <= n ==> ((w, d) in t.district <==> (w, d) in s.district)
    requires forall d :: 1 <= d <= n && (w, d) in s.district ==> t.district[(w, d)].ytd == s.district[(w, d)].ytd
    ensures YtdSum(t, w, n) == YtdSum(s, w, n)
  {
    if n > 0 { YtdSumFrame(s, t, w, n - 1); }
  }

  // --- the loaded state ---

  lemma {:induction false} DistrictHistorySums(w: int, d: int, n: nat, sc: Scope)
    ensures HistSum(DistrictHistory(w, d, n), sc) ==
            match sc
            case OfWarehouse(w') => if w' == w then n * PAYMENT else 0
            case OfDistrict(w', d') => if w' == w && d' == d then n * PAYMENT else 0
            case OfCustomer(w', d', id) => if w' == w && d' == d && 1 <= id <= n then PAYMENT else 0
  {
    if n > 0 {
      DistrictHistorySums(w, d, n - 1, sc);
      HistSumOne(DistrictHistory(w, d, n - 1), History(w, d, n, PAYMENT), sc);
    }
  }

  lemma {:induction false} WarehouseHistorySums(w: int, n: nat, customers: nat, sc: Scope)
    ensures HistSum(WarehouseHistory(w, n, customers), sc) ==
            match sc
            case OfWarehouse(w') => if w' == w then n * (customers * PAYMENT) else 0
            case OfDistrict(w', d') => if w' == w && 1 <= d' <= n then customers * PAYMENT else 0
            case OfCustomer(w', d', id) => if w' == w && 1 <= d' <= n && 1 <= id <= customers then PAYMENT else 0
  {
    if n > 0 {
      WarehouseHistorySums(w, n - 1, customers, sc);
      DistrictHistorySums(w, n, customers, sc);
      HistSumAppend(WarehouseHistory(w, n - 1, customers), DistrictHistory(w, n, customers), sc);
      assert n * (customers * PAYMENT) == (n - 1) * (customers * PAYMENT) + customers * PAYMENT;
    }
  }

  lemma {:induction false} LoadedHistorySums(n: nat, districts: nat, customers: nat, sc: Scope)
    ensures HistSum(LoadedHistory(n, districts, customers), sc) ==
            match sc
            case OfWarehouse(w') => if 1 <= w' <= n then districts * (customers * PAYMENT) else 0
            case OfDistrict(w', d') => if 1 <= w' <= n && 1 <= d' <= districts then customers * PAYMENT else 0
            case OfCustomer(w', d', id) =>
              if 1 <= w' <= n && 1 <= d' <= districts && 1 <= id <= customers then PAYMENT else 0
  {
    if n > 0 {
      LoadedHistorySums(n - 1, districts, customers, sc);
      WarehouseHistorySums(n, districts, customers, sc);
      HistSumAppend(LoadedHistory(n - 1, districts, customers), WarehouseHistory(n, districts, customers), sc);
    }
  }

  lemma LoadedContribution(c: Config, w: int, d: int, id: int, o: int)
    requires ValidConfig(c) && InRange(c, w, d) && 1 <= o <= c.orders
    ensures Contribution(Load(c), w, d, id, o) == 0
  {
    var lines := Load(c).lines;
    forall k | (w, d, o, k) in lines ensures lines[(w, d, o, k)] == LoadedLine(c, d, o, k) {
      LoadedLineRow(c, w, d, o, k);
    }
    if o <= LoadedDelivered(c) {
      NothingToPay(lines, w, d, o, MAX_LINES);
    } else {
      NothingDelivered(lines, w, d, o, MAX_LINES);
    }
  }

  lemma {:induction false} LoadedDeliveredSum(c: Config, w: int, d: int, id: int, n: int)
    requires ValidConfig(c) && InRange(c, w, d) && n <= c.orders + 1
    ensures CustomerDelivered(Load(c), w, d, id, n) == 0
    decreases if n > 1 then n else 0
  {
    if n > 1 {
      LoadedDeliveredSum(c, w, d, id, n - 1);
      LoadedContribution(c, w, d, id, n - 1);
    }
  }

  lemma {:induction false} LoadedYtdSum(c: Config, w: int, n: nat)
    requires ValidConfig(c) && 1 <= w <= c.warehouses && n <= c.districts
    ensures YtdSum(Load(c), w, n) == n * LOADED_DISTRICT_YTD
  {
    if n > 0 {
      LoadedYtdSum(c, w, n - 1);
      assert (w, n) in Load(c).district;
    }
  }

  lemma LoadedCustomerMoney(c: Config, w: int, d: int, id: int)
    requires ValidConfig(c) && InRange(c, w, d) && 1 <= id <= c.customers
    ensures CustomerMoney(Load(c), w, d, id)
  {
    LoadedDeliveredSum(c, w, d, id, c.orders + 1);
    LoadedHistorySums(c.warehouses, c.districts, c.customers, OfCustomer(w, d, id));
    assert (w, d, id) in Load(c).customer && (w, d) in Load(c).district;
  }

  lemma LoadedTotals(c: Config, w: int)
    requires ValidConfig(c) && 1 <= w <= c.warehouses
    ensures WarehouseMoney(c, Load(c), w, [])
    ensures forall d :: InRange(c, w, d) ==> DistrictMoney(c, Load(c), w, d, [])
  {
    LoadedHistorySums(c.warehouses, c.districts, c.customers, OfWarehouse(w));
    LoadedYtdSum(c, w, c.districts);
    assert w in Load(c).warehouse;
    forall d | InRange(c, w, d) ensures DistrictMoney(c, Load(c), w, d, []) {
      LoadedHistorySums(c.warehouses, c.districts, c.customers, OfDistrict(w, d));
      assert (w, d) in Load(c).district;
    }
  }

  lemma LoadedMoney(c: Config)
    requires ValidConfig(c)
    ensures MoneyInv(c, Load(c), [])
  {
    hide Load, CustomerMoney, DistrictMoney, WarehouseMoney;
    forall w, d, id | InRange(c, w, d) && 1 <= id <= c.customers { LoadedCustomerMoney(c, w, d, id); }
    forall w, d | InRange(c, w, d) ensures DistrictMoney(c, Load(c), w, d, []) { LoadedTotals(c, w); }
    forall w | 1 <= w <= c.warehouses ensures WarehouseMoney(c, Load(c), w, []) { LoadedTotals(c, w); }
  }

  // --- the steps ---

  /** An order whose rows did not change contributes the same. */
  lemma ContributionFrame(s: State, t: State, w: int, d: int, id: int, o: int)
    requires (w, d, o) in s.orders <==> (w, d, o) in t.orders
    requires (w, d, o) in s.orders ==> s.orders[(w, d, o)].cid == t.orders[(w, d, o)].cid
    requires forall k :: (w, d, o, k) in s.lines <==> (w, d, o, k) in t.lines
    requires forall k :: (w, d, o, k) in s.lines ==> s.lines[(w, d, o, k)] == t.lines[(w, d, o, k)]
    ensures Contribution(t, w, d, id, o) == Contribution(s, w, d, id, o)
  {
    OrderDeliveredFrame(s.lines, t.lines, w, d, o, MAX_LINES);
  }

  lemma SameDistrictDelivered(s: State, t: State, w: int, d: int, id: int, n: int)
    requires SameDistrict(s, t, w, d)
    ensures CustomerDelivered(t, w, d, id, n) == CustomerDelivered(s, w, d, id, n)
  {
    forall o | 1 <= o < n ensures Contribution(t, w, d, id, o) == Contribution(s, w, d, id, o) {
      ContributionFrame(s, t, w, d, id, o);
    }
    CustomerDeliveredFrame(s, t, w, d, id, n);
  }

  /** A new order adds nothing to what has been delivered. */
  lemma NewOrderDelivered(c: Config, s: State, w: int, d: int, id: int, id': int)
    requires ValidConfig(c) && DistrictInv(c, s, w, d) && NewOrderCommits(c, s, w, d, id)
    ensures CustomerDelivered(NewOrder(c, s, w, d, id), w, d, id', s.district[(w, d)].nextOid + 1) ==
            CustomerDelivered(s, w, d, id', s.district[(w, d)].nextOid)
  {
    var t, n := NewOrder(c, s, w, d, id), s.district[(w, d)].nextOid;
    forall o | 1 <= o < n ensures Contribution(t, w, d, id', o) == Contribution(s, w, d, id', o) {
      ContributionFrame(s, t, w, d, id', o);
    }
    CustomerDeliveredFrame(s, t, w, d, id', n);
    forall k | (w, d, n, k) in t.lines ensures t.lines[(w, d, n, k)].delivered.None? {
      assert (w, d, n, k) !in s.lines;
      assert t.lines[(w, d, n, k)] == RuntimeLine(d, k);
    }
    NothingDelivered(t.lines, w, d, n, MAX_LINES);
  }

  /** The delivered order's whole amount is added to its customer, and to nobody else. */
  lemma DeliverDelivered(c: Config, s: State, w: int, d: int, o: int, carrier: int, id: int)
    requires ValidConfig(c) && DistrictInv(c, s, w, d) && DeliveryCommits(s, w, d, o)
    ensures CustomerDelivered(Deliver(s, w, d, o, carrier), w, d, id, s.district[(w, d)].nextOid) ==
            CustomerDelivered(s, w, d, id, s.district[(w, d)].nextOid) +
            if s.orders[(w, d, o)].cid == id then LineAmount(s.lines, w, d, o, MAX_LINES) else 0
  {
    var t, n := Deliver(s, w, d, o, carrier), s.district[(w, d)].nextOid;
    forall p | 1 <= p < n && p != o ensures Contribution(t, w, d, id, p) == Contribution(s, w, d, id, p) {
      ContributionFrame(s, t, w, d, id, p);
    }
    CustomerDeliveredChange(s, t, w, d, id, n, o);
    assert OrderInv(c, s, w, d, o);
    forall k | (w, d, o, k) in s.lines ensures s.lines[(w, d, o, k)].delivered.None? {
      assert LineInv(c, s.lines[(w, d, o, k)], d, o, k, true);
    }
    NothingDelivered(s.lines, w, d, o, MAX_LINES);
    EverythingDelivered(s.lines, w, d, o, MAX_LINES);
  }

  /** A step that touches neither balances nor payments nor order rows of a district. */
  lemma CustomerUntouched(s: State, t: State, w: int, d: int, id: int)
    requires CustomerMoney(s, w, d, id) && SameDistrict(s, t, w, d)
    requires (w, d, id) in t.customer && t.customer[(w, d, id)].balance + t.customer[(w, d, id)].ytdPayment ==
             s.customer[(w, d, id)].balance + s.customer[(w, d, id)].ytdPayment
    requires t.customer[(w, d, id)].ytdPayment == HistSum(t.history, OfCustomer(w, d, id))
    requires t.customer[(w, d, id)].ytdPayment == PAYMENT * t.customer[(w, d, id)].paymentCnt
    ensures CustomerMoney(t, w, d, id)
  {
    SameDistrictDelivered(s, t, w, d, id, s.district[(w, d)].nextOid);
  }

  lemma NewOrderCustomer(c: Config, s: State, w: int, d: int, id: int, w': int, d': int, id': int)
    requires ValidConfig(c) && NewOrderCommits(c, s, w, d, id) && CustomerMoney(s, w', d', id')
    requires DistrictInv(c, s, w, d)
    ensures CustomerMoney(NewOrder(c, s, w, d, id), w', d', id')
  {
    if (w', d') == (w, d) {
      NewOrderDelivered(c, s, w, d, id, id');
    } else {
      NewOrderElsewhere(c, s, w, d, id, w', d');
      CustomerUntouched(s, NewOrder(c, s, w, d, id), w', d', id');
    }
  }

  lemma DeliverCustomer(c: Config, s: State, w: int, d: int, o: int, carrier: int, w': int, d': int, id': int)
    requires ValidConfig(c) && DeliveryCommits(s, w, d, o) && CustomerMoney(s, w', d', id')
    requires DistrictInv(c, s, w, d)
    ensures CustomerMoney(Deliver(s, w, d, o, carrier), w', d', id')
  {
    if (w', d') == (w, d) {
      DeliverDelivered(c, s, w, d, o, carrier, id');
    } else {
      DeliverElsewhere(s, w, d, o, carrier, w', d');
      CustomerUntouched(s, Deliver(s, w, d, o, carrier), w', d', id');
    }
  }

  lemma PaymentCustomer(s: State, w: int, d: int, id: int, w': int, d': int, id': int)
    requires PaymentCommits(s, w, d, id) && CustomerMoney(s, w', d', id')
    ensures CustomerMoney(Payment(s, w, d, id), w', d', id')
  {
    PaymentSame(s, w, d, id, w', d');
    HistSumOne(s.history, History(w, d, id, PAYMENT), OfCustomer(w', d', id'));
    CustomerUntouched(s, Payment(s, w, d, id), w', d', id');
  }

  lemma {:induction false} AddYtdSum(s: State, w: int, d: int, w': int, n: nat)
    requires (w, d) in s.district || !(1 <= d <= n) || w' != w
    ensures YtdSum(AddYtd(s, w, d), w', n) == YtdSum(s, w', n) + if w' == w && 1 <= d <= n then PAYMENT else 0
  {
    if n > 0 { AddYtdSum(s, w, d, w', n - 1); }
  }

  /** Only the totals matter to YtdSum. */
  lemma SameYtdSum(s: State, t: State, w: int, n: nat)
    requires t.district == s.district
    ensures YtdSum(t, w, n) == YtdSum(s, w, n)
  {
    YtdSumFrame(s, t, w, n);
  }

  lemma PaymentTotals(c: Config, s: State, w: int, d: int, id: int, leaks: seq<DistrictKey>)
    requires KeysInv(c, s) && MoneyInv(c, s, leaks) && PaymentCommits(s, w, d, id)
    ensures forall w', d' :: InRange(c, w', d') ==> DistrictMoney(c, Payment(s, w, d, id), w', d', leaks)
    ensures forall w' :: 1 <= w' <= c.warehouses ==> WarehouseMoney(c, Payment(s, w, d, id), w', leaks)
  {
    hide HistSum, YtdSum, LeakCount, CustomerMoney;
    var t, row := Payment(s, w, d, id), History(w, d, id, PAYMENT);
    forall w', d' | InRange(c, w', d') ensures DistrictMoney(c, t, w', d', leaks) {
      assert DistrictMoney(c, s, w', d', leaks);
      HistSumOne(s.history, row, OfDistrict(w', d'));
    }
    forall w' | 1 <= w' <= c.warehouses ensures WarehouseMoney(c, t, w', leaks) {
      assert WarehouseMoney(c, s, w', leaks);
      HistSumOne(s.history, row, OfWarehouse(w'));
      AddYtdSum(s, w, d, w', c.districts);
      SameYtdSum(AddYtd(s, w, d), t, w', c.districts);
    }
  }

  /** An update without its history row. */
  lemma PublishTotals(c: Config, s: State, w: int, d: int, leaks: seq<DistrictKey>)
    requires KeysInv(c, s) && MoneyInv(c, s, leaks)
    ensures forall w', d' :: InRange(c, w', d') ==> DistrictMoney(c, AddYtd(s, w, d), w', d', leaks + [(w, d)])
    ensures forall w' :: 1 <= w' <= c.warehouses ==> WarehouseMoney(c, AddYtd(s, w, d), w', leaks + [(w, d)])
  {
    hide HistSum, YtdSum, LeakCount, CustomerMoney;
    var t := AddYtd(s, w, d);
    forall w', d' | InRange(c, w', d') ensures DistrictMoney(c, t, w', d', leaks + [(w, d)]) {
      assert DistrictMoney(c, s, w', d', leaks);
      LeakCountOne(leaks, (w, d), InDistrict(w', d'));
    }
    forall w' | 1 <= w' <= c.warehouses ensures WarehouseMoney(c, t, w', leaks + [(w, d)]) {
      assert WarehouseMoney(c, s, w', leaks);
      LeakCountOne(leaks, (w, d), InWarehouse(w'));
      LeakCountOne(leaks, (w, d), OutsideDistricts(w', c.districts));
      AddYtdSum(s, w, d, w', c.districts);
    }
  }

  ghost predicate SameTotals(s: State, t: State) {
    && t.warehouse == s.warehouse && t.history == s.history && t.district.Keys == s.district.Keys
    && forall k :: k in s.district ==> t.district[k].ytd == s.district[k].ytd
  }

  /** A step that leaves all year-to-date totals and the history alone. */
  lemma TotalsUntouched(c: Config, s: State, t: State, leaks: seq<DistrictKey>)
    requires MoneyInv(c, s, leaks) && SameTotals(s, t)
    ensures forall w, d :: InRange(c, w, d) ==> DistrictMoney(c, t, w, d, leaks)
    ensures forall w :: 1 <= w <= c.warehouses ==> WarehouseMoney(c, t, w, leaks)
  {
    forall w, d | InRange(c, w, d) ensures DistrictMoney(c, t, w, d, leaks) {
      assert DistrictMoney(c, s, w, d, leaks);
    }
    forall w | 1 <= w <= c.warehouses ensures WarehouseMoney(c, t, w, leaks) {
      assert WarehouseMoney(c, s, w, leaks);
      YtdSumFrame(s, t, w, c.districts);
    }
  }

  lemma StepCustomer(c: Config, s: State, step: Step, w: int, d: int, id: int)
    requires ValidConfig(c) && TablesInv(c, s) && CustomerMoney(s, w, d, id)
    ensures CustomerMoney(Next(c, s, step), w, d, id)
  {
    hide NewOrder, Payment, Deliver, AddYtd, CustomerMoney, NewOrderCommits, PaymentCommits;
    match step
    case NewOrderStep(w', d', id') =>
      if NewOrderCommits(c, s, w', d', id') {
        CommitsInRange(c, s, w', d', id');
        NewOrderCustomer(c, s, w', d', id', w, d, id);
      } else {
        Rejected(c, s, w', d', id');
      }
    case PaymentStep(w', d', id') =>
      if PaymentCommits(s, w', d', id') {
        PaymentCustomer(s, w', d', id', w, d, id);
      } else {
        Rejected(c, s, w', d', id');
      }
    case DeliveryStep(w', d', carrier) =>
      match DeliveryOutcome(c, s, w', d') {
        case Delivered(o) =>
          DeliveredInRange(c, s, w', d', o);
          DeliverCustomer(c, s, w', d', o, carrier, w, d, id);
        case NotDelivered => ClientOnly(s, MoveCursor(c, s, w', d'), w, d, id);
      }
    case Publish(w', d') => PublishCustomer(s, w', d', w, d, id);
    case AbortDelivery(w', d', looks) => ClientOnly(s, LeaveCursor(c, s, w', d', looks), w, d, id);
    case Abort =>
    case Reset => ClientOnly(s, Next(c, s, step), w, d, id);
  }

  lemma PublishCustomer(s: State, w: int, d: int, w': int, d': int, id': int)
    requires CustomerMoney(s, w', d', id')
    ensures CustomerMoney(AddYtd(s, w, d), w', d', id')
  {
    AddYtdSame(s, w, d, w', d');
    CustomerUntouched(s, AddYtd(s, w, d), w', d', id');
  }

  /** Only the client's maps changed. */
  lemma ClientOnly(s: State, t: State, w: int, d: int, id: int)
    requires CustomerMoney(s, w, d, id)
    requires t == s.(latest := t.latest, runtimeItems := t.runtimeItems, cursors := t.cursors)
    ensures CustomerMoney(t, w, d, id)
  {
    CustomerUntouched(s, t, w, d, id);
  }

  lemma Rejected(c: Config, s: State, w: int, d: int, id: int)
    ensures !NewOrderCommits(c, s, w, d, id) ==> NewOrder(c, s, w, d, id) == s
    ensures !PaymentCommits(s, w, d, id) ==> Payment(s, w, d, id) == s
  {
  }

  lemma CommitsInRange(c: Config, s: State, w: int, d: int, id: int)
    requires ValidConfig(c) && TablesInv(c, s) && NewOrderCommits(c, s, w, d, id)
    ensures InRange(c, w, d) && DistrictInv(c, s, w, d)
  {
  }

  lemma DeliveredInRange(c: Config, s: State, w: int, d: int, o: int)
    requires ValidConfig(c) && TablesInv(c, s) && DeliveryCommits(s, w, d, o)
    ensures InRange(c, w, d) && DistrictInv(c, s, w, d)
  {
  }

  lemma StepTotals(c: Config, s: State, step: Step, leaks: seq<DistrictKey>)
    requires ValidConfig(c) && TablesInv(c, s) && MoneyInv(c, s, leaks)
    ensures forall w, d :: InRange(c, w, d) ==> DistrictMoney(c, Next(c, s, step), w, d, leaks + LeakOf(step))
    ensures forall w :: 1 <= w <= c.warehouses ==> WarehouseMoney(c, Next(c, s, step), w, leaks + LeakOf(step))
  {
    hide DistrictMoney, WarehouseMoney, MoneyInv, SameTotals;
    if step.Publish? {
      PublishTotals(c, s, step.w, step.d, leaks);
    } else {
      assert leaks + LeakOf(step) == leaks;
      if step.PaymentStep? && PaymentCommits(s, step.w, step.d, step.id) {
        PaymentTotals(c, s, step.w, step.d, step.id, leaks);
      } else {
        NoPayment(c, s, step);
        TotalsUntouched(c, s, Next(c, s, step), leaks);
      }
    }
  }

  /** Only a committed Payment and a published update change the year-to-date totals and the history. */
  lemma NoPayment(c: Config, s: State, step: Step)
    requires !step.Publish? && !(step.PaymentStep? && PaymentCommits(s, step.w, step.d, step.id))
    ensures SameTotals(s, Next(c, s, step))
  {
    hide Search, NewOrder, NewOrderCommits, Deliver, AddYtd, SearchPart;
    match step
    case NewOrderStep(w, d, id) => NewOrderSameTotals(c, s, w, d, id);
    case DeliveryStep(w, d, carrier) =>
      match DeliveryOutcome(c, s, w, d) {
        case Delivered(o) => DeliverSameTotals(s, w, d, o, carrier);
        case NotDelivered =>
      }
    case _ =>
  }

  lemma NewOrderSameTotals(c: Config, s: State, w: int, d: int, id: int)
    ensures SameTotals(s, NewOrder(c, s, w, d, id))
  {
  }

  lemma DeliverSameTotals(s: State, w: int, d: int, o: int, carrier: int)
    requires DeliveryCommits(s, w, d, o)
    ensures SameTotals(s, Deliver(s, w, d, o, carrier))
  {
  }

  lemma StepMoney(c: Config, s: State, step: Step, leaks: seq<DistrictKey>)
    requires ValidConfig(c) && TablesInv(c, s) && MoneyInv(c, s, leaks)
    ensures MoneyInv(c, Next(c, s, step), leaks + LeakOf(step))
  {
    hide Next, CustomerMoney, DistrictMoney, WarehouseMoney, TablesInv;
    forall w, d, id | InRange(c, w, d) && 1 <= id <= c.customers ensures CustomerMoney(Next(c, s, step), w, d, id) {
      StepCustomer(c, s, step, w, d, id);
    }
    StepTotals(c, s, step, leaks);
  }

  /** The money invariant holds after every run from the loaded state. */
  lemma {:induction false} RunMoney(c: Config, steps: seq<Step>)
    requires ValidConfig(c)
    ensures MoneyInv(c, Run(c, Load(c), steps), Leaks(steps))
  {
    hide MoneyInv, Load, Next;
    if steps == [] {
      LoadedMoney(c);
    } else {
      var past := steps[..|steps| - 1];
      RunMoney(c, past);
      RunTables(c, past);
      StepMoney(c, Run(c, Load(c), past), steps[|steps| - 1], Leaks(past));
    }
  }

  /** Clause 3.3.2.1: W_YTD is the sum of D_YTD; with nothing published, exactly for ten districts. */
  lemma WarehouseYtdIff(c: Config, steps: seq<Step>, w: int)
    requires ValidConfig(c) && 1 <= w <= c.warehouses
    ensures var s := Run(c, Load(c), steps);
            w in s.warehouse &&
            (s.warehouse[w] == YtdSum(s, w, c.districts) <==>
             3000 * c.districts == 30000 + LeakCount(Leaks(steps), OutsideDistricts(w, c.districts)))
  {
    hide Run, Load, HistSum, YtdSum, LeakCount, CustomerMoney;
    RunMoney(c, steps);
    assert WarehouseMoney(c, Run(c, Load(c), steps), w, Leaks(steps));
  }

  lemma CentsIff(districts: int, customers: int, leaks: int)
    ensures LOADED_WAREHOUSE_YTD - districts * (customers * PAYMENT) + PAYMENT * leaks == 0 <==>
            districts * customers == 30000 + leaks
  {
    assert districts * (customers * PAYMENT) == districts * customers * PAYMENT;
  }

  /** Clause 3.3.2.8: W_YTD is the sum of H_AMOUNT. */
  lemma WarehouseHistoryIff(c: Config, steps: seq<Step>, w: int)
    requires ValidConfig(c) && 1 <= w <= c.warehouses
    ensures var s := Run(c, Load(c), steps);
            w in s.warehouse &&
            (s.warehouse[w] == HistSum(s.history, OfWarehouse(w)) <==>
             c.districts * c.customers == 30000 + LeakCount(Leaks(steps), InWarehouse(w)))
  {
    hide Run, Load, HistSum, YtdSum, LeakCount, CustomerMoney;
    RunMoney(c, steps);
    assert WarehouseMoney(c, Run(c, Load(c), steps), w, Leaks(steps));
    CentsIff(c.districts, c.customers, LeakCount(Leaks(steps), InWarehouse(w)));
  }

  /** Clause 3.3.2.9: D_YTD is the sum of H_AMOUNT. */
  lemma DistrictHistoryIff(c: Config, steps: seq<Step>, w: int, d: int)
    requires ValidConfig(c) && InRange(c, w, d)
    ensures var s := Run(c, Load(c), steps);
            (w, d) in s.district &&
            (s.district[(w, d)].ytd == HistSum(s.history, OfDistrict(w, d)) <==>
             c.customers == 3000 + LeakCount(Leaks(steps), InDistrict(w, d)))
  {
    hide Run, Load, HistSum, YtdSum, LeakCount, CustomerMoney;
    RunMoney(c, steps);
    assert DistrictMoney(c, Run(c, Load(c), steps), w, d, Leaks(steps));
  }

  /** Clause 3.3.2.10: a balance is what was delivered less what was paid, for every configuration. */
  lemma BalanceIs(c: Config, steps: seq<Step>, w: int, d: int, id: int)
    requires ValidConfig(c) && InRange(c, w, d) && 1 <= id <= c.customers
    ensures var s := Run(c, Load(c), steps);
            (w, d, id) in s.customer && (w, d) in s.district &&
            s.customer[(w, d, id)].balance ==
            CustomerDelivered(s, w, d, id, s.district[(w, d)].nextOid) - HistSum(s.history, OfCustomer(w, d, id))
  {
    RunMoney(c, steps);
    assert CustomerMoney(Run(c, Load(c), steps), w, d, id);
  }
}
