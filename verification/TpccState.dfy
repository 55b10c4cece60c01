/**
 The TPC-C tables and the client's derived maps as one state, and the transactions as steps on it.
 Every committed transaction is one step together with its client-map update; an attempt that did not
 commit leaves the tables as they were.
 */
module TpccState {
  import opened Arithmetic
  import opened Options
  import opened TpccFormulas

  datatype Stamp = LoadTime | TxTime
  datatype District = District(ytd: int, nextOid: int)
  datatype Customer = Customer(balance: int, ytdPayment: int, paymentCnt: int, deliveryCnt: int)
  datatype Order = Order(cid: int, carrier: Option<int>, olCnt: int)
  datatype Line = Line(item: int, delivered: Option<Stamp>, quantity: int, amount: int)
  datatype Stock = Stock(quantity: int, ytd: int, orderCnt: int)
  datatype History = History(w: int, d: int, c: int, amount: int)

  type DistrictKey = (int, int)
  type OrderKey = (int, int, int)
  type LineKey = (int, int, int, int)

  datatype State = State(
    warehouse: map<int, int>,
    district: map<DistrictKey, District>,
    customer: map<OrderKey, Customer>,
    orders: map<OrderKey, Order>,
    newOrder: set<OrderKey>,
    lines: map<LineKey, Line>,
    stock: map<DistrictKey, Stock>,
    history: seq<History>,
    latest: map<OrderKey, int>,
    runtimeItems: map<OrderKey, seq<int>>,
    cursors: map<DistrictKey, int>)

  // --- the loaded state ---

  function LoadedOrder(c: Config, w: int, d: int, o: int): Order
    requires c.customers > 0
  {
    Order(LoadedCustomer(c, d, o), if o <= LoadedDelivered(c) then Some(o % 10 + 1) else None,
          LoadedLineCount(c, w, d, o))
  }

  function LoadedLine(c: Config, d: int, o: int, n: int): Line
    requires c.items > 0
  {
    Line(LoadedItem(c, d, o, n), if o <= LoadedDelivered(c) then Some(LoadTime) else None, 5, LoadedAmount(c, o, n))
  }

  const PAYMENT := 1000
  const LOADED_WAREHOUSE_YTD := 30000000
  const LOADED_DISTRICT_YTD := 3000000

  /** One history row per customer: of one district, of the first `d` districts, of the first `w` warehouses. */
  function DistrictHistory(w: int, d: int, customers: nat): seq<History> {
    if customers == 0 then [] else DistrictHistory(w, d, customers - 1) + [History(w, d, customers, PAYMENT)]
  }

  function WarehouseHistory(w: int, d: nat, customers: nat): seq<History> {
    if d == 0 then [] else WarehouseHistory(w, d - 1, customers) + DistrictHistory(w, d, customers)
  }

  function LoadedHistory(w: nat, districts: nat, customers: nat): seq<History> {
    if w == 0 then [] else LoadedHistory(w - 1, districts, customers) + WarehouseHistory(w, districts, customers)
  }

  function Keys1(a: nat): (ks: set<int>)
    ensures forall x :: x in ks <==> 1 <= x <= a
  {
    if a == 0 then {} else Keys1(a - 1) + {a}
  }

  function Keys2(a: nat, b: nat): (ks: set<(int, int)>)
    ensures forall x, y :: (x, y) in ks <==> 1 <= x <= a && 1 <= y <= b
  {
    set x, y | 1 <= x <= a && 1 <= y <= b :: (x, y)
  }

  function Keys3(a: nat, b: nat, n: nat): (ks: set<(int, int, int)>)
    ensures forall x, y, z :: (x, y, z) in ks <==> 1 <= x <= a && 1 <= y <= b && 1 <= z <= n
  {
    set x, y, z | 1 <= x <= a && 1 <= y <= b && 1 <= z <= n :: (x, y, z)
  }

  function Keys4(a: nat, b: nat, m: nat, n: nat): (ks: set<(int, int, int, int)>)
    ensures forall x, y, z, t :: (x, y, z, t) in ks <==> 1 <= x <= a && 1 <= y <= b && 1 <= z <= m && 1 <= t <= n
  {
    set x, y, z, t | 1 <= x <= a && 1 <= y <= b && 1 <= z <= m && 1 <= t <= n :: (x, y, z, t)
  }

  function LoadedOrders(c: Config): map<OrderKey, Order>
    requires ValidConfig(c)
  {
    map k | k in Keys3(c.warehouses, c.districts, c.orders) :: LoadedOrder(c, k.0, k.1, k.2)
  }

  function LoadedQueue(c: Config): set<OrderKey>
    requires ValidConfig(c)
  {
    set k | k in Keys3(c.warehouses, c.districts, c.orders) && k.2 > LoadedDelivered(c)
  }

  function LoadedLines(c: Config): map<LineKey, Line>
    requires ValidConfig(c)
  {
    map k | k in Keys4(c.warehouses, c.districts, c.orders, MAX_LINES) && k.3 <= LoadedLineCount(c, k.0, k.1, k.2) ::
      LoadedLine(c, k.1, k.2, k.3)
  }

  function LoadedWarehouses(c: Config): map<int, int> {
    map w | w in Keys1(c.warehouses) :: LOADED_WAREHOUSE_YTD
  }

  function LoadedDistricts(c: Config): map<DistrictKey, District> {
    map k | k in Keys2(c.warehouses, c.districts) :: District(LOADED_DISTRICT_YTD, c.orders + 1)
  }

  function LoadedCustomers(c: Config): map<OrderKey, Customer> {
    map k | k in Keys3(c.warehouses, c.districts, c.customers) :: Customer(-PAYMENT, PAYMENT, 1, 0)
  }

  function LoadedStock(c: Config): map<DistrictKey, Stock> {
    map k | k in Keys2(c.warehouses, c.items) :: Stock(LoadedQuantity(k.1), 0, 0)
  }

  function Load(c: Config): State
    requires ValidConfig(c)
  {
    State(LoadedWarehouses(c), LoadedDistricts(c), LoadedCustomers(c),
          LoadedOrders(c), LoadedQueue(c), LoadedLines(c), LoadedStock(c),
          LoadedHistory(c.warehouses, c.districts, c.customers), map[], map[], map[])
  }

  // --- New-Order ---

  const NEW_ORDER_LINES := 5

  function RuntimeItem(d: int, n: int): int {
    d * 10 + n
  }

  /** Whether an item is among the five a New-Order in this district takes. */
  predicate Ordered(d: int, i: int) {
    RuntimeItem(d, 1) <= i <= RuntimeItem(d, NEW_ORDER_LINES)
  }

  function Restock(st: Stock): Stock {
    Stock(if st.quantity >= 15 then st.quantity - 5 else st.quantity + 86, st.ytd + 5, st.orderCnt + 1)
  }

  function RuntimeLine(d: int, n: int): Line {
    Line(RuntimeItem(d, n), None, 5, 5 * ItemPrice(RuntimeItem(d, n)))
  }

  predicate Available(c: Config, stock: map<DistrictKey, Stock>, w: int, i: int) {
    1 <= i <= c.items && (w, i) in stock
  }

  /** The first `n` items of a New-Order and their stock rows exist. */
  predicate AllAvailable(c: Config, stock: map<DistrictKey, Stock>, w: int, d: int, n: int) {
    forall i :: RuntimeItem(d, 1) <= i <= RuntimeItem(d, n) ==> Available(c, stock, w, i)
  }

  /** The first `n` line keys of an order are free. */
  predicate NoLines(lines: map<LineKey, Line>, w: int, d: int, o: int, n: int) {
    forall k :: 1 <= k <= n ==> (w, d, o, k) !in lines
  }

  /** The rows New-Order reads exist. */
  predicate NewOrderReads(c: Config, s: State, w: int, d: int, id: int) {
    (w, d, id) in s.customer && (w, d) in s.district && AllAvailable(c, s.stock, w, d, NEW_ORDER_LINES)
  }

  /** The rows New-Order reads exist, and those it inserts do not. */
  predicate NewOrderCommits(c: Config, s: State, w: int, d: int, id: int) {
    && NewOrderReads(c, s, w, d, id)
    && var o := s.district[(w, d)].nextOid;
       (w, d, o) !in s.orders && (w, d, o) !in s.newOrder && NoLines(s.lines, w, d, o, NEW_ORDER_LINES)
  }

  function NewItems(d: int): seq<int> {
    seq(NEW_ORDER_LINES, n => RuntimeItem(d, n + 1))
  }

  function WithNewLines(lines: map<LineKey, Line>, w: int, d: int, o: int): map<LineKey, Line> {
    lines + map n | 1 <= n <= NEW_ORDER_LINES :: (w, d, o, n) := RuntimeLine(d, n)
  }

  function Restocked(stock: map<DistrictKey, Stock>, w: int, d: int): map<DistrictKey, Stock> {
    map k | k in stock :: if k.0 == w && Ordered(d, k.1) then Restock(stock[k]) else stock[k]
  }

  function NewOrder(c: Config, s: State, w: int, d: int, id: int): State {
    if !NewOrderCommits(c, s, w, d, id) then s
    else
      var o := s.district[(w, d)].nextOid;
      s.(district := s.district[(w, d) := s.district[(w, d)].(nextOid := o + 1)],
         orders := s.orders[(w, d, o) := Order(id, None, NEW_ORDER_LINES)],
         newOrder := s.newOrder + {(w, d, o)},
         lines := WithNewLines(s.lines, w, d, o),
         stock := Restocked(s.stock, w, d),
         latest := s.latest[(w, d, id) := if (w, d, id) in s.latest then Larger(s.latest[(w, d, id)], o) else o],
         runtimeItems := s.runtimeItems[(w, d, o) := NewItems(d)])
  }

  // --- Payment ---

  /** The warehouse and district updates of a Payment; a row that does not exist is not updated. */
  function AddYtd(s: State, w: int, d: int): State {
    s.(warehouse := if w in s.warehouse then s.warehouse[w := s.warehouse[w] + PAYMENT] else s.warehouse,
       district := if (w, d) in s.district
                   then s.district[(w, d) := s.district[(w, d)].(ytd := s.district[(w, d)].ytd + PAYMENT)]
                   else s.district)
  }

  /** Only the customer's row is asked for. */
  predicate PaymentCommits(s: State, w: int, d: int, id: int) {
    (w, d, id) in s.customer
  }

  function Payment(s: State, w: int, d: int, id: int): State {
    if !PaymentCommits(s, w, d, id) then s
    else
      var cust := s.customer[(w, d, id)];
      AddYtd(s, w, d).(customer := s.customer[(w, d, id) := cust.(balance := cust.balance - PAYMENT,
                                                                  ytdPayment := cust.ytdPayment + PAYMENT,
                                                                  paymentCnt := cust.paymentCnt + 1)],
                       history := s.history + [History(w, d, id, PAYMENT)])
  }

  // --- Delivery ---

  /** Order lines are numbered 1..15; these count and add up the rows an order has among them. */
  function LineCount(lines: map<LineKey, Line>, w: int, d: int, o: int, n: nat): nat {
    if n == 0 then 0 else LineCount(lines, w, d, o, n - 1) + if (w, d, o, n) in lines then 1 else 0
  }

  function LineAmount(lines: map<LineKey, Line>, w: int, d: int, o: int, n: nat): int {
    if n == 0 then 0
    else LineAmount(lines, w, d, o, n - 1) + if (w, d, o, n) in lines then lines[(w, d, o, n)].amount else 0
  }

  function MarkDelivered(lines: map<LineKey, Line>, w: int, d: int, o: int): map<LineKey, Line> {
    map k | k in lines ::
      if k.0 == w && k.1 == d && k.2 == o then lines[k].(delivered := Some(TxTime)) else lines[k]
  }

  /** The last order id the bounded search for a queued order looks at, unless the cursor is beyond it. */
  function SearchLimit(c: Config): int {
    c.orders + 100000
  }

  function FirstCursor(c: Config): int {
    c.orders - c.newOrders + 1
  }

  function CursorOf(c: Config, s: State, w: int, d: int): int {
    if (w, d) in s.cursors then s.cursors[(w, d)] else FirstCursor(c)
  }

  /** Where the search loop leaves the cursor, and whether it stands on a queued order. */
  function Search(queue: set<OrderKey>, w: int, d: int, at: int, limit: int): (int, bool)
    decreases if at < limit then limit - at else 0
  {
    if (w, d, at) in queue then (at, true)
    else if at >= limit then (at + 1, false)
    else Search(queue, w, d, at + 1, limit)
  }

  /** Where the loop has the cursor when a database error ends it after at most `looks` misses. */
  function SearchPart(queue: set<OrderKey>, w: int, d: int, at: int, limit: int, looks: nat): int
    decreases looks
  {
    if looks == 0 || (w, d, at) in queue then at
    else if at >= limit then at + 1
    else SearchPart(queue, w, d, at + 1, limit, looks - 1)
  }

  predicate DeliveryCommits(s: State, w: int, d: int, o: int) {
    && (w, d, o) in s.newOrder && (w, d, o) in s.orders
    && LineCount(s.lines, w, d, o, MAX_LINES) >= MIN_LINES
    && (w, d, s.orders[(w, d, o)].cid) in s.customer
  }

  /** The committed changes of a Delivery of one order. */
  function Deliver(s: State, w: int, d: int, o: int, carrier: int): State
    requires DeliveryCommits(s, w, d, o)
  {
    var id := s.orders[(w, d, o)].cid;
    var cust := s.customer[(w, d, id)];
    s.(newOrder := s.newOrder - {(w, d, o)},
       orders := s.orders[(w, d, o) := s.orders[(w, d, o)].(carrier := Some(carrier))],
       lines := MarkDelivered(s.lines, w, d, o),
       customer := s.customer[(w, d, id) := cust.(balance := cust.balance + LineAmount(s.lines, w, d, o, MAX_LINES),
                                                  deliveryCnt := cust.deliveryCnt + 1)],
       cursors := s.cursors[(w, d) := o + 1])
  }

  /** What a Delivery that stops at a missing row has changed by then. */
  function Undelivered(s: State, w: int, d: int, o: int, carrier: int): State {
    var dequeued := s.(newOrder := s.newOrder - {(w, d, o)});
    if (w, d, o) !in s.orders then dequeued
    else
      var carried := dequeued.(orders := s.orders[(w, d, o) := s.orders[(w, d, o)].(carrier := Some(carrier))]);
      if LineCount(s.lines, w, d, o, MAX_LINES) < MIN_LINES then carried
      else carried.(lines := MarkDelivered(s.lines, w, d, o))
  }

  datatype Outcome = Delivered(order: int) | NotDelivered

  function DeliveryOutcome(c: Config, s: State, w: int, d: int): Outcome {
    var (at, found) := Search(s.newOrder, w, d, CursorOf(c, s, w, d), SearchLimit(c));
    if found && DeliveryCommits(s, w, d, at) then Delivered(at) else NotDelivered
  }

  /** A search that found nothing moves the cursor and nothing else. */
  function MoveCursor(c: Config, s: State, w: int, d: int): State {
    s.(cursors := s.cursors[(w, d) := Search(s.newOrder, w, d, CursorOf(c, s, w, d), SearchLimit(c)).0])
  }

  function Delivery(c: Config, s: State, w: int, d: int, carrier: int): State {
    match DeliveryOutcome(c, s, w, d)
    case Delivered(o) => Deliver(s, w, d, o, carrier)
    case NotDelivered => MoveCursor(c, s, w, d)
  }

  /** An attempt that ended in a database error leaves the cursor where it was then. */
  function LeaveCursor(c: Config, s: State, w: int, d: int, looks: nat): State {
    s.(cursors := s.cursors[(w, d) := SearchPart(s.newOrder, w, d, CursorOf(c, s, w, d), SearchLimit(c), looks)])
  }

  // --- runs ---

  /**
   `Publish` makes the warehouse and district updates of a Payment permanent that was refused for a
   missing customer and whose terminal then committed something else. `AbortDelivery` is a Delivery
   that ended in a database error, in its search or after it; `Abort` is any other attempt that was
   rolled back; `Reset` is the client reconfigured for the same database. Order-Status and Stock-Level
   change nothing.
   */
  datatype Step =
    | NewOrderStep(w: int, d: int, id: int)
    | PaymentStep(w: int, d: int, id: int)
    | Publish(w: int, d: int)
    | DeliveryStep(w: int, d: int, carrier: int)
    | AbortDelivery(w: int, d: int, looks: nat)
    | Abort
    | Reset

  function Next(c: Config, s: State, step: Step): State {
    match step
    case NewOrderStep(w, d, id) => NewOrder(c, s, w, d, id)
    case PaymentStep(w, d, id) => Payment(s, w, d, id)
    case Publish(w, d) => AddYtd(s, w, d)
    case DeliveryStep(w, d, carrier) => Delivery(c, s, w, d, carrier)
    case AbortDelivery(w, d, looks) => LeaveCursor(c, s, w, d, looks)
    case Abort => s
    case Reset => s.(latest := map[], runtimeItems := map[], cursors := map[])
  }

  function Run(c: Config, s: State, steps: seq<Step>): State {
    if steps == [] then s else Next(c, Run(c, s, steps[..|steps| - 1]), steps[|steps| - 1])
  }
}
