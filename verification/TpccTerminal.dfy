/**
 The terminal: one warehouse's transactions as they run, statement by statement, on the tables and on
 the maps the client keeps. A failed requirement leaves the transaction open with what it changed; a
 database error rolls it back.
 */
module TpccTerminal {
  import opened Arithmetic
  import opened Options
  import opened TpccFormulas
  import opened TpccState
  import opened TpccInvariant
  import opened TpccClient
  import opened TpccReads
  import opened TpccStock
  import opened TpccSessions
  import opened TpccOpen

  datatype Report = Report(order: int, balance: int, lines: nat) | NoReport
  datatype TxResult = Committed | Refused | RolledBack

  /** Where a Delivery meets a database error: at a lookup of its search, counted from zero, or behind it. */
  datatype Fault = NoFault | AtLookup(number: nat) | BehindSearch

  // --- New-Order, table by table ---

  /** The first `n` of the five stock rows restocked. */
  function RestockUpTo(stock: map<DistrictKey, Stock>, w: int, d: int, n: nat): map<DistrictKey, Stock> {
    if n == 0 then stock
    else
      var before, key := RestockUpTo(stock, w, d, n - 1), (w, RuntimeItem(d, n));
      if key in before then before[key := Restock(before[key])] else before
  }

  /** The first `n` of the five lines inserted. */
  function InsertUpTo(lines: map<LineKey, Line>, w: int, d: int, o: int, n: nat): map<LineKey, Line> {
    if n == 0 then lines else InsertUpTo(lines, w, d, o, n - 1)[(w, d, o, n) := RuntimeLine(d, n)]
  }

  lemma {:induction false} RestockedRow(stock: map<DistrictKey, Stock>, w: int, d: int, n: nat, k: DistrictKey)
    ensures k in RestockUpTo(stock, w, d, n) <==> k in stock
    ensures k in stock ==> RestockUpTo(stock, w, d, n)[k] ==
                           if k.0 == w && RuntimeItem(d, 1) <= k.1 <= RuntimeItem(d, n) then Restock(stock[k])
                           else stock[k]
  {
    if n > 0 {
      RestockedRow(stock, w, d, n - 1, k);
    }
  }

  lemma {:induction false} InsertedRow(lines: map<LineKey, Line>, w: int, d: int, o: int, n: nat, k: LineKey)
    ensures var inserted := k.0 == w && k.1 == d && k.2 == o && 1 <= k.3 <= n;
            && (k in InsertUpTo(lines, w, d, o, n) <==> k in lines || inserted)
            && (k in InsertUpTo(lines, w, d, o, n) ==>
                  InsertUpTo(lines, w, d, o, n)[k] == if inserted then RuntimeLine(d, k.3) else lines[k])
  {
    if n > 0 {
      InsertedRow(lines, w, d, o, n - 1, k);
    }
  }

  lemma RestockAll(stock: map<DistrictKey, Stock>, w: int, d: int)
    ensures RestockUpTo(stock, w, d, NEW_ORDER_LINES) == Restocked(stock, w, d)
  {
    var r := RestockUpTo(stock, w, d, NEW_ORDER_LINES);
    forall k: DistrictKey
      ensures k in r <==> k in stock
      ensures k in stock ==> r[k] == if k.0 == w && Ordered(d, k.1) then Restock(stock[k]) else stock[k]
    {
      RestockedRow(stock, w, d, NEW_ORDER_LINES, k);
    }
    hide RestockUpTo;
  }

  lemma NewLineAt(lines: map<LineKey, Line>, w: int, d: int, o: int, k: LineKey)
    ensures var inserted := k.0 == w && k.1 == d && k.2 == o && 1 <= k.3 <= NEW_ORDER_LINES;
            && (k in WithNewLines(lines, w, d, o) <==> k in lines || inserted)
            && (k in WithNewLines(lines, w, d, o) ==>
                  WithNewLines(lines, w, d, o)[k] == if inserted then RuntimeLine(d, k.3) else lines[k])
  {
    assert k == (k.0, k.1, k.2, k.3);
  }

  lemma InsertAll(lines: map<LineKey, Line>, w: int, d: int, o: int)
    ensures InsertUpTo(lines, w, d, o, NEW_ORDER_LINES) == WithNewLines(lines, w, d, o)
  {
    hide InsertUpTo, WithNewLines, RuntimeLine;
    var r, s := InsertUpTo(lines, w, d, o, NEW_ORDER_LINES), WithNewLines(lines, w, d, o);
    forall k: LineKey
      ensures k in r <==> k in s
      ensures k in r ==> r[k] == s[k]
    {
      InsertedRow(lines, w, d, o, NEW_ORDER_LINES, k);
      NewLineAt(lines, w, d, o, k);
    }
  }

  /** The items a New-Order in the district takes, if all of them and their stock rows exist. */
  method OrderItems(c: Config, stock: map<DistrictKey, Stock>, w: int, d: int) returns (items: seq<int>, ok: bool)
    ensures ok <==> AllAvailable(c, stock, w, d, NEW_ORDER_LINES)
    ensures items == NewItems(d)
  {
    items, ok := [], true;
    for n := 0 to NEW_ORDER_LINES
      invariant |items| == n && forall k :: 0 <= k < n ==> items[k] == RuntimeItem(d, k + 1)
      invariant ok <==> AllAvailable(c, stock, w, d, n)
    {
      var item := d * 10 + n + 1;
      items := items + [item];
      ok := ok && Available(c, stock, w, item);
    }
  }

  method RestockItems(stock: map<DistrictKey, Stock>, w: int, d: int, items: seq<int>)
    returns (r: map<DistrictKey, Stock>)
    requires items == NewItems(d)
    ensures r == Restocked(stock, w, d)
  {
    r := stock;
    for n := 0 to NEW_ORDER_LINES
      invariant r == RestockUpTo(stock, w, d, n)
    {
      var key := (w, items[n]);
      if key in r {
        var row := r[key];
        r := r[key := Stock(if row.quantity >= 15 then row.quantity - 5 else row.quantity + 86,
                            row.ytd + 5, row.orderCnt + 1)];
      }
    }
    RestockAll(stock, w, d);
  }

  /** Inserts the lines of an order; fails on a line that is there already. */
  method InsertLines(lines: map<LineKey, Line>, w: int, d: int, o: int, items: seq<int>)
    returns (r: map<LineKey, Line>, ok: bool)
    requires items == NewItems(d)
    ensures ok <==> NoLines(lines, w, d, o, NEW_ORDER_LINES)
    ensures r == WithNewLines(lines, w, d, o)
  {
    r, ok := lines, true;
    for n := 0 to NEW_ORDER_LINES
      invariant r == InsertUpTo(lines, w, d, o, n)
      invariant ok <==> NoLines(lines, w, d, o, n)
    {
      ok := ok && (w, d, o, n + 1) !in lines;
      r := r[(w, d, o, n + 1) := Line(items[n], None, 5, 5 * ItemPrice(items[n]))];
    }
    InsertAll(lines, w, d, o);
  }

  /** The number of an order's lines and the sum of their amounts. */
  method AddLines(lines: map<LineKey, Line>, w: int, d: int, o: int) returns (count: nat, amount: int)
    ensures count == LineCount(lines, w, d, o, MAX_LINES)
    ensures amount == LineAmount(lines, w, d, o, MAX_LINES)
  {
    count, amount := 0, 0;
    for n := 0 to MAX_LINES
      invariant count == LineCount(lines, w, d, o, n)
      invariant amount == LineAmount(lines, w, d, o, n)
    {
      if (w, d, o, n + 1) in lines {
        count, amount := count + 1, amount + lines[(w, d, o, n + 1)].amount;
      }
    }
  }

  // --- Order-Status ---

  /** The rows Order-Status asks for. */
  predicate StatusFound(s: State, w: int, d: int, id: int, o: int) {
    && (w, d, id) in s.customer && (w, d, o) in s.orders && s.orders[(w, d, o)].cid == id
    && LineCount(s.lines, w, d, o, MAX_LINES) >= MIN_LINES
  }

  /**
   When Order-Status can answer: the formula finds an order up to the greater of orders and customers,
   and the map knows an order, or none of the formula's orders lies beyond the loaded ones.
   */
  ghost predicate StatusKnown(c: Config, s: State, w: int, d: int, id: int)
    requires c.customers > 0
  {
    && InRange(c, w, d)
    && !NoMatch(c, d, id, Larger(c.orders, c.customers))
    && ((w, d, id) in s.latest || forall p :: c.orders < p <= c.customers ==> !Matches(c, d, id, p))
  }

  lemma StatusRows(c: Config, s: State, w: int, d: int, id: int, o: int)
    requires ValidConfig(c) && TablesInv(c, s) && InRange(c, w, d) && LastOrderOf(s, w, d, id, o)
    ensures StatusFound(s, w, d, id, o) && LineCount(s.lines, w, d, o, MAX_LINES) == s.orders[(w, d, o)].olCnt
  {
    assert DistrictInv(c, s, w, d);
    assert OrderInv(c, s, w, d, o);
    LineCountIs(s.lines, w, d, o, s.orders[(w, d, o)].olCnt, MAX_LINES);
  }

  lemma StatusByMap(c: Config, s: State, w: int, d: int, id: int)
    requires ValidConfig(c) && TablesInv(c, s) && ClientInv(c, s) && InRange(c, w, d) && (w, d, id) in s.latest
    ensures LastOrderOf(s, w, d, id, s.latest[(w, d, id)])
  {
    assert DistrictInv(c, s, w, d) && DistrictKnown(c, s, w, d);
    KnownIsLast(c, s, w, d, id);
  }

  lemma StatusByFormula(c: Config, s: State, w: int, d: int, id: int, o: int)
    requires ValidConfig(c) && TablesInv(c, s) && ClientInv(c, s) && InRange(c, w, d) && (w, d, id) !in s.latest
    requires GreatestMatch(c, d, id, Larger(c.orders, c.customers), o)
    ensures GreatestMatch(c, d, id, c.orders, o) ==> LastOrderOf(s, w, d, id, o)
    ensures !GreatestMatch(c, d, id, c.orders, o) ==> !StatusFound(s, w, d, id, o)
  {
    assert DistrictInv(c, s, w, d) && DistrictKnown(c, s, w, d);
    LoadedIsLast(c, s, w, d, id, o);
    assert LatestKnown(c, s, w, d, id);
    assert !RuntimeOrderOf(c, s, w, d, id, o);
  }

  /** `loaded` is the formula's order; `o` the one Order-Status looks up. */
  lemma StatusIff(c: Config, s: State, w: int, d: int, id: int, loaded: int, o: int)
    requires ValidConfig(c) && TablesInv(c, s) && ClientInv(c, s)
    requires GreatestMatch(c, d, id, Larger(c.orders, c.customers), loaded)
    requires GreatestMatch(c, d, id, c.orders, loaded) <==>
             forall p :: c.orders < p <= c.customers ==> !Matches(c, d, id, p)
    requires o == if (w, d, id) in s.latest then s.latest[(w, d, id)] else loaded
    ensures StatusFound(s, w, d, id, o) <==> StatusKnown(c, s, w, d, id)
    ensures StatusFound(s, w, d, id, o) ==>
              LastOrderOf(s, w, d, id, o) && LineCount(s.lines, w, d, o, MAX_LINES) == s.orders[(w, d, o)].olCnt
  {
    assert !NoMatch(c, d, id, Larger(c.orders, c.customers));
    if InRange(c, w, d) {
      hide TablesInv, ClientInv, StatusFound, LastOrderOf, GreatestMatch, NoMatch;
      if (w, d, id) in s.latest {
        StatusByMap(c, s, w, d, id);
        StatusRows(c, s, w, d, id, o);
      } else {
        StatusByFormula(c, s, w, d, id, o);
        if GreatestMatch(c, d, id, c.orders, loaded) { StatusRows(c, s, w, d, id, o); }
      }
    }
  }

  // --- Stock-Level ---

  /** The items among these whose stock in the warehouse is below the threshold. */
  ghost function LowStock(s: State, w: int, items: set<int>, threshold: int): set<int> {
    set i | i in items && (w, i) in s.stock && s.stock[(w, i)].quantity < threshold
  }

  /** After every run no stock is below ten and all of it is below a hundred and one. */
  lemma RunLowStock(c: Config, steps: seq<Step>, w: int, items: set<int>, threshold: int)
    requires ValidConfig(c) && 1 <= w <= c.warehouses && forall i :: i in items ==> 1 <= i <= c.items
    ensures var s := Run(c, Load(c), steps);
            && (threshold <= 10 ==> LowStock(s, w, items, threshold) == {})
            && (threshold > 100 ==> LowStock(s, w, items, threshold) == items)
  {
    hide Run, Load;
    var s := Run(c, Load(c), steps);
    forall i | i in items ensures (w, i) in s.stock && 10 <= s.stock[(w, i)].quantity <= 100 {
      StockRow(c, steps, w, i);
    }
    if threshold > 100 { assert LowStock(s, w, items, threshold) == items; }
  }

  lemma WindowInStock(c: Config, s: State, w: int, d: int)
    requires ValidConfig(c) && TablesInv(c, s) && InRange(c, w, d) && WindowKnown(c, s, w, d)
    ensures (w, d) in s.district
    ensures var n := s.district[(w, d)].nextOid;
            DerivedItems(c, s, w, d, WindowStart(n), n) == WindowItems(s, w, d)
    ensures 1 <= |WindowItems(s, w, d)| <= MAX_KEYS
    ensures forall i :: i in WindowItems(s, w, d) ==> (w, i) in s.stock
  {
    hide WindowKnown;
    assert DistrictInv(c, s, w, d);
    WindowDerived(c, s, w, d);
    hide DerivedItems, WindowItems, DistrictInv;
  }

  lemma SearchOnce(queue: set<OrderKey>, w: int, d: int, at: int, limit: int)
    ensures Search(queue, w, d, at, limit) ==
            if (w, d, at) in queue then (at, true) else if at >= limit then (at + 1, false)
            else Search(queue, w, d, at + 1, limit)
  {
  }

  /** The search says where it stopped, and whether an order is queued there. */
  lemma {:induction false} SearchAnswer(queue: set<OrderKey>, w: int, d: int, at: int, limit: int)
    ensures var (o, found) := Search(queue, w, d, at, limit); found ==> (w, d, o) in queue
    decreases if at < limit then limit - at else 0
  {
    if (w, d, at) !in queue && at < limit { SearchAnswer(queue, w, d, at + 1, limit); }
  }

  lemma RefusedIsInconsistent(c: Config, s: State, w: int, d: int, o: int)
    requires (w, d, o) in s.newOrder
    ensures ValidConfig(c) && TablesInv(c, s) ==> DeliveryCommits(s, w, d, o)
  {
    if ValidConfig(c) && TablesInv(c, s) {
      assert DistrictInv(c, s, w, d);
      QueuedCommits(c, s, w, d, o);
    }
  }

  /** Whether the search gets to its lookup number `k`, counted from zero. */
  ghost predicate Reaches(queue: set<OrderKey>, w: int, d: int, at: int, limit: int, k: nat) {
    (forall o :: at <= o < at + k ==> (w, d, o) !in queue) && (k == 0 || at + k - 1 < limit)
  }

  lemma {:induction false} ReachesPart(queue: set<OrderKey>, w: int, d: int, at: int, limit: int, k: nat)
    requires Reaches(queue, w, d, at, limit, k)
    ensures SearchPart(queue, w, d, at, limit, k) == at + k
    decreases k
  {
    if k > 0 { ReachesPart(queue, w, d, at + 1, limit, k - 1); }
  }

  /** A search that finds an order has looked at every one before it. */
  lemma {:induction false} FoundReaches(queue: set<OrderKey>, w: int, d: int, at: int, limit: int)
    requires Search(queue, w, d, at, limit).1
    ensures var o := Search(queue, w, d, at, limit).0; at <= o && SearchPart(queue, w, d, at, limit, o - at) == o
    decreases if at < limit then limit - at else 0
  {
    if (w, d, at) !in queue { FoundReaches(queue, w, d, at + 1, limit); }
  }

  /** How many lookups of a Delivery's search found nothing before the error. */
  ghost function Misses(c: Config, s: State, w: int, d: int, fault: Fault): nat {
    var at := CursorOf(c, s, w, d);
    var o := Search(s.newOrder, w, d, at, SearchLimit(c)).0;
    if fault.AtLookup? then fault.number else if o > at then o - at else 0
  }

  /** Whether a Delivery gets to where it meets the error. */
  ghost predicate Fails(c: Config, s: State, w: int, d: int, fault: Fault) {
    var at := CursorOf(c, s, w, d);
    match fault
    case NoFault => false
    case AtLookup(k) => Reaches(s.newOrder, w, d, at, SearchLimit(c), k)
    case BehindSearch => Search(s.newOrder, w, d, at, SearchLimit(c)).1
  }

  lemma FoundIsLeft(c: Config, s: State, w: int, d: int)
    requires Search(s.newOrder, w, d, CursorOf(c, s, w, d), SearchLimit(c)).1
    ensures MoveCursor(c, s, w, d) == LeaveCursor(c, s, w, d, Misses(c, s, w, d, BehindSearch))
  {
    hide Search, SearchPart;
    FoundReaches(s.newOrder, w, d, CursorOf(c, s, w, d), SearchLimit(c));
  }

  /** The terminal's number among those of its session. */
  const ME := 0

  /**
   `db` is what the terminal's transaction sees: the committed tables, its own uncommitted changes,
   and the maps that the terminals share. `saved` has the tables as last committed. `session` is the
   session of this terminal alone.
   */
  class Terminal {
    const config: Config
    const warehouse: int
    var db: State
    var saved: State
    ghost var session: Session

    ghost predicate InSession()
      reads this
    {
      Agrees(session, ME, db, saved)
    }

    constructor (c: Config, w: int)
      requires ValidConfig(c)
      ensures config == c && warehouse == w && db == Load(c) && saved == Load(c)
      ensures session == DoAll(c, []) && InSession()
    {
      config, warehouse, db, saved, session := c, w, Load(c), Load(c), DoAll(c, []);
      new;
      NothingOpen(Load(c));
    }

    /** `fault` says whether a statement it gets to, or the commit, ends in a database error. */
    method NewOrder(d: int, id: int, fault: bool) returns (r: TxResult)
      modifies this
      ensures r == Committed <==> !fault && NewOrderCommits(config, old(db), warehouse, d, id)
      ensures r == Refused <==> !fault && !NewOrderReads(config, old(db), warehouse, d, id)
      ensures r == Committed ==> db == TpccState.NewOrder(config, old(db), warehouse, d, id) && saved == db
      ensures r == Refused ==> db == old(db) && saved == old(saved)
      ensures r == RolledBack ==> db == Undone(old(db), old(saved)) && saved == old(saved)
      ensures session == Do(config, old(session), Attempt(ME, if fault then Abort else NewOrderStep(warehouse, d, id)))
      ensures old(InSession()) ==> InSession()
    {
      hide Agrees, Do, Undone;
      r := RunNewOrder(d, id, fault);
      session := Do(config, session, Attempt(ME, if fault then Abort else NewOrderStep(warehouse, d, id)));
      if old(InSession()) {
        NewOrderFollows(config, old(session), warehouse, d, id, fault, old(db), old(saved), r);
      }
    }

    method RunNewOrder(d: int, id: int, fault: bool) returns (r: TxResult)
      modifies this`db, this`saved
      ensures r == NewOrderResult(config, old(db), warehouse, d, id, fault)
      ensures r == Committed ==> db == TpccState.NewOrder(config, old(db), warehouse, d, id) && saved == db
      ensures r == Refused ==> db == old(db) && saved == old(saved)
      ensures r == RolledBack ==> db == Undone(old(db), old(saved)) && saved == old(saved)
    {
      var w := warehouse;
      hide AllAvailable, NoLines, Restocked, WithNewLines, NewItems;
      if fault {
        db := Undone(db, saved);
        return RolledBack;
      }
      if (w, d, id) !in db.customer || (w, d) !in db.district { return Refused; }
      var o := db.district[(w, d)].nextOid;
      var items, known := OrderItems(config, db.stock, w, d);
      if !known { return Refused; }
      var restocked := RestockItems(db.stock, w, d, items);
      var inserted, unused := InsertLines(db.lines, w, d, o, items);
      if !unused || (w, d, o) in db.orders || (w, d, o) in db.newOrder {
        db := Undone(db, saved);
        return RolledBack;
      }
      var last := if (w, d, id) in db.latest then Larger(db.latest[(w, d, id)], o) else o;
      db := db.(district := db.district[(w, d) := db.district[(w, d)].(nextOid := o + 1)],
                stock := restocked,
                orders := db.orders[(w, d, o) := Order(id, None, NEW_ORDER_LINES)],
                newOrder := db.newOrder + {(w, d, o)},
                lines := inserted,
                latest := db.latest[(w, d, id) := last],
                runtimeItems := db.runtimeItems[(w, d, o) := items]);
      saved := db;
      r := Committed;
    }

    method Payment(d: int, id: int, fault: bool) returns (r: TxResult)
      modifies this
      ensures r == if fault then RolledBack
                   else if PaymentCommits(old(db), warehouse, d, id) then Committed else Refused
      ensures r == Committed ==> db == TpccState.Payment(old(db), warehouse, d, id) && saved == db
      ensures r == Refused ==> db == AddYtd(old(db), warehouse, d) && saved == old(saved)
      ensures r == RolledBack ==> db == Undone(old(db), old(saved)) && saved == old(saved)
      ensures session == Do(config, old(session), Attempt(ME, if fault then Abort else PaymentStep(warehouse, d, id)))
      ensures old(InSession()) ==> InSession()
    {
      hide TpccState.Payment, AddYtd, Agrees, Do, Undone;
      session := Do(config, session, Attempt(ME, if fault then Abort else PaymentStep(warehouse, d, id)));
      if old(InSession()) {
        PaymentFollows(config, old(session), warehouse, d, id, fault, old(db), old(saved));
      }
      if fault {
        db := Undone(db, saved);
        return RolledBack;
      }
      var ok;
      db, ok := Pay(db, warehouse, d, id);
      if !ok { return Refused; }
      saved := db;
      r := Committed;
    }

    method Delivery(d: int, carrier: int, fault: Fault) returns (r: TxResult)
      modifies this
      ensures r == DeliveryResult(config, old(db), warehouse, d, fault)
      ensures r == RolledBack ==>
                var looks := Misses(config, old(db), warehouse, d, fault);
                db == Undone(LeaveCursor(config, old(db), warehouse, d, looks), old(saved)) && saved == old(saved)
      ensures r == Committed ==> db == TpccState.Delivery(config, old(db), warehouse, d, carrier) && saved == db
      ensures r == Refused ==> db == DeliveryRefused(config, old(db), warehouse, d, carrier) && saved == old(saved)
      ensures session == Do(config, old(session),
                            Attempt(ME, DeliveryAction(config, old(db), warehouse, d, carrier, fault)))
      ensures old(InSession()) && ValidConfig(config) && TablesInv(config, old(db)) ==> InSession()
    {
      hide Agrees, Do, Undone, DeliveryRefused, DeliveryResult, LeaveCursor, TablesInv, TpccState.Delivery;
      r := RunDelivery(d, carrier, fault);
      session := Do(config, session, Attempt(ME, DeliveryAction(config, old(db), warehouse, d, carrier, fault)));
      if old(InSession()) && ValidConfig(config) && TablesInv(config, old(db)) {
        DeliveryFollows(config, old(session), warehouse, d, carrier, fault, old(db), old(saved));
      }
    }

    method RunDelivery(d: int, carrier: int, fault: Fault) returns (r: TxResult)
      modifies this`db, this`saved
      ensures r == DeliveryResult(config, old(db), warehouse, d, fault)
      ensures r == RolledBack ==>
                var looks := Misses(config, old(db), warehouse, d, fault);
                db == Undone(LeaveCursor(config, old(db), warehouse, d, looks), old(saved)) && saved == old(saved)
      ensures r == Committed ==> db == TpccState.Delivery(config, old(db), warehouse, d, carrier) && saved == db
      ensures r == Refused ==> db == DeliveryRefused(config, old(db), warehouse, d, carrier) && saved == old(saved)
    {
      hide Reaches, Undone, Undelivered, DeliveryCommits, Deliver, CursorOf, Search, SearchPart;
      var found, error, ok;
      db, found, error := SearchQueue(config, db, warehouse, d, if fault.AtLookup? then Some(fault.number) else None);
      if error {
        db := Undone(db, saved);
        return RolledBack;
      }
      if !found { return Refused; }
      if fault == BehindSearch {
        FoundIsLeft(config, old(db), warehouse, d);
        db := Undone(db, saved);
        return RolledBack;
      }
      DeliverAnywhere(config, old(db), warehouse, d, carrier);
      db, ok := DeliverFound(db, warehouse, d, db.cursors[(warehouse, d)], carrier);
      if !ok { return Refused; }
      saved := db;
      r := Committed;
    }

    /** An answer commits, and with it whatever the transaction had open. */
    method OrderStatus(d: int, id: int, fault: bool) returns (r: Report)
      requires ValidConfig(config)
      modifies this
      ensures var failed := fault && !NoMatch(config, d, id, Larger(config.orders, config.customers));
              && (failed ==> r == NoReport && db == Undone(old(db), old(saved)) && saved == old(saved))
              && (!failed ==> db == old(db) && StatusAnswer(config, db, warehouse, d, id, r) &&
                              saved == if r.Report? then db else old(saved))
              && session == (if failed then Do(config, old(session), Attempt(ME, Abort))
                             else if r.Report? then Do(config, old(session), Read(ME)) else old(session))
      ensures old(InSession()) ==> InSession()
    {
      hide StatusAnswer, NoMatch, Agrees, Do, Undone;
      var error;
      r, error := ReadStatus(config, db, warehouse, d, id, fault);
      if error {
        if InSession() { RollbackAgrees(config, session, ME, Abort, db, saved); }
        session, db := Do(config, session, Attempt(ME, Abort)), Undone(db, saved);
      } else if r.Report? {
        if InSession() { ReadAgrees(config, session, ME, db, saved); }
        session, saved := Do(config, session, Read(ME)), db;
      }
    }

    method StockLevel(d: int, threshold: int, fault: bool) returns (count: Option<nat>)
      requires ValidConfig(config)
      modifies this
      ensures fault ==> count == None && db == Undone(old(db), old(saved)) && saved == old(saved)
      ensures !fault ==> db == old(db) && StockAnswer(config, db, warehouse, d, threshold, count) &&
                         saved == if count.Some? then db else old(saved)
      ensures session == if fault then Do(config, old(session), Attempt(ME, Abort))
                         else if count.Some? then Do(config, old(session), Read(ME)) else old(session)
      ensures old(InSession()) ==> InSession()
    {
      hide StockAnswer, Agrees, Do, Undone;
      if fault {
        if InSession() { RollbackAgrees(config, session, ME, Abort, db, saved); }
        session, db := Do(config, session, Attempt(ME, Abort)), Undone(db, saved);
        return None;
      }
      count := ReadStock(config, db, warehouse, d, threshold);
      if count.Some? {
        if InSession() { ReadAgrees(config, session, ME, db, saved); }
        session, saved := Do(config, session, Read(ME)), db;
      }
    }
  }

  // --- the terminal in its session ---

  function NewOrderResult(c: Config, s: State, w: int, d: int, id: int, fault: bool): TxResult {
    if fault then RolledBack
    else if !NewOrderReads(c, s, w, d, id) then Refused
    else if NewOrderCommits(c, s, w, d, id) then Committed else RolledBack
  }

  ghost function DeliveryResult(c: Config, s: State, w: int, d: int, fault: Fault): TxResult {
    if Fails(c, s, w, d, fault) then RolledBack
    else if DeliveryOutcome(c, s, w, d).Delivered? then Committed else Refused
  }

  ghost function DeliveryAction(c: Config, s: State, w: int, d: int, carrier: int, fault: Fault): Step {
    if Fails(c, s, w, d, fault) then AbortDelivery(w, d, Misses(c, s, w, d, fault)) else DeliveryStep(w, d, carrier)
  }

  lemma NewOrderFollows(c: Config, x: Session, w: int, d: int, id: int, fault: bool, db: State, saved: State,
                        r: TxResult)
    requires Agrees(x, ME, db, saved) && r == NewOrderResult(c, db, w, d, id, fault)
    ensures var y := Do(c, x, Attempt(ME, if fault then Abort else NewOrderStep(w, d, id)));
            && (r == Committed ==> Agrees(y, ME, NewOrder(c, db, w, d, id), NewOrder(c, db, w, d, id)))
            && (r == Refused ==> Agrees(y, ME, db, saved))
            && (r == RolledBack ==> Agrees(y, ME, Undone(db, saved), saved))
  {
    hide Agrees, Do, Undone, NewOrder, NewOrderCommits, NewOrderReads;
    var step := if fault then Abort else NewOrderStep(w, d, id);
    match r
    case Committed => CommitAgrees(c, x, ME, step, db, saved);
    case Refused => RefusedOrderAgrees(c, x, ME, w, d, id, db, saved);
    case RolledBack => RollbackAgrees(c, x, ME, step, db, saved);
  }

  lemma PaymentFollows(c: Config, x: Session, w: int, d: int, id: int, fault: bool, db: State, saved: State)
    requires Agrees(x, ME, db, saved)
    ensures var y := Do(c, x, Attempt(ME, if fault then Abort else PaymentStep(w, d, id)));
            if fault then Agrees(y, ME, Undone(db, saved), saved)
            else if PaymentCommits(db, w, d, id) then Agrees(y, ME, Payment(db, w, d, id), Payment(db, w, d, id))
            else Agrees(y, ME, AddYtd(db, w, d), saved)
  {
    hide Agrees, Do, Undone, Payment, PaymentCommits, AddYtd;
    if fault {
      RollbackAgrees(c, x, ME, Abort, db, saved);
    } else if PaymentCommits(db, w, d, id) {
      CommitAgrees(c, x, ME, PaymentStep(w, d, id), db, saved);
    } else {
      RefusedPaymentAgrees(c, x, ME, w, d, id, db, saved);
    }
  }

  lemma DeliveryFollows(c: Config, x: Session, w: int, d: int, carrier: int, fault: Fault, db: State, saved: State)
    requires Agrees(x, ME, db, saved) && ValidConfig(c) && TablesInv(c, db)
    ensures var y, r := Do(c, x, Attempt(ME, DeliveryAction(c, db, w, d, carrier, fault))),
                        DeliveryResult(c, db, w, d, fault);
            && (r == RolledBack ==>
                  Agrees(y, ME, Undone(LeaveCursor(c, db, w, d, Misses(c, db, w, d, fault)), saved), saved))
            && (r == Committed ==> Agrees(y, ME, Delivery(c, db, w, d, carrier), Delivery(c, db, w, d, carrier)))
            && (r == Refused ==> Agrees(y, ME, DeliveryRefused(c, db, w, d, carrier), saved))
  {
    hide Agrees, Do, Undone, Delivery, DeliveryRefused, DeliveryOutcome, LeaveCursor, MoveCursor, TablesInv,
         Fails, Misses;
    var step := DeliveryStep(w, d, carrier);
    match DeliveryResult(c, db, w, d, fault)
    case RolledBack => AbortAgrees(c, x, ME, w, d, Misses(c, db, w, d, fault), db, saved);
    case Committed => CommitAgrees(c, x, ME, step, db, saved);
    case Refused =>
      RefusedBySearch(c, db, w, d, carrier);
      RefusedDeliveryAgrees(c, x, ME, w, d, carrier, db, saved);
  }

  /** The warehouse and district updates; a row that is not there is not missed. */
  method PayTotals(s: State, w: int, d: int) returns (t: State)
    ensures t == AddYtd(s, w, d)
  {
    var warehouses, districts := s.warehouse, s.district;
    if w in warehouses {
      warehouses := warehouses[w := warehouses[w] + PAYMENT];
    }
    if (w, d) in districts {
      districts := districts[(w, d) := districts[(w, d)].(ytd := districts[(w, d)].ytd + PAYMENT)];
    }
    t := s.(warehouse := warehouses, district := districts);
  }

  /** The three updates of a Payment go out together; only the last is looked at. */
  method Pay(s: State, w: int, d: int, id: int) returns (t: State, ok: bool)
    ensures ok <==> PaymentCommits(s, w, d, id)
    ensures t == if ok then Payment(s, w, d, id) else AddYtd(s, w, d)
  {
    t := PayTotals(s, w, d);
    ok := (w, d, id) in t.customer;
    if ok {
      var cust := t.customer[(w, d, id)];
      var paid := Customer(cust.balance - PAYMENT, cust.ytdPayment + PAYMENT, cust.paymentCnt + 1, cust.deliveryCnt);
      t := t.(customer := t.customer[(w, d, id) := paid], history := t.history + [History(w, d, id, PAYMENT)]);
    }
  }

  /** The bounded search: moves the cursor to the first queued order at or after it. */
  method SearchQueue(c: Config, s: State, w: int, d: int, fault: Option<nat>)
    returns (t: State, found: bool, error: bool)
    ensures var at, limit := CursorOf(c, s, w, d), SearchLimit(c);
            && (error <==> fault.Some? && Reaches(s.newOrder, w, d, at, limit, fault.value))
            && (error ==> t == LeaveCursor(c, s, w, d, fault.value))
            && (!error ==> t == MoveCursor(c, s, w, d) && found == Search(s.newOrder, w, d, at, limit).1)
  {
    hide Search, SearchPart;
    var cursor := CursorOf(c, s, w, d);
    ghost var start, limit := cursor, SearchLimit(c);
    var looks := 0;
    while true
      invariant cursor == start + looks && looks >= 0 && Reaches(s.newOrder, w, d, start, limit, looks)
      invariant Search(s.newOrder, w, d, cursor, limit) == Search(s.newOrder, w, d, start, limit)
      invariant fault.Some? ==> looks <= fault.value
      decreases limit - cursor
    {
      SearchOnce(s.newOrder, w, d, cursor, limit);
      if fault == Some(looks) {
        ReachesPart(s.newOrder, w, d, start, limit, looks);
        return s.(cursors := s.cursors[(w, d) := cursor]), false, true;
      }
      if (w, d, cursor) in s.newOrder {
        return s.(cursors := s.cursors[(w, d) := cursor]), true, false;
      }
      cursor, looks := cursor + 1, looks + 1;
      if cursor - 1 >= c.orders + 100000 {
        return s.(cursors := s.cursors[(w, d) := cursor]), false, false;
      }
    }
  }

  /** The statements of a Delivery after the search. */
  method DeliverFound(s: State, w: int, d: int, o: int, carrier: int) returns (t: State, ok: bool)
    requires (w, d, o) in s.newOrder
    ensures ok <==> DeliveryCommits(s, w, d, o)
    ensures t == if ok then Deliver(s, w, d, o, carrier) else Undelivered(s, w, d, o, carrier)
  {
    hide LineCount, LineAmount, MarkDelivered;
    t := s.(newOrder := s.newOrder - {(w, d, o)});
    if (w, d, o) !in t.orders { return t, false; }
    var id := t.orders[(w, d, o)].cid;
    t := t.(orders := t.orders[(w, d, o) := t.orders[(w, d, o)].(carrier := Some(carrier))]);
    var count, amount := AddLines(t.lines, w, d, o);
    if count < MIN_LINES { return t, false; }
    t := t.(lines := MarkDelivered(t.lines, w, d, o));
    if (w, d, id) !in t.customer { return t, false; }
    var cust := t.customer[(w, d, id)];
    t := t.(customer := t.customer[(w, d, id) := cust.(balance := cust.balance + amount,
                                                       deliveryCnt := cust.deliveryCnt + 1)]);
    t := t.(cursors := t.cursors[(w, d) := o + 1]);
    ok := true;
  }

  /** What a refused Delivery leaves in its transaction. */
  function DeliveryRefused(c: Config, s: State, w: int, d: int, carrier: int): State {
    var (o, found) := Search(s.newOrder, w, d, CursorOf(c, s, w, d), SearchLimit(c));
    if found then Undelivered(MoveCursor(c, s, w, d), w, d, o, carrier) else MoveCursor(c, s, w, d)
  }

  /** In consistent tables a Delivery is refused only by its search, and leaves nothing but the cursor. */
  lemma RefusedBySearch(c: Config, s: State, w: int, d: int, carrier: int)
    requires ValidConfig(c) && TablesInv(c, s) && DeliveryOutcome(c, s, w, d) == NotDelivered
    ensures DeliveryRefused(c, s, w, d, carrier) == MoveCursor(c, s, w, d)
  {
    hide Search, TablesInv, DeliveryCommits, Undelivered;
    var (o, found) := Search(s.newOrder, w, d, CursorOf(c, s, w, d), SearchLimit(c));
    SearchAnswer(s.newOrder, w, d, CursorOf(c, s, w, d), SearchLimit(c));
    if found { RefusedIsInconsistent(c, s, w, d, o); }
  }

  /** Moving the cursor first makes no difference to what is delivered. */
  lemma DeliverAnywhere(c: Config, s: State, w: int, d: int, carrier: int)
    requires Search(s.newOrder, w, d, CursorOf(c, s, w, d), SearchLimit(c)).1
    ensures var o := Search(s.newOrder, w, d, CursorOf(c, s, w, d), SearchLimit(c)).0;
            && (w, d, o) in s.newOrder
            && (DeliveryCommits(MoveCursor(c, s, w, d), w, d, o) <==> DeliveryCommits(s, w, d, o))
            && (DeliveryCommits(s, w, d, o) ==>
                  Deliver(MoveCursor(c, s, w, d), w, d, o, carrier) == Deliver(s, w, d, o, carrier))
  {
    hide Search, LineCount, LineAmount, MarkDelivered, CursorOf;
    SearchAnswer(s.newOrder, w, d, CursorOf(c, s, w, d), SearchLimit(c));
  }

  /**
   What Order-Status answers. With consistent tables and maps it answers exactly as `StatusKnown` says,
   with the customer's last order, all its lines and the balance.
   */
  ghost predicate StatusAnswer(c: Config, s: State, w: int, d: int, id: int, r: Report)
    requires ValidConfig(c)
  {
    && (r.Report? ==> StatusFound(s, w, d, id, r.order) && r.balance == s.customer[(w, d, id)].balance)
    && (TablesInv(c, s) && ClientInv(c, s) ==>
          && (r.Report? <==> StatusKnown(c, s, w, d, id))
          && (r.Report? ==> LastOrderOf(s, w, d, id, r.order) && r.lines == s.orders[(w, d, r.order)].olCnt))
  }

  /** The formula comes first: only when it finds an order is there a statement that can fail. */
  method ReadStatus(c: Config, db: State, w: int, d: int, id: int, fault: bool) returns (r: Report, error: bool)
    requires ValidConfig(c)
    ensures error <==> fault && !NoMatch(c, d, id, Larger(c.orders, c.customers))
    ensures if error then r == NoReport else StatusAnswer(c, db, w, d, id, r)
  {
    error := false;
    var loaded := LoadedOrderForCustomer(c, d, id);
    if loaded == 0 { return NoReport, false; }
    if fault { return NoReport, true; }
    var o := if (w, d, id) in db.latest then db.latest[(w, d, id)] else loaded;
    if TablesInv(c, db) && ClientInv(c, db) { StatusIff(c, db, w, d, id, loaded, o); }
    hide TablesInv, ClientInv, StatusKnown, LastOrderOf, NoMatch, GreatestMatch, LineCount, LineAmount;
    if (w, d, id) !in db.customer || (w, d, o) !in db.orders || db.orders[(w, d, o)].cid != id {
      return NoReport, false;
    }
    var count, amount := AddLines(db.lines, w, d, o);
    if count < MIN_LINES { return NoReport, false; }
    r := Report(o, db.customer[(w, d, id)].balance, count);
  }

  /**
   What Stock-Level answers. With consistent tables and the last twenty orders known, it never fails for a
   district that exists, and counts the items of those orders whose stock is below the threshold.
   */
  ghost predicate StockAnswer(c: Config, s: State, w: int, d: int, threshold: int, count: Option<nat>)
    requires ValidConfig(c)
  {
    && ((w, d) !in s.district ==> count == None)
    && (TablesInv(c, s) && InRange(c, w, d) && WindowKnown(c, s, w, d) ==>
          (w, d) in s.district && count == Some(|LowStock(s, w, WindowItems(s, w, d), threshold)|))
  }

  method ReadStock(c: Config, db: State, w: int, d: int, threshold: int) returns (count: Option<nat>)
    requires ValidConfig(c)
    ensures StockAnswer(c, db, w, d, threshold, count)
  {
    hide TablesInv, InRange, DerivedItems, WindowItems, WindowKnown;
    if TablesInv(c, db) && InRange(c, w, d) && WindowKnown(c, db, w, d) { WindowInStock(c, db, w, d); }
    if (w, d) !in db.district { return None; }
    var next := db.district[(w, d)].nextOid;
    var items := WindowKeys(c, db, w, d, next);
    if items == {} || |items| > MAX_KEYS { return None; }
    var found := set i | i in items && (w, i) in db.stock;
    assert (forall i :: i in items ==> (w, i) in db.stock) ==> found == items;
    if |found| != |items| { return None; }
    var low := set i | i in found && db.stock[(w, i)].quantity < threshold;
    assert low == LowStock(db, w, items, threshold);
    count := Some(|low|);
  }

  /** The two nested loops that derive the item keys of the last twenty orders. */
  method WindowKeys(c: Config, db: State, w: int, d: int, next: int) returns (items: set<int>)
    requires ValidConfig(c)
    ensures items == DerivedItems(c, db, w, d, WindowStart(next), next)
  {
    hide DerivedLines, DerivedCount;
    items := {};
    var order := Larger(1, next - WINDOW);
    while order < next
      invariant WindowStart(next) <= order <= Larger(next, WindowStart(next))
      invariant items == DerivedItems(c, db, w, d, WindowStart(next), order)
    {
      var more := OrderKeys(c, db, w, d, order);
      items := items + more;
      order := order + 1;
    }
  }

  method OrderKeys(c: Config, db: State, w: int, d: int, order: int) returns (items: set<int>)
    requires ValidConfig(c)
    ensures items == DerivedLines(c, db, w, d, order, DerivedCount(c, db, w, d, order))
  {
    var runtime := (w, d, order) in db.runtimeItems;
    var count := if runtime then |db.runtimeItems[(w, d, order)]| else LoadedLineCount(c, w, d, order);
    items := {};
    for line := 0 to count
      invariant items == DerivedLines(c, db, w, d, order, line)
    {
      var item := if runtime then db.runtimeItems[(w, d, order)][line] else LoadedItem(c, d, order, line + 1);
      items := items + {item};
    }
  }
}
