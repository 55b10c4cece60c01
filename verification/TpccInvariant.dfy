/**
 What the order tables of each district look like in every run, and what the queue of undelivered
 orders and the client's delivery cursor look like in runs that call Delivery safely.
 */
module TpccInvariant {
  import opened Arithmetic
  import opened Options
  import opened TpccFormulas
  import opened TpccState

  predicate InRange(c: Config, w: int, d: int) {
    1 <= w <= c.warehouses && 1 <= d <= c.districts
  }

  /** Which rows the tables that never grow or shrink hold. */
  ghost predicate KeysInv(c: Config, s: State) {
    && (forall w :: w in s.warehouse <==> 1 <= w <= c.warehouses)
    && (forall w, d :: (w, d) in s.district <==> InRange(c, w, d))
    && (forall w, d, id :: (w, d, id) in s.customer <==> InRange(c, w, d) && 1 <= id <= c.customers)
    && (forall w, i :: (w, i) in s.stock <==> 1 <= w <= c.warehouses && 1 <= i <= c.items)
    && (forall w, d, o :: (w, d, o) in s.newOrder ==> InRange(c, w, d))
  }

  /** Line `k` of order `o`: written by the loader's formula or by New-Order, dated once delivered. */
  ghost predicate LineInv(c: Config, line: Line, d: int, o: int, k: int, queued: bool)
    requires c.items > 0
  {
    && (line.delivered.None? <==> queued)
    && line.item == (if o <= c.orders then LoadedItem(c, d, o, k) else RuntimeItem(d, k))
    && 1 <= line.item <= c.items && line.quantity == 5
    && line.amount == (if o <= c.orders then LoadedAmount(c, o, k) else line.quantity * ItemPrice(line.item))
    && (line.delivered == Some(LoadTime) <==> o <= LoadedDelivered(c))
  }

  ghost predicate OrderInv(c: Config, s: State, w: int, d: int, o: int)
    requires ValidConfig(c)
  {
    && (w, d, o) in s.orders
    && var ord, queued := s.orders[(w, d, o)], (w, d, o) in s.newOrder;
    && (ord.carrier.None? <==> queued) && (queued ==> LoadedDelivered(c) < o)
    && 1 <= ord.cid <= c.customers
    && ord.olCnt == (if o <= c.orders then LoadedLineCount(c, w, d, o) else NEW_ORDER_LINES)
    && (o <= c.orders ==> ord.cid == LoadedCustomer(c, d, o))
    && (forall k :: (w, d, o, k) in s.lines <==> 1 <= k <= ord.olCnt)
    && (forall k :: (w, d, o, k) in s.lines ==> LineInv(c, s.lines[(w, d, o, k)], d, o, k, queued))
  }

  /** The district's orders are 1..next-1, each with its lines, and only they are queued. */
  ghost predicate DistrictInv(c: Config, s: State, w: int, d: int)
    requires ValidConfig(c)
  {
    && (w, d) in s.district
    && var n := s.district[(w, d)].nextOid;
    && c.orders < n
    && (forall o :: (w, d, o) in s.orders <==> 1 <= o < n)
    && (forall o :: (w, d, o) in s.newOrder ==> 1 <= o < n)
    && (forall o, k :: (w, d, o, k) in s.lines ==> 1 <= o < n)
    && (forall o :: 1 <= o < n ==> OrderInv(c, s, w, d, o))
  }

  ghost predicate TablesInv(c: Config, s: State)
    requires ValidConfig(c)
  {
    KeysInv(c, s) && forall w, d :: InRange(c, w, d) ==> DistrictInv(c, s, w, d)
  }

  /** The district's queue is h..next-1. */
  ghost predicate QueueFrom(c: Config, s: State, w: int, d: int, h: int) {
    && (w, d) in s.district
    && LoadedDelivered(c) < h <= s.district[(w, d)].nextOid
    && forall o :: (w, d, o) in s.newOrder <==> h <= o < s.district[(w, d)].nextOid
  }

  ghost predicate QueueInv(c: Config, s: State) {
    forall w, d :: InRange(c, w, d) ==> exists h :: QueueFrom(c, s, w, d, h)
  }

  /** No queued order is below the cursor. */
  ghost predicate CursorInv(c: Config, s: State) {
    forall w, d, h :: InRange(c, w, d) && QueueFrom(c, s, w, d, h) ==> CursorOf(c, s, w, d) <= h
  }

  /** The head of a district's queue is determined by its tables. */
  lemma HeadUnique(c: Config, s: State, w: int, d: int, h: int, h': int)
    requires QueueFrom(c, s, w, d, h) && QueueFrom(c, s, w, d, h')
    ensures h == h'
  {
    var first, second := (w, d, h) in s.newOrder, (w, d, h') in s.newOrder;
  }

  // --- the loaded state ---

  lemma LoadedOrderRow(c: Config, w: int, d: int, o: int)
    requires ValidConfig(c) && InRange(c, w, d)
    ensures (w, d, o) in Load(c).orders <==> 1 <= o <= c.orders
    ensures 1 <= o <= c.orders ==> Load(c).orders[(w, d, o)] == LoadedOrder(c, w, d, o)
    ensures (w, d, o) in Load(c).newOrder <==> FirstCursor(c) <= o <= c.orders
  {
  }

  lemma LoadedLineRow(c: Config, w: int, d: int, o: int, k: int)
    requires ValidConfig(c) && InRange(c, w, d)
    ensures (w, d, o, k) in Load(c).lines <==> 1 <= o <= c.orders && 1 <= k <= LoadedLineCount(c, w, d, o)
    ensures (w, d, o, k) in Load(c).lines ==> Load(c).lines[(w, d, o, k)] == LoadedLine(c, d, o, k)
  {
  }

  lemma LoadedOrderInv(c: Config, w: int, d: int, o: int)
    requires ValidConfig(c) && InRange(c, w, d) && 1 <= o <= c.orders
    ensures OrderInv(c, Load(c), w, d, o)
  {
    var s := Load(c);
    LoadedOrderRow(c, w, d, o);
    forall k
      ensures (w, d, o, k) in s.lines <==> 1 <= k <= s.orders[(w, d, o)].olCnt
      ensures (w, d, o, k) in s.lines ==> LineInv(c, s.lines[(w, d, o, k)], d, o, k, (w, d, o) in s.newOrder)
    {
      LoadedLineRow(c, w, d, o, k);
    }
  }

  lemma LoadedDistrict(c: Config, w: int, d: int)
    requires ValidConfig(c) && InRange(c, w, d)
    ensures DistrictInv(c, Load(c), w, d) && QueueFrom(c, Load(c), w, d, FirstCursor(c))
  {
    var s := Load(c);
    assert s.district[(w, d)].nextOid == c.orders + 1;
    forall o ensures (w, d, o) in s.orders <==> 1 <= o <= c.orders
             ensures (w, d, o) in s.newOrder <==> FirstCursor(c) <= o <= c.orders {
      LoadedOrderRow(c, w, d, o);
    }
    forall o, k | (w, d, o, k) in s.lines ensures 1 <= o <= c.orders {
      LoadedLineRow(c, w, d, o, k);
    }
    forall o | 1 <= o <= c.orders ensures OrderInv(c, s, w, d, o) {
      LoadedOrderInv(c, w, d, o);
    }
  }

  lemma LoadedTables(c: Config)
    requires ValidConfig(c)
    ensures TablesInv(c, Load(c)) && QueueInv(c, Load(c)) && CursorInv(c, Load(c))
  {
    forall w, d | InRange(c, w, d)
      ensures DistrictInv(c, Load(c), w, d) && QueueFrom(c, Load(c), w, d, FirstCursor(c))
    {
      LoadedDistrict(c, w, d);
    }
    forall w, d, h | InRange(c, w, d) && QueueFrom(c, Load(c), w, d, h) ensures CursorOf(c, Load(c), w, d) <= h {
      HeadUnique(c, Load(c), w, d, h, FirstCursor(c));
    }
  }

  // --- frames ---

  /** Two states agree on everything a district's order tables hold. */
  ghost predicate SameDistrict(s: State, t: State, w: int, d: int) {
    && ((w, d) in s.district <==> (w, d) in t.district)
    && ((w, d) in s.district ==> s.district[(w, d)].nextOid == t.district[(w, d)].nextOid)
    && (forall o :: (w, d, o) in s.orders <==> (w, d, o) in t.orders)
    && (forall o :: (w, d, o) in s.orders ==> s.orders[(w, d, o)] == t.orders[(w, d, o)])
    && (forall o :: (w, d, o) in s.newOrder <==> (w, d, o) in t.newOrder)
    && (forall o, k :: (w, d, o, k) in s.lines <==> (w, d, o, k) in t.lines)
    && (forall o, k :: (w, d, o, k) in s.lines ==> s.lines[(w, d, o, k)] == t.lines[(w, d, o, k)])
  }

  lemma DistrictFrame(c: Config, s: State, t: State, w: int, d: int)
    requires ValidConfig(c) && DistrictInv(c, s, w, d) && SameDistrict(s, t, w, d)
    ensures DistrictInv(c, t, w, d)
  {
    forall o | 1 <= o < t.district[(w, d)].nextOid ensures OrderInv(c, t, w, d, o) {
      assert OrderInv(c, s, w, d, o);
    }
  }

  lemma QueueFrame(c: Config, s: State, t: State, w: int, d: int, h: int)
    requires QueueFrom(c, s, w, d, h) && SameDistrict(s, t, w, d)
    ensures QueueFrom(c, t, w, d, h)
  {
  }

  // --- New-Order ---

  lemma NewOrderElsewhere(c: Config, s: State, w: int, d: int, id: int, w': int, d': int)
    requires (w', d') != (w, d)
    ensures SameDistrict(s, NewOrder(c, s, w, d, id), w', d')
  {
  }

  lemma NewOrderRow(c: Config, s: State, w: int, d: int, id: int)
    requires ValidConfig(c) && KeysInv(c, s) && DistrictInv(c, s, w, d) && NewOrderCommits(c, s, w, d, id)
    ensures OrderInv(c, NewOrder(c, s, w, d, id), w, d, s.district[(w, d)].nextOid)
  {
    var t, n := NewOrder(c, s, w, d, id), s.district[(w, d)].nextOid;
    forall k
      ensures (w, d, n, k) in t.lines <==> 1 <= k <= NEW_ORDER_LINES
      ensures (w, d, n, k) in t.lines ==> LineInv(c, t.lines[(w, d, n, k)], d, n, k, true)
    {
      NewLineRow(s.lines, w, d, n, n, k);
      hide WithNewLines, OrderInv;
      if 1 <= k <= NEW_ORDER_LINES {
        assert Available(c, s.stock, w, RuntimeItem(d, k));
      }
    }
    hide WithNewLines, DistrictInv, KeysInv, AllAvailable, NoLines, LineInv;
  }

  /** The rows of one district after five lines were inserted for order `n`. */
  lemma NewLineRow(lines: map<LineKey, Line>, w: int, d: int, n: int, o: int, k: int)
    ensures (w, d, o, k) in WithNewLines(lines, w, d, n) <==>
            (w, d, o, k) in lines || (o == n && 1 <= k <= NEW_ORDER_LINES)
    ensures (w, d, o, k) in WithNewLines(lines, w, d, n) ==>
              WithNewLines(lines, w, d, n)[(w, d, o, k)] ==
              if o == n && 1 <= k <= NEW_ORDER_LINES then RuntimeLine(d, k) else lines[(w, d, o, k)]
  {
  }

  lemma NewOrderOldRow(c: Config, s: State, w: int, d: int, id: int, o: int)
    requires ValidConfig(c) && DistrictInv(c, s, w, d) && NewOrderCommits(c, s, w, d, id)
    requires 1 <= o < s.district[(w, d)].nextOid
    ensures OrderInv(c, NewOrder(c, s, w, d, id), w, d, o)
  {
    var t := NewOrder(c, s, w, d, id);
    assert OrderInv(c, s, w, d, o);
    forall k
      ensures (w, d, o, k) in t.lines <==> (w, d, o, k) in s.lines
      ensures (w, d, o, k) in t.lines ==> t.lines[(w, d, o, k)] == s.lines[(w, d, o, k)]
    {
      NewLineRow(s.lines, w, d, s.district[(w, d)].nextOid, o, k);
    }
    hide WithNewLines, DistrictInv, AllAvailable, NoLines;
  }

  lemma NewOrderDistrict(c: Config, s: State, w: int, d: int, id: int)
    requires ValidConfig(c) && KeysInv(c, s) && DistrictInv(c, s, w, d) && NewOrderCommits(c, s, w, d, id)
    ensures DistrictInv(c, NewOrder(c, s, w, d, id), w, d)
  {
    var t, n := NewOrder(c, s, w, d, id), s.district[(w, d)].nextOid;
    hide OrderInv, KeysInv, AllAvailable, NoLines, Restocked;
    forall o, k | (w, d, o, k) in t.lines ensures 1 <= o < n + 1 {
      NewLineRow(s.lines, w, d, n, o, k);
    }
    hide WithNewLines;
    forall o | 1 <= o < n + 1 ensures OrderInv(c, t, w, d, o) {
      if o < n {
        NewOrderOldRow(c, s, w, d, id, o);
      } else {
        NewOrderRow(c, s, w, d, id);
      }
    }
  }

  lemma NewOrderQueue(c: Config, s: State, w: int, d: int, id: int, h: int)
    requires QueueFrom(c, s, w, d, h) && NewOrderCommits(c, s, w, d, id)
    ensures QueueFrom(c, NewOrder(c, s, w, d, id), w, d, h)
  {
  }

  // --- Delivery ---

  lemma DeliverElsewhere(s: State, w: int, d: int, o: int, carrier: int, w': int, d': int)
    requires DeliveryCommits(s, w, d, o) && (w', d') != (w, d)
    ensures SameDistrict(s, Deliver(s, w, d, o, carrier), w', d')
  {
  }

  lemma DeliverRow(c: Config, s: State, w: int, d: int, o: int, carrier: int, p: int)
    requires ValidConfig(c) && OrderInv(c, s, w, d, p) && DeliveryCommits(s, w, d, o)
    ensures OrderInv(c, Deliver(s, w, d, o, carrier), w, d, p)
  {
    var t := Deliver(s, w, d, o, carrier);
    assert forall k :: (w, d, p, k) in t.lines <==> (w, d, p, k) in s.lines;
    forall k | (w, d, p, k) in t.lines ensures LineInv(c, t.lines[(w, d, p, k)], d, p, k, (w, d, p) in t.newOrder) {
      assert LineInv(c, s.lines[(w, d, p, k)], d, p, k, (w, d, p) in s.newOrder);
    }
  }

  /** Whichever queued order is delivered, the tables stay consistent. */
  lemma DeliverDistrict(c: Config, s: State, w: int, d: int, o: int, carrier: int)
    requires ValidConfig(c) && DistrictInv(c, s, w, d) && DeliveryCommits(s, w, d, o)
    ensures DistrictInv(c, Deliver(s, w, d, o, carrier), w, d)
  {
    var t := Deliver(s, w, d, o, carrier);
    forall p | 1 <= p < t.district[(w, d)].nextOid ensures OrderInv(c, t, w, d, p) {
      DeliverRow(c, s, w, d, o, carrier, p);
    }
  }

  lemma DeliverQueue(c: Config, s: State, w: int, d: int, h: int, carrier: int)
    requires QueueFrom(c, s, w, d, h) && DeliveryCommits(s, w, d, h)
    ensures QueueFrom(c, Deliver(s, w, d, h, carrier), w, d, h + 1)
  {
  }

  lemma {:induction false} LineCountIs(lines: map<LineKey, Line>, w: int, d: int, o: int, m: nat, n: nat)
    requires forall k :: (w, d, o, k) in lines <==> 1 <= k <= m
    ensures LineCount(lines, w, d, o, n) == if n < m then n else m
  {
    if n > 0 { LineCountIs(lines, w, d, o, m, n - 1); }
  }

  /** In a consistent district every queued order can be delivered. */
  lemma QueuedCommits(c: Config, s: State, w: int, d: int, o: int)
    requires ValidConfig(c) && KeysInv(c, s) && DistrictInv(c, s, w, d) && (w, d, o) in s.newOrder
    ensures DeliveryCommits(s, w, d, o)
  {
    assert OrderInv(c, s, w, d, o);
    LineCountIs(s.lines, w, d, o, s.orders[(w, d, o)].olCnt, MAX_LINES);
  }

  lemma {:induction false} SearchFinds(queue: set<OrderKey>, w: int, d: int, at: int, limit: int, h: int)
    requires at <= h && (h <= limit || at == h)
    requires (w, d, h) in queue && forall o :: at <= o < h ==> (w, d, o) !in queue
    ensures Search(queue, w, d, at, limit) == (h, true)
    decreases h - at
  {
    if at < h { SearchFinds(queue, w, d, at + 1, limit, h); }
  }

  lemma {:induction false} SearchFails(queue: set<OrderKey>, w: int, d: int, at: int, limit: int)
    requires forall o :: at <= o <= Larger(at, limit) ==> (w, d, o) !in queue
    ensures Search(queue, w, d, at, limit) == (Larger(at, limit) + 1, false)
    decreases if at < limit then limit - at else 0
  {
    if at < limit { SearchFails(queue, w, d, at + 1, limit); }
  }

  /** The cursor search finds the oldest queued order, or fails exactly when that lies out of reach. */
  lemma SearchOutcome(c: Config, s: State, w: int, d: int, h: int)
    requires QueueFrom(c, s, w, d, h) && CursorOf(c, s, w, d) <= h
    ensures var at, limit, n := CursorOf(c, s, w, d), SearchLimit(c), s.district[(w, d)].nextOid;
            Search(s.newOrder, w, d, at, limit) ==
            if h < n && (h <= limit || at == h) then (h, true) else (Larger(at, limit) + 1, false)
  {
    var at, limit, n := CursorOf(c, s, w, d), SearchLimit(c), s.district[(w, d)].nextOid;
    if h < n && (h <= limit || at == h) {
      SearchFinds(s.newOrder, w, d, at, limit, h);
    } else {
      SearchFails(s.newOrder, w, d, at, limit);
    }
  }

  lemma {:induction false} SearchPartFails(queue: set<OrderKey>, w: int, d: int, at: int, limit: int, looks: nat)
    requires forall o :: at <= o <= Larger(at, limit) ==> (w, d, o) !in queue
    ensures SearchPart(queue, w, d, at, limit, looks) ==
            if at + looks <= Larger(at, limit) then at + looks else if looks == 0 then at else Larger(at, limit) + 1
    decreases looks
  {
    if looks > 0 && at < limit { SearchPartFails(queue, w, d, at + 1, limit, looks - 1); }
  }

  lemma {:induction false} SearchPartFinds(queue: set<OrderKey>, w: int, d: int, at: int, limit: int,
                                           h: int, looks: nat)
    requires at <= h && (h <= limit || at == h)
    requires (w, d, h) in queue && forall o :: at <= o < h ==> (w, d, o) !in queue
    ensures SearchPart(queue, w, d, at, limit, looks) == if at + looks < h then at + looks else h
    decreases looks
  {
    if looks > 0 && at < h { SearchPartFinds(queue, w, d, at + 1, limit, h, looks - 1); }
  }

  /** An interrupted search never passes a queued order; with an empty queue it may pass the next id. */
  lemma SearchPartOutcome(c: Config, s: State, w: int, d: int, h: int, looks: nat)
    requires QueueFrom(c, s, w, d, h) && CursorOf(c, s, w, d) <= h
    ensures var at, limit, n := CursorOf(c, s, w, d), SearchLimit(c), s.district[(w, d)].nextOid;
            SearchPart(s.newOrder, w, d, at, limit, looks) <= h <==>
            h < n || n > Larger(at, limit) || at + looks <= n
  {
    var at, limit, n := CursorOf(c, s, w, d), SearchLimit(c), s.district[(w, d)].nextOid;
    if h < n && (h <= limit || at == h) {
      SearchPartFinds(s.newOrder, w, d, at, limit, h, looks);
    } else {
      SearchPartFails(s.newOrder, w, d, at, limit, looks);
    }
  }
}
