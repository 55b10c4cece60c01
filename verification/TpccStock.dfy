/**
 The stock table over every run: each row is a closed function of its item and of how many orders its
 home district has taken since loading.
 */
module TpccStock {
  import opened TpccFormulas
  import opened TpccState
  import opened TpccInvariant
  import opened TpccRuns

  /** The stock row of item `i` after `n` New-Orders have taken five of it each. */
  function StockAfter(i: int, n: int): Stock {
    Stock(10 + (37 * i - 5 * n) % 91, 5 * n, n)
  }

  /** The only district whose New-Orders can name item `i`. */
  function HomeDistrict(i: int): int {
    (i - 1) / 10
  }

  lemma HomeIff(d: int, i: int)
    ensures Ordered(d, i) <==> d == HomeDistrict(i) && (i - 1) % 10 < NEW_ORDER_LINES
  {
    assert i - 1 == 10 * HomeDistrict(i) + (i - 1) % 10;
  }

  /** How many New-Orders named item `i` of warehouse `w`. */
  function TimesOrdered(c: Config, s: State, w: int, i: int): int {
    var d := HomeDistrict(i);
    if (w, d) in s.district && Ordered(d, i) then s.district[(w, d)].nextOid - 1 - c.orders else 0
  }

  ghost predicate StockInv(c: Config, s: State) {
    && (forall k :: k in s.stock <==> 1 <= k.0 <= c.warehouses && 1 <= k.1 <= c.items)
    && (forall k :: k in s.stock ==> s.stock[k] == StockAfter(k.1, TimesOrdered(c, s, k.0, k.1)))
  }

  lemma LoadedStockInv(c: Config)
    requires ValidConfig(c)
    ensures StockInv(c, Load(c))
  {
    var s := Load(c);
    forall k ensures k in s.stock <==> 1 <= k.0 <= c.warehouses && 1 <= k.1 <= c.items {
      assert k == (k.0, k.1);
    }
    forall k | k in s.stock ensures s.stock[k] == StockAfter(k.1, TimesOrdered(c, s, k.0, k.1)) {
      assert TimesOrdered(c, s, k.0, k.1) == 0;
    }
  }

  /** Taking five and topping up by 91 below 15 walks the residues modulo 91. */
  lemma RestockIs(i: int, n: int)
    ensures Restock(StockAfter(i, n)) == StockAfter(i, n + 1)
  {
    Residue(37 * i - 5 * n);
  }

  lemma Residue(x: int)
    ensures (x - 5) % 91 == if x % 91 >= 5 then x % 91 - 5 else x % 91 + 86
  {
  }

  lemma NewOrderTimes(c: Config, s: State, w: int, d: int, id: int, w': int, i: int)
    requires NewOrderCommits(c, s, w, d, id)
    ensures TimesOrdered(c, NewOrder(c, s, w, d, id), w', i) ==
            TimesOrdered(c, s, w', i) + if w' == w && Ordered(d, i) then 1 else 0
  {
    HomeIff(d, i);
    hide Ordered;
  }

  lemma NewOrderStock(c: Config, s: State, w: int, d: int, id: int)
    requires StockInv(c, s) && NewOrderCommits(c, s, w, d, id)
    ensures StockInv(c, NewOrder(c, s, w, d, id))
  {
    var t := NewOrder(c, s, w, d, id);
    forall k | k in t.stock ensures t.stock[k] == StockAfter(k.1, TimesOrdered(c, t, k.0, k.1)) {
      NewOrderTimes(c, s, w, d, id, k.0, k.1);
      RestockIs(k.1, TimesOrdered(c, s, k.0, k.1));
    }
  }

  /** Neither a stock row nor an order counter changed. */
  lemma StockUntouched(c: Config, s: State, t: State)
    requires StockInv(c, s) && t.stock == s.stock && t.district.Keys == s.district.Keys
    requires forall k :: k in s.district ==> t.district[k].nextOid == s.district[k].nextOid
    ensures StockInv(c, t)
  {
    forall k | k in t.stock ensures t.stock[k] == StockAfter(k.1, TimesOrdered(c, t, k.0, k.1)) {
      assert TimesOrdered(c, t, k.0, k.1) == TimesOrdered(c, s, k.0, k.1);
    }
  }

  lemma DeliveryStock(c: Config, s: State, w: int, d: int, carrier: int)
    requires StockInv(c, s)
    ensures StockInv(c, Next(c, s, DeliveryStep(w, d, carrier)))
  {
    hide StockInv, Search;
    match DeliveryOutcome(c, s, w, d)
    case Delivered(o) => StockUntouched(c, s, Deliver(s, w, d, o, carrier));
    case NotDelivered => StockUntouched(c, s, MoveCursor(c, s, w, d));
  }

  lemma StepStock(c: Config, s: State, step: Step)
    requires StockInv(c, s)
    ensures StockInv(c, Next(c, s, step))
  {
    hide StockInv, SearchPart, DeliveryOutcome, Deliver, MoveCursor;
    match step
    case NewOrderStep(w, d, id) =>
      if NewOrderCommits(c, s, w, d, id) { NewOrderStock(c, s, w, d, id); }
    case PaymentStep(w, d, id) => StockUntouched(c, s, Payment(s, w, d, id));
    case DeliveryStep(w, d, carrier) => DeliveryStock(c, s, w, d, carrier);
    case Publish(w, d) => StockUntouched(c, s, AddYtd(s, w, d));
    case AbortDelivery(w, d, looks) => StockUntouched(c, s, LeaveCursor(c, s, w, d, looks));
    case Abort =>
    case Reset => StockUntouched(c, s, Next(c, s, step));
  }

  /** After every run the stock table is determined by the district table. */
  lemma {:induction false} RunStock(c: Config, steps: seq<Step>)
    requires ValidConfig(c)
    ensures StockInv(c, Run(c, Load(c), steps))
  {
    if steps == [] {
      LoadedStockInv(c);
    } else {
      hide StockInv, Next;
      RunStock(c, steps[..|steps| - 1]);
      StepStock(c, Run(c, Load(c), steps[..|steps| - 1]), steps[|steps| - 1]);
    }
  }

  lemma Congruent(x: int)
    ensures (x % 91 - x) % 91 == 0
  {
    assert x % 91 - x == 91 * -(x / 91);
  }

  /** What is promised of a stock row. */
  ghost predicate RowHolds(c: Config, s: State, w: int, i: int) {
    && (w, i) in s.stock
    && var row := s.stock[(w, i)];
    && row.ytd == 5 * row.orderCnt && 0 <= row.orderCnt
    && 10 <= row.quantity <= 100
    && (row.quantity - 10 - (37 * i - row.ytd)) % 91 == 0
    && forall d :: Ordered(d, i) ==>
                     row.orderCnt == if (w, d) in s.district then s.district[(w, d)].nextOid - 1 - c.orders else 0
  }

  lemma RowFollows(c: Config, s: State, w: int, i: int)
    requires StockInv(c, s) && (w, i) in s.stock && TimesOrdered(c, s, w, i) >= 0
    ensures RowHolds(c, s, w, i)
  {
    var n := TimesOrdered(c, s, w, i);
    assert s.stock[(w, i)] == StockAfter(i, n);
    forall d | Ordered(d, i)
      ensures n == if (w, d) in s.district then s.district[(w, d)].nextOid - 1 - c.orders else 0
    {
      HomeIff(d, i);
    }
    Congruent(37 * i - 5 * n);
  }

  /** After every run each row's year-to-date, quantity and order count agree with the orders taken. */
  lemma StockRow(c: Config, steps: seq<Step>, w: int, i: int)
    requires ValidConfig(c) && 1 <= w <= c.warehouses && 1 <= i <= c.items
    ensures RowHolds(c, Run(c, Load(c), steps), w, i)
  {
    var s, d := Run(c, Load(c), steps), HomeDistrict(i);
    RunStock(c, steps);
    RunTables(c, steps);
    hide Run, Load, RowHolds;
    assert (w, i) in s.stock;
    if (w, d) in s.district { assert DistrictInv(c, s, w, d); }
    RowFollows(c, s, w, i);
  }
}
