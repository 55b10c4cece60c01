/**
 What an unsafe Delivery does: called once on an empty queue it moves the cursor past orders that do
 not exist yet, and the NEW-ORDER table of the district later gets a gap.
 */
module TpccOvershoot {
  import opened TpccFormulas
  import opened TpccState
  import opened TpccInvariant
  import opened TpccRuns

  /** The steps lead from the loaded state to `t`. */
  ghost predicate Reaches(c: Config, steps: seq<Step>, t: State)
    requires ValidConfig(c)
  {
    t == Run(c, Load(c), steps)
  }

  lemma ReachesNext(c: Config, steps: seq<Step>, t: State, step: Step)
    requires ValidConfig(c) && Reaches(c, steps, t)
    ensures Reaches(c, steps + [step], Next(c, t, step))
  {
    assert (steps + [step])[..|steps|] == steps;
  }

  /** Head of the queue, delivery cursor and next order id. */
  datatype Spot = Spot(head: int, cursor: int, next: int) | Broken

  ghost function HeadOf(c: Config, s: State, w: int, d: int): (h: int)
    requires exists h :: QueueFrom(c, s, w, d, h)
    ensures QueueFrom(c, s, w, d, h)
  {
    var h :| QueueFrom(c, s, w, d, h);
    h
  }

  /** Where a district stands; broken when its queue is not h..next-1 for any h. */
  ghost function SpotOf(c: Config, s: State, w: int, d: int): Spot {
    if exists h :: QueueFrom(c, s, w, d, h)
    then Spot(HeadOf(c, s, w, d), CursorOf(c, s, w, d), s.district[(w, d)].nextOid)
    else Broken
  }

  lemma SpotIs(c: Config, s: State, w: int, d: int, h: int)
    requires QueueFrom(c, s, w, d, h)
    ensures SpotOf(c, s, w, d) == Spot(h, CursorOf(c, s, w, d), s.district[(w, d)].nextOid)
  {
    HeadUnique(c, s, w, d, HeadOf(c, s, w, d), h);
  }

  lemma DeliveryDistrict(c: Config, s: State, w: int, d: int)
    ensures Next(c, s, DeliveryStep(w, d, 7)).district == s.district
  {
    hide Search, MarkDelivered, LineAmount, NewOrder, Payment;
    match DeliveryOutcome(c, s, w, d)
    case Delivered(o) => assert Delivery(c, s, w, d, 7) == Deliver(s, w, d, o, 7);
    case NotDelivered => assert Delivery(c, s, w, d, 7) == MoveCursor(c, s, w, d);
  }

  lemma DeliverHead(c: Config, past: seq<Step>, s: State, w: int, d: int, h: int, n: int)
    requires ValidConfig(c) && InRange(c, w, d) && Reaches(c, past, s)
    requires SpotOf(c, s, w, d) == Spot(h, h, n) && h < n
    ensures SpotOf(c, Next(c, s, DeliveryStep(w, d, 7)), w, d) == Spot(h + 1, h + 1, n)
  {
    hide Load, Run, Next, DeliveryOutcome;
    var step := DeliveryStep(w, d, 7);
    RunTables(c, past);
    assert DistrictInv(c, s, w, d);
    DeliveredIsHead(c, s, w, d, h);
    DeliveryDistrict(c, s, w, d);
    StepQueue(c, s, step, w, d, h);
    CursorAfterSearch(c, s, step, w, d, h);
    SpotIs(c, Next(c, s, step), w, d, h + 1);
  }

  /** The unsafe call: nothing is queued, and the cursor runs to the end of its range. */
  lemma DeliverNothing(c: Config, past: seq<Step>, s: State, w: int, d: int, n: int)
    requires ValidConfig(c) && InRange(c, w, d) && Reaches(c, past, s)
    requires SpotOf(c, s, w, d) == Spot(n, n, n) && n <= SearchLimit(c)
    ensures SpotOf(c, Next(c, s, DeliveryStep(w, d, 7)), w, d) == Spot(n, SearchLimit(c) + 1, n)
  {
    hide Load, Run, Next, DeliveryOutcome;
    var step := DeliveryStep(w, d, 7);
    RunTables(c, past);
    assert DistrictInv(c, s, w, d);
    DeliveredIsHead(c, s, w, d, n);
    DeliveryDistrict(c, s, w, d);
    StepQueue(c, s, step, w, d, n);
    CursorAfterSearch(c, s, step, w, d, n);
    SpotIs(c, Next(c, s, step), w, d, n);
  }

  /** A New-Order leaves the cursor and the head of the queue alone. */
  lemma OrderMore(c: Config, past: seq<Step>, s: State, w: int, d: int, h: int, cursor: int, n: int)
    requires ValidConfig(c) && InRange(c, w, d) && Reaches(c, past, s)
    requires SpotOf(c, s, w, d) == Spot(h, cursor, n) && RuntimeItem(d, NEW_ORDER_LINES) <= c.items
    ensures SpotOf(c, Next(c, s, NewOrderStep(w, d, 1)), w, d) == Spot(h, cursor, n + 1)
  {
    hide Load, Run, Next, NewOrder, NewOrderCommits;
    var step := NewOrderStep(w, d, 1);
    RunTables(c, past);
    NewOrderCommitsIff(c, s, w, d, 1);
    NewOrderDistrictRow(c, s, w, d);
    NewOrderQueue(c, s, w, d, 1, h);
    CursorElsewhere(c, s, step, w, d);
    SpotIs(c, Next(c, s, step), w, d, h);
  }

  /** An order is missing from the queue while an older and a newer one are in it. */
  predicate HasGap(s: State, w: int, d: int, low: int, gap: int) {
    low < gap && (w, d, low) in s.newOrder && (w, d, gap) !in s.newOrder && (w, d, gap + 1) in s.newOrder
  }

  lemma GapIsBroken(c: Config, s: State, w: int, d: int, low: int, gap: int)
    requires HasGap(s, w, d, low, gap)
    ensures SpotOf(c, s, w, d) == Broken
  {
    forall h ensures !QueueFrom(c, s, w, d, h) {
    }
  }

  /** A Delivery whose cursor stands on a queued order takes that one, oldest or not. */
  lemma DeliverLeavesGap(c: Config, past: seq<Step>, s: State, w: int, d: int, h: int, cursor: int, n: int)
    requires ValidConfig(c) && InRange(c, w, d) && Reaches(c, past, s)
    requires SpotOf(c, s, w, d) == Spot(h, cursor, n) && h < cursor < n - 1
    ensures HasGap(Next(c, s, DeliveryStep(w, d, 7)), w, d, h, cursor)
  {
    hide Run, Load;
    RunTables(c, past);
    assert DistrictInv(c, s, w, d);
    assert (w, d, h) in s.newOrder && (w, d, cursor) in s.newOrder && (w, d, cursor + 1) in s.newOrder;
    QueuedCommits(c, s, w, d, cursor);
  }

  lemma LoadedSpot(c: Config, w: int, d: int)
    requires ValidConfig(c) && InRange(c, w, d)
    ensures Reaches(c, [], Load(c))
    ensures SpotOf(c, Load(c), w, d) == Spot(FirstCursor(c), FirstCursor(c), c.orders + 1)
  {
    LoadedDistrict(c, w, d);
    SpotIs(c, Load(c), w, d, FirstCursor(c));
  }

  /** `k` deliveries from the loaded state. */
  lemma {:induction false} AfterDeliveries(c: Config, w: int, d: int, k: nat) returns (steps: seq<Step>, t: State)
    requires ValidConfig(c) && InRange(c, w, d) && k <= c.newOrders
    ensures Reaches(c, steps, t)
    ensures SpotOf(c, t, w, d) == Spot(FirstCursor(c) + k, FirstCursor(c) + k, c.orders + 1)
  {
    hide Run, Next, Load, SpotOf, Reaches;
    if k == 0 {
      steps, t := [], Load(c);
      LoadedSpot(c, w, d);
    } else {
      var before, u := AfterDeliveries(c, w, d, k - 1);
      steps, t := before + [DeliveryStep(w, d, 7)], Next(c, u, DeliveryStep(w, d, 7));
      ReachesNext(c, before, u, DeliveryStep(w, d, 7));
      DeliverHead(c, before, u, w, d, FirstCursor(c) + k - 1, c.orders + 1);
    }
  }

  /** Everything delivered, then the unsafe call. */
  lemma AfterUnsafeCall(c: Config, w: int, d: int) returns (steps: seq<Step>, t: State)
    requires ValidConfig(c) && InRange(c, w, d)
    ensures Reaches(c, steps, t)
    ensures SpotOf(c, t, w, d) == Spot(c.orders + 1, SearchLimit(c) + 1, c.orders + 1)
  {
    hide Run, Next;
    var before, u := AfterDeliveries(c, w, d, c.newOrders);
    steps, t := before + [DeliveryStep(w, d, 7)], Next(c, u, DeliveryStep(w, d, 7));
    ReachesNext(c, before, u, DeliveryStep(w, d, 7));
    DeliverNothing(c, before, u, w, d, c.orders + 1);
  }

  /** `k` New-Orders after the unsafe call. */
  lemma {:induction false} AfterNewOrders(c: Config, w: int, d: int, k: nat) returns (steps: seq<Step>, t: State)
    requires ValidConfig(c) && InRange(c, w, d) && RuntimeItem(d, NEW_ORDER_LINES) <= c.items
    ensures Reaches(c, steps, t)
    ensures SpotOf(c, t, w, d) == Spot(c.orders + 1, SearchLimit(c) + 1, c.orders + 1 + k)
  {
    hide Run, Next;
    if k == 0 {
      steps, t := AfterUnsafeCall(c, w, d);
    } else {
      var before, u := AfterNewOrders(c, w, d, k - 1);
      steps, t := before + [NewOrderStep(w, d, 1)], Next(c, u, NewOrderStep(w, d, 1));
      ReachesNext(c, before, u, NewOrderStep(w, d, 1));
      OrderMore(c, before, u, w, d, c.orders + 1, SearchLimit(c) + 1, c.orders + k);
    }
  }

  /**
   Deliver everything, deliver once more, take 100002 orders, deliver again: the order the cursor was
   moved to is delivered before the older ones, and the queue has a gap.
   */
  lemma OvershootLeavesGap(c: Config, w: int, d: int) returns (steps: seq<Step>, t: State)
    requires ValidConfig(c) && InRange(c, w, d) && RuntimeItem(d, NEW_ORDER_LINES) <= c.items
    ensures Reaches(c, steps, t)
    ensures HasGap(t, w, d, c.orders + 1, SearchLimit(c) + 1)
    ensures SpotOf(c, t, w, d) == Broken
  {
    hide Run, Next;
    var before, u := AfterNewOrders(c, w, d, 100002);
    steps, t := before + [DeliveryStep(w, d, 7)], Next(c, u, DeliveryStep(w, d, 7));
    ReachesNext(c, before, u, DeliveryStep(w, d, 7));
    DeliverLeavesGap(c, before, u, w, d, c.orders + 1, SearchLimit(c) + 1, c.orders + 1 + 100002);
    GapIsBroken(c, t, w, d, c.orders + 1, SearchLimit(c) + 1);
  }
}
