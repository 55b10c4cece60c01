/**
 Every run: each step keeps the tables consistent; it keeps the queues without gaps and the cursors at
 or below them exactly when it is safe.
 */
module TpccRuns {
  import opened Arithmetic
  import opened TpccFormulas
  import opened TpccState
  import opened TpccInvariant

  // --- tables: every step ---

  lemma NewOrderKeys(c: Config, s: State, w: int, d: int, id: int)
    requires KeysInv(c, s)
    ensures KeysInv(c, NewOrder(c, s, w, d, id))
  {
  }

  lemma PaymentKeys(c: Config, s: State, w: int, d: int, id: int)
    requires KeysInv(c, s)
    ensures KeysInv(c, Payment(s, w, d, id))
  {
  }

  lemma DeliverKeys(c: Config, s: State, w: int, d: int, o: int, carrier: int)
    requires KeysInv(c, s) && DeliveryCommits(s, w, d, o)
    ensures KeysInv(c, Deliver(s, w, d, o, carrier))
  {
  }

  lemma KeysStep(c: Config, s: State, step: Step)
    requires KeysInv(c, s)
    ensures KeysInv(c, Next(c, s, step))
  {
    match step
    case NewOrderStep(w, d, id) => NewOrderKeys(c, s, w, d, id);
    case PaymentStep(w, d, id) => PaymentKeys(c, s, w, d, id);
    case Publish(w, d) => AddYtdKeys(c, s, w, d);
    case DeliveryStep(w, d, carrier) =>
      match DeliveryOutcome(c, s, w, d) {
        case Delivered(o) => DeliverKeys(c, s, w, d, o, carrier);
        case NotDelivered =>
      }
    case _ =>
  }

  lemma AddYtdKeys(c: Config, s: State, w: int, d: int)
    requires KeysInv(c, s)
    ensures KeysInv(c, AddYtd(s, w, d))
  {
  }

  lemma MoveCursorSame(c: Config, s: State, w: int, d: int, w': int, d': int)
    ensures SameDistrict(s, MoveCursor(c, s, w, d), w', d')
  {
  }

  lemma LeaveCursorSame(c: Config, s: State, w: int, d: int, looks: nat, w': int, d': int)
    ensures SameDistrict(s, LeaveCursor(c, s, w, d, looks), w', d')
  {
  }

  lemma AddYtdSame(s: State, w: int, d: int, w': int, d': int)
    ensures SameDistrict(s, AddYtd(s, w, d), w', d')
  {
  }

  lemma PaymentSame(s: State, w: int, d: int, id: int, w': int, d': int)
    ensures SameDistrict(s, Payment(s, w, d, id), w', d')
  {
  }

  /** Whether a step changes a district's order tables at all. */
  predicate Touches(c: Config, s: State, step: Step, w: int, d: int) {
    match step
    case NewOrderStep(w', d', id) => (w', d') == (w, d) && NewOrderCommits(c, s, w, d, id)
    case DeliveryStep(w', d', _) => (w', d') == (w, d) && DeliveryOutcome(c, s, w, d).Delivered?
    case _ => false
  }

  lemma Untouched(c: Config, s: State, step: Step, w: int, d: int)
    requires !Touches(c, s, step, w, d)
    ensures SameDistrict(s, Next(c, s, step), w, d)
  {
    match step
    case NewOrderStep(w', d', id) =>
      if (w', d') != (w, d) { NewOrderElsewhere(c, s, w', d', id, w, d); }
    case PaymentStep(w', d', id) => PaymentSame(s, w', d', id, w, d);
    case Publish(w', d') => AddYtdSame(s, w', d', w, d);
    case DeliveryStep(w', d', carrier) =>
      match DeliveryOutcome(c, s, w', d') {
        case Delivered(o) => DeliverElsewhere(s, w', d', o, carrier, w, d);
        case NotDelivered => MoveCursorSame(c, s, w', d', w, d);
      }
    case AbortDelivery(w', d', looks) => LeaveCursorSame(c, s, w', d', looks, w, d);
    case _ =>
  }

  lemma StepDistrict(c: Config, s: State, step: Step, w: int, d: int)
    requires ValidConfig(c) && KeysInv(c, s) && DistrictInv(c, s, w, d)
    ensures DistrictInv(c, Next(c, s, step), w, d)
  {
    if Touches(c, s, step, w, d) {
      match step
      case NewOrderStep(_, _, id) => NewOrderDistrict(c, s, w, d, id);
      case DeliveryStep(_, _, carrier) => DeliverDistrict(c, s, w, d, DeliveryOutcome(c, s, w, d).order, carrier);
    } else {
      Untouched(c, s, step, w, d);
      DistrictFrame(c, s, Next(c, s, step), w, d);
    }
  }

  lemma StepTables(c: Config, s: State, step: Step)
    requires ValidConfig(c) && TablesInv(c, s)
    ensures TablesInv(c, Next(c, s, step))
  {
    KeysStep(c, s, step);
    forall w, d | InRange(c, w, d) ensures DistrictInv(c, Next(c, s, step), w, d) {
      StepDistrict(c, s, step, w, d);
    }
  }

  /** The tables are consistent after every run from the loaded state. */
  lemma {:induction false} RunTables(c: Config, steps: seq<Step>)
    requires ValidConfig(c)
    ensures TablesInv(c, Run(c, Load(c), steps))
  {
    if steps == [] {
      LoadedTables(c);
    } else {
      RunTables(c, steps[..|steps| - 1]);
      StepTables(c, Run(c, Load(c), steps[..|steps| - 1]), steps[|steps| - 1]);
    }
  }

  /** In a consistent district New-Order commits exactly for its customers, if its five items exist. */
  lemma NewOrderCommitsIff(c: Config, s: State, w: int, d: int, id: int)
    requires ValidConfig(c) && TablesInv(c, s) && InRange(c, w, d)
    ensures NewOrderCommits(c, s, w, d, id) <==> 1 <= id <= c.customers && RuntimeItem(d, NEW_ORDER_LINES) <= c.items
  {
    assert DistrictInv(c, s, w, d);
    var n := s.district[(w, d)].nextOid;
    assert (w, d, n) !in s.orders && (w, d, n) !in s.newOrder;
    if NewOrderCommits(c, s, w, d, id) {
      assert Available(c, s.stock, w, RuntimeItem(d, NEW_ORDER_LINES));
    }
  }

  lemma NewOrderDistrictRow(c: Config, s: State, w: int, d: int)
    requires NewOrderCommits(c, s, w, d, 1)
    ensures Next(c, s, NewOrderStep(w, d, 1)) == NewOrder(c, s, w, d, 1)
    ensures NewOrder(c, s, w, d, 1).district[(w, d)].nextOid == s.district[(w, d)].nextOid + 1
  {
  }

  lemma {:induction false} RunAppend(c: Config, s: State, a: seq<Step>, b: seq<Step>)
    ensures Run(c, s, a + b) == Run(c, Run(c, s, a), b)
  {
    hide Next;
    if b == [] {
      assert a + b == a;
    } else {
      assert (a + b)[..|a + b| - 1] == a + b[..|b| - 1];
      RunAppend(c, s, a, b[..|b| - 1]);
    }
  }

  lemma RunOne(c: Config, s: State, step: Step)
    ensures Run(c, s, [step]) == Next(c, s, step)
  {
    hide Next;
    assert [step][..0] == [];
  }

  // --- queues and cursors: safe steps ---

  /**
   What a caller of Delivery has to check first: the district has a queued order, or its next order id
   lies beyond everything the bounded search will step over. A search that a database error ends early
   may also have stopped in time.
   */
  ghost predicate DeliverySafe(c: Config, s: State, step: Step, w: int, d: int)
    requires (w, d) in s.district
  {
    || (exists o :: (w, d, o) in s.newOrder)
    || s.district[(w, d)].nextOid > Larger(CursorOf(c, s, w, d), SearchLimit(c))
    || (step.AbortDelivery? && CursorOf(c, s, w, d) + step.looks <= s.district[(w, d)].nextOid)
  }

  /** Whether a step searches this district's queue. */
  predicate Searches(step: Step, w: int, d: int) {
    match step
    case DeliveryStep(w', d', _) => (w', d') == (w, d)
    case AbortDelivery(w', d', _) => (w', d') == (w, d)
    case _ => false
  }

  ghost predicate SafeStep(c: Config, s: State, step: Step) {
    forall w, d :: InRange(c, w, d) && (w, d) in s.district && Searches(step, w, d) ==> DeliverySafe(c, s, step, w, d)
  }

  /** The head of a district's queue after a step. */
  function NextHead(c: Config, s: State, step: Step, w: int, d: int, h: int): int {
    if step.DeliveryStep? && step.w == w && step.d == d && DeliveryOutcome(c, s, w, d) == Delivered(h) then h + 1 else h
  }

  /** A Delivery takes the oldest queued order, or fails exactly when that lies out of reach. */
  lemma DeliveredIsHead(c: Config, s: State, w: int, d: int, h: int)
    requires ValidConfig(c) && KeysInv(c, s) && DistrictInv(c, s, w, d)
    requires QueueFrom(c, s, w, d, h) && CursorOf(c, s, w, d) <= h
    ensures DeliveryOutcome(c, s, w, d) ==
            if h < s.district[(w, d)].nextOid && (h <= SearchLimit(c) || CursorOf(c, s, w, d) == h)
            then Delivered(h) else NotDelivered
  {
    SearchOutcome(c, s, w, d, h);
    if h < s.district[(w, d)].nextOid {
      QueuedCommits(c, s, w, d, h);
    }
  }

  lemma StepQueue(c: Config, s: State, step: Step, w: int, d: int, h: int)
    requires ValidConfig(c) && KeysInv(c, s) && DistrictInv(c, s, w, d)
    requires QueueFrom(c, s, w, d, h) && CursorOf(c, s, w, d) <= h
    ensures QueueFrom(c, Next(c, s, step), w, d, NextHead(c, s, step, w, d, h))
  {
    DeliveredIsHead(c, s, w, d, h);
    if Touches(c, s, step, w, d) {
      match step
      case NewOrderStep(_, _, id) => NewOrderQueue(c, s, w, d, id, h);
      case DeliveryStep(_, _, carrier) => DeliverQueue(c, s, w, d, h, carrier);
    } else {
      Untouched(c, s, step, w, d);
      QueueFrame(c, s, Next(c, s, step), w, d, h);
    }
  }

  lemma CursorElsewhere(c: Config, s: State, step: Step, w: int, d: int)
    requires !Searches(step, w, d)
    ensures CursorOf(c, Next(c, s, step), w, d) == if step.Reset? then FirstCursor(c) else CursorOf(c, s, w, d)
  {
    hide Search, NewOrderCommits, DeliveryCommits, MarkDelivered, LineAmount;
    match step
    case DeliveryStep(w', d', carrier) => assert Next(c, s, step) == Delivery(c, s, w', d', carrier);
    case _ =>
  }

  lemma CursorAfterSearch(c: Config, s: State, step: Step, w: int, d: int, h: int)
    requires ValidConfig(c) && KeysInv(c, s) && DistrictInv(c, s, w, d) && step.DeliveryStep?
    requires QueueFrom(c, s, w, d, h) && CursorOf(c, s, w, d) <= h && Searches(step, w, d)
    ensures var at, limit, n := CursorOf(c, s, w, d), SearchLimit(c), s.district[(w, d)].nextOid;
            CursorOf(c, Next(c, s, step), w, d) ==
            if h < n && (h <= limit || at == h) then NextHead(c, s, step, w, d, h) else Larger(at, limit) + 1
  {
    SearchOutcome(c, s, w, d, h);
    DeliveredIsHead(c, s, w, d, h);
  }

  lemma SafeIff(c: Config, s: State, step: Step, w: int, d: int, h: int)
    requires QueueFrom(c, s, w, d, h)
    ensures DeliverySafe(c, s, step, w, d) <==>
            || h < s.district[(w, d)].nextOid
            || s.district[(w, d)].nextOid > Larger(CursorOf(c, s, w, d), SearchLimit(c))
            || (step.AbortDelivery? && CursorOf(c, s, w, d) + step.looks <= s.district[(w, d)].nextOid)
  {
    if h < s.district[(w, d)].nextOid {
      assert (w, d, h) in s.newOrder;
    }
  }

  /** The cursor of one district stays at or below the queue exactly when the step is safe there. */
  lemma CursorStep(c: Config, s: State, step: Step, w: int, d: int, h: int)
    requires ValidConfig(c) && KeysInv(c, s) && DistrictInv(c, s, w, d)
    requires QueueFrom(c, s, w, d, h) && CursorOf(c, s, w, d) <= h
    ensures CursorOf(c, Next(c, s, step), w, d) <= NextHead(c, s, step, w, d, h) <==>
            (Searches(step, w, d) ==> DeliverySafe(c, s, step, w, d))
  {
    hide Search, SearchPart, DeliverySafe, DistrictInv, KeysInv, DeliveryOutcome, NewOrder, Payment, Deliver;
    SafeIff(c, s, step, w, d, h);
    if !Searches(step, w, d) {
      CursorElsewhere(c, s, step, w, d);
    } else if step.DeliveryStep? {
      CursorAfterSearch(c, s, step, w, d, h);
      DeliveredIsHead(c, s, w, d, h);
    } else {
      SearchPartOutcome(c, s, w, d, h, step.looks);
    }
  }

  /** A step keeps the queues; it keeps the cursors at or below them exactly when it is safe. */
  lemma StepKeeps(c: Config, s: State, step: Step)
    requires ValidConfig(c) && TablesInv(c, s) && QueueInv(c, s) && CursorInv(c, s)
    ensures QueueInv(c, Next(c, s, step))
    ensures CursorInv(c, Next(c, s, step)) <==> SafeStep(c, s, step)
  {
    var t := Next(c, s, step);
    forall w, d | InRange(c, w, d) ensures exists h :: QueueFrom(c, t, w, d, h) {
      var h :| QueueFrom(c, s, w, d, h);
      StepQueue(c, s, step, w, d, h);
    }
    forall w, d, g | InRange(c, w, d) && QueueFrom(c, t, w, d, g)
      ensures CursorOf(c, t, w, d) <= g <==> (Searches(step, w, d) ==> DeliverySafe(c, s, step, w, d))
    {
      var h :| QueueFrom(c, s, w, d, h);
      StepQueue(c, s, step, w, d, h);
      HeadUnique(c, t, w, d, g, NextHead(c, s, step, w, d, h));
      CursorStep(c, s, step, w, d, h);
    }
  }

  ghost predicate SafeRun(c: Config, s: State, steps: seq<Step>) {
    steps == [] ||
    (SafeRun(c, s, steps[..|steps| - 1]) && SafeStep(c, Run(c, s, steps[..|steps| - 1]), steps[|steps| - 1]))
  }

  ghost predicate CursorThroughout(c: Config, s: State, steps: seq<Step>) {
    CursorInv(c, Run(c, s, steps)) && (steps != [] ==> CursorThroughout(c, s, steps[..|steps| - 1]))
  }

  /**
   From the loaded state, for every sequence of steps: the cursors stay at or below the oldest queued
   orders throughout exactly when every Delivery was safe, and then no queue has a gap.
   */
  lemma {:induction false} RunKeeps(c: Config, steps: seq<Step>)
    requires ValidConfig(c)
    ensures CursorThroughout(c, Load(c), steps) <==> SafeRun(c, Load(c), steps)
    ensures SafeRun(c, Load(c), steps) ==> QueueInv(c, Run(c, Load(c), steps)) && CursorInv(c, Run(c, Load(c), steps))
  {
    if steps == [] {
      LoadedTables(c);
    } else {
      var before, last := steps[..|steps| - 1], steps[|steps| - 1];
      RunKeeps(c, before);
      RunTables(c, before);
      if SafeRun(c, Load(c), before) {
        StepKeeps(c, Run(c, Load(c), before), last);
      }
    }
  }

  ghost predicate OldestQueued(s: State, w: int, d: int, o: int) {
    (w, d, o) in s.newOrder && forall p :: (w, d, p) in s.newOrder ==> o <= p
  }

  /** After every such run a Delivery takes the smallest queued id, and any up to the search limit. */
  lemma RunDelivers(c: Config, steps: seq<Step>, w: int, d: int)
    requires ValidConfig(c) && InRange(c, w, d) && SafeRun(c, Load(c), steps)
    ensures var s := Run(c, Load(c), steps);
            && (DeliveryOutcome(c, s, w, d).Delivered? ==> OldestQueued(s, w, d, DeliveryOutcome(c, s, w, d).order))
            && forall o :: OldestQueued(s, w, d, o) && o <= SearchLimit(c) ==>
                 DeliveryOutcome(c, s, w, d) == Delivered(o)
  {
    hide Run, Load, SafeRun, DeliveryOutcome;
    RunTables(c, steps);
    RunKeeps(c, steps);
    var s := Run(c, Load(c), steps);
    assert DistrictInv(c, s, w, d);
    var h :| QueueFrom(c, s, w, d, h);
    DeliveredIsHead(c, s, w, d, h);
    forall o | OldestQueued(s, w, d, o) ensures o == h {
      var first := (w, d, h) in s.newOrder;
    }
  }
}
