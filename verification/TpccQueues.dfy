/**
 Exactly when the queues of undelivered orders stay without gaps: as long as no Delivery starts with
 its cursor on a queued order while an older one is queued.
 */
module TpccQueues {
  import opened TpccFormulas
  import opened TpccState
  import opened TpccInvariant
  import opened TpccRuns

  /** A Delivery that will take an order before an older one. */
  ghost predicate Jumps(c: Config, s: State, step: Step) {
    && step.DeliveryStep?
    && (step.w, step.d, CursorOf(c, s, step.w, step.d)) in s.newOrder
    && exists o :: o < CursorOf(c, s, step.w, step.d) && (step.w, step.d, o) in s.newOrder
  }

  lemma JumpsIff(c: Config, s: State, w: int, d: int, carrier: int, h: int)
    requires QueueFrom(c, s, w, d, h)
    ensures Jumps(c, s, DeliveryStep(w, d, carrier)) <==> h < CursorOf(c, s, w, d) < s.district[(w, d)].nextOid
  {
    var at := CursorOf(c, s, w, d);
    if h < at < s.district[(w, d)].nextOid {
      assert (w, d, h) in s.newOrder && (w, d, at) in s.newOrder;
    }
  }

  /** A cursor beyond the queue finds nothing. */
  lemma BeyondFails(c: Config, s: State, w: int, d: int, h: int)
    requires QueueFrom(c, s, w, d, h) && CursorOf(c, s, w, d) >= s.district[(w, d)].nextOid
    ensures DeliveryOutcome(c, s, w, d) == NotDelivered
  {
    SearchFails(s.newOrder, w, d, CursorOf(c, s, w, d), SearchLimit(c));
  }

  lemma JumpBreaks(c: Config, s: State, w: int, d: int, carrier: int, h: int, g: int)
    requires ValidConfig(c) && KeysInv(c, s) && DistrictInv(c, s, w, d) && QueueFrom(c, s, w, d, h)
    requires h < CursorOf(c, s, w, d) < s.district[(w, d)].nextOid
    ensures !QueueFrom(c, Next(c, s, DeliveryStep(w, d, carrier)), w, d, g)
  {
    var at := CursorOf(c, s, w, d);
    assert (w, d, at) in s.newOrder && (w, d, h) in s.newOrder;
    QueuedCommits(c, s, w, d, at);
    JumpTaken(s, w, d, at, carrier, h);
    assert Next(c, s, DeliveryStep(w, d, carrier)) == Deliver(s, w, d, at, carrier);
    hide DistrictInv, KeysInv, Deliver, DeliveryCommits, Next;
    NotContiguous(c, Deliver(s, w, d, at, carrier), w, d, h, at, g);
  }

  lemma JumpTaken(s: State, w: int, d: int, at: int, carrier: int, h: int)
    requires DeliveryCommits(s, w, d, at) && (w, d, h) in s.newOrder && h != at
    ensures var t := Deliver(s, w, d, at, carrier);
            t.district == s.district && (w, d, h) in t.newOrder && (w, d, at) !in t.newOrder
  {
  }

  lemma NotContiguous(c: Config, t: State, w: int, d: int, h: int, at: int, g: int)
    requires (w, d) in t.district && h < at < t.district[(w, d)].nextOid
    requires (w, d, h) in t.newOrder && (w, d, at) !in t.newOrder
    ensures !QueueFrom(c, t, w, d, g)
  {
  }

  /** One district: its queue stays contiguous unless a Delivery jumps it. */
  lemma DistrictQueue(c: Config, s: State, step: Step, w: int, d: int, h: int)
    requires ValidConfig(c) && KeysInv(c, s) && DistrictInv(c, s, w, d) && QueueFrom(c, s, w, d, h)
    ensures (exists g :: QueueFrom(c, Next(c, s, step), w, d, g)) <==>
            !(step.DeliveryStep? && (step.w, step.d) == (w, d) && Jumps(c, s, step))
  {
    hide DistrictInv, KeysInv, Next, QueueFrom, NewOrder, NewOrderCommits, DeliveryOutcome, Jumps;
    if step.DeliveryStep? && (step.w, step.d) == (w, d) {
      JumpsIff(c, s, w, d, step.carrier, h);
      DistrictDelivery(c, s, w, d, step.carrier, h);
    } else if step.NewOrderStep? && (step.w, step.d) == (w, d) && NewOrderCommits(c, s, w, d, step.id) {
      NewOrderQueue(c, s, w, d, step.id, h);
      NextIsNewOrder(c, s, step);
    } else {
      Untouched(c, s, step, w, d);
      QueueFrame(c, s, Next(c, s, step), w, d, h);
    }
  }

  lemma NextIsNewOrder(c: Config, s: State, step: Step)
    requires step.NewOrderStep?
    ensures Next(c, s, step) == NewOrder(c, s, step.w, step.d, step.id)
  {
  }

  lemma DistrictDelivery(c: Config, s: State, w: int, d: int, carrier: int, h: int)
    requires ValidConfig(c) && KeysInv(c, s) && DistrictInv(c, s, w, d) && QueueFrom(c, s, w, d, h)
    ensures (exists g :: QueueFrom(c, Next(c, s, DeliveryStep(w, d, carrier)), w, d, g)) <==>
            !(h < CursorOf(c, s, w, d) < s.district[(w, d)].nextOid)
  {
    hide DistrictInv, KeysInv, Next, DeliveryOutcome;
    var step := DeliveryStep(w, d, carrier);
    if CursorOf(c, s, w, d) <= h {
      StepQueue(c, s, step, w, d, h);
    } else if CursorOf(c, s, w, d) >= s.district[(w, d)].nextOid {
      BeyondFails(c, s, w, d, h);
      Untouched(c, s, step, w, d);
      QueueFrame(c, s, Next(c, s, step), w, d, h);
    } else {
      forall g { JumpBreaks(c, s, w, d, carrier, h, g); }
    }
  }

  /** A step keeps all queues contiguous exactly when it is no Delivery that jumps one. */
  lemma StepQueues(c: Config, s: State, step: Step)
    requires ValidConfig(c) && TablesInv(c, s) && QueueInv(c, s)
    ensures QueueInv(c, Next(c, s, step)) <==> !Jumps(c, s, step)
  {
    hide Next, QueueFrom, DistrictInv, Jumps;
    forall w, d | InRange(c, w, d)
      ensures (exists g :: QueueFrom(c, Next(c, s, step), w, d, g)) <==>
              !(step.DeliveryStep? && (step.w, step.d) == (w, d) && Jumps(c, s, step))
    {
      var h :| QueueFrom(c, s, w, d, h);
      DistrictQueue(c, s, step, w, d, h);
    }
    if Jumps(c, s, step) { JumpInRange(c, s, step); }
  }

  lemma JumpInRange(c: Config, s: State, step: Step)
    requires KeysInv(c, s) && Jumps(c, s, step)
    ensures step.DeliveryStep? && InRange(c, step.w, step.d)
  {
  }

  ghost predicate QueuesThroughout(c: Config, s: State, steps: seq<Step>) {
    QueueInv(c, Run(c, s, steps)) && (steps != [] ==> QueuesThroughout(c, s, steps[..|steps| - 1]))
  }

  ghost predicate NoJumps(c: Config, s: State, steps: seq<Step>) {
    steps == [] ||
    (NoJumps(c, s, steps[..|steps| - 1]) && !Jumps(c, Run(c, s, steps[..|steps| - 1]), steps[|steps| - 1]))
  }

  /** Over every run: the queues are contiguous throughout exactly when no Delivery jumped one. */
  lemma {:induction false} RunContiguous(c: Config, steps: seq<Step>)
    requires ValidConfig(c)
    ensures QueuesThroughout(c, Load(c), steps) <==> NoJumps(c, Load(c), steps)
  {
    hide Jumps, QueueInv, Next, TablesInv, Load;
    if steps == [] {
      LoadedQueues(c);
    } else {
      var past, last := steps[..|steps| - 1], steps[|steps| - 1];
      RunContiguous(c, past);
      RunTables(c, past);
      if NoJumps(c, Load(c), past) {
        StepQueues(c, Run(c, Load(c), past), last);
      }
    }
  }

  lemma LoadedQueues(c: Config)
    requires ValidConfig(c)
    ensures QueueInv(c, Load(c))
  {
    LoadedTables(c);
  }

  /** Safe Deliveries never jump. */
  lemma {:induction false} SafeNeverJumps(c: Config, steps: seq<Step>)
    requires ValidConfig(c) && SafeRun(c, Load(c), steps)
    ensures NoJumps(c, Load(c), steps)
  {
    SafeQueues(c, steps);
    RunContiguous(c, steps);
  }

  lemma {:induction false} SafeQueues(c: Config, steps: seq<Step>)
    requires ValidConfig(c) && SafeRun(c, Load(c), steps)
    ensures QueuesThroughout(c, Load(c), steps)
  {
    hide SafeStep, QueueInv, CursorInv, Run, Load;
    RunKeeps(c, steps);
    if steps != [] { SafeQueues(c, steps[..|steps| - 1]); }
  }
}
