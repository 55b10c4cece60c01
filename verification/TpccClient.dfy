/**
 What the client remembers of its own New-Orders, compared with the tables: exact in every run that
 reconfigures the client only before the first New-Order, and wrong for ever after any other
 reconfiguration.
 */
module TpccClient {
  import opened TpccFormulas
  import opened TpccState
  import opened TpccInvariant
  import opened TpccRuns

  /** The items a New-Order in the district takes. */
  ghost predicate RuntimeList(d: int, items: seq<int>) {
    |items| == NEW_ORDER_LINES && forall k :: 0 <= k < NEW_ORDER_LINES ==> items[k] == RuntimeItem(d, k + 1)
  }

  /** The client knows the items of exactly the orders from `first` on. */
  ghost predicate KnownFrom(s: State, w: int, d: int, first: int) {
    && (w, d) in s.district
    && (forall o :: (w, d, o) in s.runtimeItems <==> first <= o < s.district[(w, d)].nextOid)
    && (forall o :: (w, d, o) in s.runtimeItems ==> RuntimeList(d, s.runtimeItems[(w, d, o)]))
  }

  /** It knows the items of exactly the orders taken since loading. */
  ghost predicate ItemsKnown(c: Config, s: State, w: int, d: int) {
    KnownFrom(s, w, d, c.orders + 1)
  }

  /** An order of the customer taken since loading. */
  predicate RuntimeOrderOf(c: Config, s: State, w: int, d: int, id: int, o: int) {
    c.orders < o && (w, d, o) in s.orders && s.orders[(w, d, o)].cid == id
  }

  /** The client knows the greatest of them, if there is one. */
  ghost predicate LatestKnown(c: Config, s: State, w: int, d: int, id: int) {
    && ((w, d, id) in s.latest ==> RuntimeOrderOf(c, s, w, d, id, s.latest[(w, d, id)]))
    && (forall o :: RuntimeOrderOf(c, s, w, d, id, o) ==> (w, d, id) in s.latest && o <= s.latest[(w, d, id)])
  }

  ghost predicate DistrictKnown(c: Config, s: State, w: int, d: int) {
    ItemsKnown(c, s, w, d) && forall id :: LatestKnown(c, s, w, d, id)
  }

  ghost predicate ClientInv(c: Config, s: State) {
    forall w, d :: InRange(c, w, d) ==> DistrictKnown(c, s, w, d)
  }

  /** No order has been taken since loading. */
  ghost predicate Pristine(c: Config, s: State) {
    forall w, d :: (w, d) in s.district ==> s.district[(w, d)].nextOid == c.orders + 1
  }

  /** An order taken since loading whose items the client does not know. */
  ghost predicate Forgotten(c: Config, s: State, w: int, d: int, o: int) {
    (w, d) in s.district && c.orders < o < s.district[(w, d)].nextOid && (w, d, o) !in s.runtimeItems
  }

  lemma LoadedClient(c: Config)
    requires ValidConfig(c)
    ensures ClientInv(c, Load(c))
  {
    forall w, d | InRange(c, w, d) ensures DistrictKnown(c, Load(c), w, d) {
      LoadedDistrict(c, w, d);
      assert (w, d) in Load(c).district;
    }
  }

  // --- the steps ---

  /** Nothing about a district changed that its `DistrictKnown` speaks of. */
  ghost predicate SameKnowledge(s: State, t: State, w: int, d: int) {
    && ((w, d) in s.district <==> (w, d) in t.district)
    && ((w, d) in s.district ==> s.district[(w, d)].nextOid == t.district[(w, d)].nextOid)
    && (forall o :: (w, d, o) in s.orders <==> (w, d, o) in t.orders)
    && (forall o :: (w, d, o) in s.orders ==> s.orders[(w, d, o)].cid == t.orders[(w, d, o)].cid)
    && (forall o :: (w, d, o) in s.runtimeItems <==> (w, d, o) in t.runtimeItems)
    && (forall o :: (w, d, o) in s.runtimeItems ==> s.runtimeItems[(w, d, o)] == t.runtimeItems[(w, d, o)])
    && (forall id :: (w, d, id) in s.latest <==> (w, d, id) in t.latest)
    && (forall id :: (w, d, id) in s.latest ==> s.latest[(w, d, id)] == t.latest[(w, d, id)])
  }

  lemma SameKnownFrom(s: State, t: State, w: int, d: int, first: int)
    requires SameKnowledge(s, t, w, d) && KnownFrom(s, w, d, first)
    ensures KnownFrom(t, w, d, first)
  {
  }

  lemma SameLatestKnown(c: Config, s: State, t: State, w: int, d: int, id: int)
    requires SameKnowledge(s, t, w, d) && LatestKnown(c, s, w, d, id)
    ensures LatestKnown(c, t, w, d, id)
  {
    forall o ensures RuntimeOrderOf(c, t, w, d, id, o) <==> RuntimeOrderOf(c, s, w, d, id, o) {
    }
  }

  lemma SameKnown(c: Config, s: State, t: State, w: int, d: int)
    requires SameKnowledge(s, t, w, d) && DistrictKnown(c, s, w, d)
    ensures DistrictKnown(c, t, w, d)
  {
    hide SameKnowledge, KnownFrom, LatestKnown;
    SameKnownFrom(s, t, w, d, c.orders + 1);
    forall id ensures LatestKnown(c, t, w, d, id) {
      SameLatestKnown(c, s, t, w, d, id);
    }
  }

  lemma NewOrderKnownFrom(c: Config, s: State, w: int, d: int, id: int, first: int)
    requires NewOrderCommits(c, s, w, d, id) && KnownFrom(s, w, d, first) && first <= s.district[(w, d)].nextOid
    ensures KnownFrom(NewOrder(c, s, w, d, id), w, d, first)
  {
    hide NewOrderReads, NoLines, Restocked, WithNewLines;
  }

  lemma NewOrderLatestKnown(c: Config, s: State, w: int, d: int, id: int, id': int)
    requires NewOrderCommits(c, s, w, d, id) && LatestKnown(c, s, w, d, id') && c.orders < s.district[(w, d)].nextOid
    requires forall o :: (w, d, o) in s.orders ==> o < s.district[(w, d)].nextOid
    ensures LatestKnown(c, NewOrder(c, s, w, d, id), w, d, id')
  {
    var t, n := NewOrder(c, s, w, d, id), s.district[(w, d)].nextOid;
    forall o
      ensures RuntimeOrderOf(c, t, w, d, id', o) <==> RuntimeOrderOf(c, s, w, d, id', o) || (o == n && id' == id)
    {
    }
    hide NewOrderCommits;
    assert id' != id ==> ((w, d, id') in t.latest <==> (w, d, id') in s.latest);
    assert RuntimeOrderOf(c, t, w, d, id, n);
  }

  lemma NewOrderKnown(c: Config, s: State, w: int, d: int, id: int)
    requires ValidConfig(c) && DistrictInv(c, s, w, d) && NewOrderCommits(c, s, w, d, id) && DistrictKnown(c, s, w, d)
    ensures DistrictKnown(c, NewOrder(c, s, w, d, id), w, d)
  {
    hide KnownFrom, LatestKnown, NewOrder, NewOrderCommits;
    assert c.orders + 1 <= s.district[(w, d)].nextOid;
    NewOrderKnownFrom(c, s, w, d, id, c.orders + 1);
    forall id' ensures LatestKnown(c, NewOrder(c, s, w, d, id), w, d, id') {
      NewOrderLatestKnown(c, s, w, d, id, id');
    }
  }

  lemma NewOrderKnownElsewhere(c: Config, s: State, w: int, d: int, id: int, w': int, d': int)
    requires (w', d') != (w, d)
    ensures SameKnowledge(s, NewOrder(c, s, w, d, id), w', d')
  {
  }

  lemma PaymentKnown(s: State, w: int, d: int, id: int, w': int, d': int)
    ensures SameKnowledge(s, Payment(s, w, d, id), w', d')
  {
    AddYtdKnown(s, w, d, w', d');
    hide AddYtd;
  }

  lemma DeliverKnown(s: State, w: int, d: int, o: int, carrier: int, w': int, d': int)
    requires DeliveryCommits(s, w, d, o)
    ensures SameKnowledge(s, Deliver(s, w, d, o, carrier), w', d')
  {
  }

  lemma SearchKnown(c: Config, s: State, w: int, d: int, w': int, d': int)
    ensures SameKnowledge(s, MoveCursor(c, s, w, d), w', d')
  {
  }

  lemma AbortKnown(c: Config, s: State, w: int, d: int, looks: nat, w': int, d': int)
    ensures SameKnowledge(s, LeaveCursor(c, s, w, d, looks), w', d')
  {
  }

  lemma AddYtdKnown(s: State, w: int, d: int, w': int, d': int)
    ensures SameKnowledge(s, AddYtd(s, w, d), w', d')
  {
  }

  lemma StepSameKnowledge(c: Config, s: State, step: Step, w: int, d: int)
    requires !step.Reset?
    requires step.NewOrderStep? && (step.w, step.d) == (w, d) ==> !NewOrderCommits(c, s, w, d, step.id)
    ensures SameKnowledge(s, Next(c, s, step), w, d)
  {
    hide SameKnowledge, Deliver, Payment, MoveCursor, LeaveCursor, AddYtd, Search;
    match step
    case NewOrderStep(w', d', id) =>
      if (w', d') != (w, d) {
        NewOrderKnownElsewhere(c, s, w', d', id, w, d);
      } else {
        Reflexive(s, w, d);
      }
    case PaymentStep(w', d', id) => PaymentKnown(s, w', d', id, w, d);
    case DeliveryStep(w', d', carrier) =>
      match DeliveryOutcome(c, s, w', d') {
        case Delivered(o) => DeliverKnown(s, w', d', o, carrier, w, d);
        case NotDelivered => SearchKnown(c, s, w', d', w, d);
      }
    case Publish(w', d') => AddYtdKnown(s, w', d', w, d);
    case AbortDelivery(w', d', looks) => AbortKnown(c, s, w', d', looks, w, d);
    case Abort => Reflexive(s, w, d);
  }

  lemma Reflexive(s: State, w: int, d: int)
    ensures SameKnowledge(s, s, w, d)
  {
  }

  lemma StepKnown(c: Config, s: State, step: Step, w: int, d: int)
    requires ValidConfig(c) && DistrictInv(c, s, w, d) && DistrictKnown(c, s, w, d) && !step.Reset?
    ensures DistrictKnown(c, Next(c, s, step), w, d)
  {
    hide DistrictKnown, DistrictInv;
    if step.NewOrderStep? && (step.w, step.d) == (w, d) && NewOrderCommits(c, s, w, d, step.id) {
      NewOrderKnown(c, s, w, d, step.id);
    } else {
      hide Next;
      StepSameKnowledge(c, s, step, w, d);
      SameKnown(c, s, Next(c, s, step), w, d);
    }
  }

  lemma ResetPristine(c: Config, s: State)
    requires ValidConfig(c) && TablesInv(c, s) && Pristine(c, s)
    ensures ClientInv(c, Next(c, s, Reset))
  {
    var t := Next(c, s, Reset);
    forall w, d | InRange(c, w, d) ensures DistrictKnown(c, t, w, d) {
      assert DistrictInv(c, s, w, d);
    }
  }

  lemma ResetForgets(c: Config, s: State) returns (w: int, d: int, o: int)
    requires ValidConfig(c) && TablesInv(c, s) && !Pristine(c, s)
    ensures Forgotten(c, Next(c, s, Reset), w, d, o) && InRange(c, w, d)
  {
    w, d :| (w, d) in s.district && s.district[(w, d)].nextOid != c.orders + 1;
    assert DistrictInv(c, s, w, d);
    o := c.orders + 1;
  }

  /** Nothing the client does later brings a forgotten order back. */
  lemma StaysForgotten(c: Config, s: State, step: Step, w: int, d: int, o: int)
    requires Forgotten(c, s, w, d, o)
    ensures Forgotten(c, Next(c, s, step), w, d, o)
  {
    if step.NewOrderStep? && (step.w, step.d) == (w, d) && NewOrderCommits(c, s, w, d, step.id) {
      assert Next(c, s, step) == NewOrder(c, s, w, d, step.id);
    } else if !step.Reset? {
      StepSameKnowledge(c, s, step, w, d);
      hide Next;
    }
  }

  // --- runs ---

  /** Every reconfiguration happened before the first New-Order. */
  ghost predicate PristineResets(c: Config, s: State, steps: seq<Step>) {
    steps == [] ||
    (PristineResets(c, s, steps[..|steps| - 1]) &&
     (steps[|steps| - 1].Reset? ==> Pristine(c, Run(c, s, steps[..|steps| - 1]))))
  }

  ghost predicate SomethingForgotten(c: Config, s: State) {
    exists w, d, o :: InRange(c, w, d) && Forgotten(c, s, w, d, o)
  }

  lemma StepClient(c: Config, s: State, step: Step)
    requires ValidConfig(c) && TablesInv(c, s) && ClientInv(c, s)
    ensures (step.Reset? ==> Pristine(c, s)) ==> ClientInv(c, Next(c, s, step))
    ensures step.Reset? && !Pristine(c, s) ==> SomethingForgotten(c, Next(c, s, step))
  {
    hide DistrictKnown, Forgotten, Pristine, DistrictInv, Next;
    if !step.Reset? {
      forall w, d | InRange(c, w, d) ensures DistrictKnown(c, Next(c, s, step), w, d) {
        StepKnown(c, s, step, w, d);
      }
    } else if Pristine(c, s) {
      ResetPristine(c, s);
    } else {
      var w, d, o := ResetForgets(c, s);
    }
  }

  lemma ForgottenIsWrong(c: Config, s: State)
    requires SomethingForgotten(c, s)
    ensures !ClientInv(c, s)
  {
    var w, d, o :| InRange(c, w, d) && Forgotten(c, s, w, d, o);
    assert !DistrictKnown(c, s, w, d);
  }

  /**
   After every run the client's maps agree with the tables exactly when it was reconfigured only
   before its first New-Order.
   */
  lemma {:induction false} RunClient(c: Config, steps: seq<Step>)
    requires ValidConfig(c)
    ensures ClientInv(c, Run(c, Load(c), steps)) <==> PristineResets(c, Load(c), steps)
    ensures !PristineResets(c, Load(c), steps) ==> SomethingForgotten(c, Run(c, Load(c), steps))
  {
    hide Forgotten, Pristine, DistrictKnown, Next, Load;
    if steps == [] {
      LoadedClient(c);
    } else {
      var past, last := steps[..|steps| - 1], steps[|steps| - 1];
      var s := Run(c, Load(c), past);
      RunClient(c, past);
      RunTables(c, past);
      if PristineResets(c, Load(c), past) {
        StepClient(c, s, last);
        if SomethingForgotten(c, Next(c, s, last)) { ForgottenIsWrong(c, Next(c, s, last)); }
      } else {
        var w, d, o :| InRange(c, w, d) && Forgotten(c, s, w, d, o);
        StaysForgotten(c, s, last, w, d, o);
        ForgottenIsWrong(c, Next(c, s, last));
      }
    }
  }

  // --- what is known after a late reconfiguration ---

  /** The first order the client knows: the next one at its last reconfiguration. */
  ghost function KnownSince(c: Config, steps: seq<Step>, w: int, d: int): int
    requires ValidConfig(c)
  {
    if steps == [] then c.orders + 1
    else
      var past := steps[..|steps| - 1];
      if steps[|steps| - 1].Reset? && (w, d) in Run(c, Load(c), past).district
      then Run(c, Load(c), past).district[(w, d)].nextOid
      else KnownSince(c, past, w, d)
  }

  lemma StepKnownFrom(c: Config, s: State, step: Step, w: int, d: int, first: int)
    requires KnownFrom(s, w, d, first) && first <= s.district[(w, d)].nextOid && !step.Reset?
    ensures KnownFrom(Next(c, s, step), w, d, first) && first <= Next(c, s, step).district[(w, d)].nextOid
  {
    hide KnownFrom;
    if step.NewOrderStep? && (step.w, step.d) == (w, d) && NewOrderCommits(c, s, w, d, step.id) {
      NewOrderKnownFrom(c, s, w, d, step.id, first);
    } else {
      StepSameKnowledge(c, s, step, w, d);
      SameKnownFrom(s, Next(c, s, step), w, d, first);
      hide Next;
      assert (w, d) in s.district by { KnownDistrict(s, w, d, first); }
    }
  }

  lemma KnownDistrict(s: State, w: int, d: int, first: int)
    requires KnownFrom(s, w, d, first)
    ensures (w, d) in s.district
  {
  }

  lemma ResetKnownFrom(c: Config, s: State, w: int, d: int)
    requires (w, d) in s.district
    ensures var t := Next(c, s, Reset);
            (w, d) in t.district && t.district[(w, d)].nextOid == s.district[(w, d)].nextOid &&
            KnownFrom(t, w, d, s.district[(w, d)].nextOid)
  {
  }

  /** After every run the client knows exactly the orders taken since its last reconfiguration. */
  lemma {:induction false} RunRemembers(c: Config, steps: seq<Step>, w: int, d: int)
    requires ValidConfig(c) && InRange(c, w, d)
    ensures var s, first := Run(c, Load(c), steps), KnownSince(c, steps, w, d);
            KnownFrom(s, w, d, first) && c.orders < first <= s.district[(w, d)].nextOid
  {
    hide KnownFrom, Next, Load, DistrictInv;
    if steps == [] {
      LoadedClient(c);
      LoadedDistrict(c, w, d);
      assert DistrictKnown(c, Load(c), w, d);
      KnownDistrict(Load(c), w, d, c.orders + 1);
      LoadedNextOid(c, w, d);
    } else {
      var past, last := steps[..|steps| - 1], steps[|steps| - 1];
      var s := Run(c, Load(c), past);
      RunRemembers(c, past, w, d);
      KnownDistrict(s, w, d, KnownSince(c, past, w, d));
      if last.Reset? {
        ResetKnownFrom(c, s, w, d);
      } else {
        StepKnownFrom(c, s, last, w, d, KnownSince(c, past, w, d));
      }
    }
  }

  lemma LoadedNextOid(c: Config, w: int, d: int)
    requires ValidConfig(c) && InRange(c, w, d)
    ensures (w, d) in Load(c).district && Load(c).district[(w, d)].nextOid == c.orders + 1
  {
  }

  /** A client that was reconfigured only before its first New-Order knows every order taken since loading. */
  lemma {:induction false} PristineKnown(c: Config, steps: seq<Step>, w: int, d: int)
    requires ValidConfig(c) && InRange(c, w, d) && PristineResets(c, Load(c), steps)
    ensures KnownSince(c, steps, w, d) == c.orders + 1
  {
    hide Run, Load;
    if steps != [] { PristineKnown(c, steps[..|steps| - 1], w, d); }
  }

  /** One New-Order and a reconfiguration: the client no longer knows the order it took. */
  lemma OrderThenReset(c: Config)
    requires ValidConfig(c) && InRange(c, 1, 1) && RuntimeItem(1, NEW_ORDER_LINES) <= c.items
    ensures !ClientInv(c, Run(c, Load(c), [NewOrderStep(1, 1, 1), Reset]))
  {
    hide DistrictKnown, NewOrder, NewOrderCommits, Run, Next, Load, Pristine;
    var steps := [NewOrderStep(1, 1, 1), Reset];
    assert steps[..1] == [NewOrderStep(1, 1, 1)];
    var s := Run(c, Load(c), steps[..1]);
    RunOne(c, Load(c), NewOrderStep(1, 1, 1));
    LoadedTables(c);
    LoadedDistrict(c, 1, 1);
    NewOrderCommitsIff(c, Load(c), 1, 1, 1);
    NewOrderDistrictRow(c, Load(c), 1, 1);
    NewOrderQueue(c, Load(c), 1, 1, 1, FirstCursor(c));
    NotPristine(c, s);
    assert !PristineResets(c, Load(c), steps);
    RunClient(c, steps);
  }

  lemma NotPristine(c: Config, s: State)
    requires (1, 1) in s.district && s.district[(1, 1)].nextOid > c.orders + 1
    ensures !Pristine(c, s)
  {
  }
}
