/**
 Several terminals on one database. A failed requirement raises an error that no handler rolls back,
 so a Payment refused for a missing customer leaves its warehouse and district updates in the
 terminal's open transaction, and the terminal's next commit makes them permanent.
 */
module TpccSessions {
  import opened TpccFormulas
  import opened TpccState
  import opened TpccInvariant
  import opened TpccRuns
  import opened TpccMoney

  /** The committed state, and the updates each terminal has left open. */
  datatype Session = Session(db: State, open: map<int, seq<DistrictKey>>)

  /** `Read` is an Order-Status or Stock-Level that committed; `Close` ends a terminal's connection. */
  datatype Action = Attempt(t: int, step: Step) | Read(t: int) | Close(t: int)

  function OpenOf(x: Session, t: int): seq<DistrictKey> {
    if t in x.open then x.open[t] else []
  }

  predicate Commits(c: Config, s: State, step: Step) {
    match step
    case NewOrderStep(w, d, id) => NewOrderCommits(c, s, w, d, id)
    case PaymentStep(w, d, id) => PaymentCommits(s, w, d, id)
    case DeliveryStep(w, d, _) => DeliveryOutcome(c, s, w, d).Delivered?
    case _ => false
  }

  /** A database error is handled by a rollback; for New-Order that includes a key that is there already. */
  predicate RollsBack(c: Config, s: State, step: Step) {
    match step
    case NewOrderStep(w, d, id) => NewOrderReads(c, s, w, d, id) && !NewOrderCommits(c, s, w, d, id)
    case AbortDelivery(_, _, _) => true
    case Abort => true
    case _ => false
  }

  function PublishAll(s: State, open: seq<DistrictKey>): State {
    if open == [] then s
    else AddYtd(PublishAll(s, open[..|open| - 1]), open[|open| - 1].0, open[|open| - 1].1)
  }

  function Do(c: Config, x: Session, a: Action): Session {
    match a
    case Attempt(t, step) =>
      if step.Publish? then x
      else if Commits(c, x.db, step) then Session(Next(c, PublishAll(x.db, OpenOf(x, t)), step), x.open - {t})
      else if RollsBack(c, x.db, step) then Session(Next(c, x.db, step), x.open - {t})
      else if step.PaymentStep? then Session(x.db, x.open[t := OpenOf(x, t) + [(step.w, step.d)]])
      else Session(Next(c, x.db, step), x.open)
    case Read(t) => Session(PublishAll(x.db, OpenOf(x, t)), x.open - {t})
    case Close(t) => Session(x.db, x.open - {t})
  }

  function DoAll(c: Config, acts: seq<Action>): Session
    requires ValidConfig(c)
  {
    if acts == [] then Session(Load(c), map[]) else Do(c, DoAll(c, acts[..|acts| - 1]), acts[|acts| - 1])
  }

  // --- sessions are runs ---

  function Publishes(open: seq<DistrictKey>): seq<Step> {
    if open == [] then [] else Publishes(open[..|open| - 1]) + [Publish(open[|open| - 1].0, open[|open| - 1].1)]
  }

  /** What an action makes permanent when it commits. */
  function Exposed(c: Config, x: Session, a: Action): seq<DistrictKey> {
    match a
    case Attempt(t, step) => if Commits(c, x.db, step) then OpenOf(x, t) else []
    case Read(t) => OpenOf(x, t)
    case Close(_) => []
  }

  function StepsOf(c: Config, x: Session, a: Action): seq<Step> {
    Publishes(Exposed(c, x, a)) + if a.Attempt? && !a.step.Publish? then [a.step] else []
  }

  function Trace(c: Config, acts: seq<Action>): seq<Step>
    requires ValidConfig(c)
  {
    if acts == [] then []
    else Trace(c, acts[..|acts| - 1]) + StepsOf(c, DoAll(c, acts[..|acts| - 1]), acts[|acts| - 1])
  }

  lemma {:induction false} RunPublishes(c: Config, s: State, open: seq<DistrictKey>)
    ensures Run(c, s, Publishes(open)) == PublishAll(s, open)
  {
    hide AddYtd;
    if open != [] {
      var front, last := open[..|open| - 1], Publish(open[|open| - 1].0, open[|open| - 1].1);
      RunPublishes(c, s, front);
      RunAppend(c, s, Publishes(front), [last]);
      RunOne(c, PublishAll(s, front), last);
    }
  }

  lemma DoIsRun(c: Config, x: Session, a: Action)
    ensures Do(c, x, a).db == Run(c, x.db, StepsOf(c, x, a))
  {
    hide Next, Run, PublishAll, NewOrderCommits, NewOrderReads, DeliveryOutcome;
    var open := Exposed(c, x, a);
    RunPublishes(c, x.db, open);
    RunNothing(c, x.db);
    if a.Attempt? && !a.step.Publish? {
      RunAppend(c, x.db, Publishes(open), [a.step]);
      RunOne(c, PublishAll(x.db, open), a.step);
      if a.step.PaymentStep? { RefusedPayment(c, x.db, a.step); }
    } else {
      assert StepsOf(c, x, a) == Publishes(open);
    }
  }

  lemma RunNothing(c: Config, s: State)
    ensures Run(c, s, []) == s && PublishAll(s, []) == s
  {
  }

  lemma RefusedPayment(c: Config, s: State, step: Step)
    requires step.PaymentStep?
    ensures !PaymentCommits(s, step.w, step.d, step.id) ==> Next(c, s, step) == s
  {
  }

  /** Whatever terminals do, the database goes through a run: all that holds of runs holds of it. */
  lemma {:induction false} SessionIsRun(c: Config, acts: seq<Action>)
    requires ValidConfig(c)
    ensures DoAll(c, acts).db == Run(c, Load(c), Trace(c, acts))
  {
    hide Do, StepsOf, Next;
    if acts == [] {
      RunNothing(c, Load(c));
    } else {
      var past, last := acts[..|acts| - 1], acts[|acts| - 1];
      SessionIsRun(c, past);
      DoIsRun(c, DoAll(c, past), last);
      RunAppend(c, Load(c), Trace(c, past), StepsOf(c, DoAll(c, past), last));
    }
  }

  // --- what a caller has to see to ---

  /** Whether an update reached a warehouse that exists. */
  predicate Real(c: Config, leak: DistrictKey) {
    1 <= leak.0 <= c.warehouses
  }

  /** No terminal committed anything while it had such an update open. */
  ghost predicate Clean(c: Config, acts: seq<Action>)
    requires ValidConfig(c)
  {
    acts == [] ||
    (Clean(c, acts[..|acts| - 1]) &&
     forall leak :: leak in Exposed(c, DoAll(c, acts[..|acts| - 1]), acts[|acts| - 1]) ==> !Real(c, leak))
  }

  ghost predicate NoneReal(c: Config, leaks: seq<DistrictKey>) {
    forall leak :: leak in leaks ==> !Real(c, leak)
  }

  lemma {:induction false} LeaksAppend(a: seq<Step>, b: seq<Step>)
    ensures Leaks(a + b) == Leaks(a) + Leaks(b)
  {
    if b == [] {
      assert a + b == a;
    } else {
      assert (a + b)[..|a + b| - 1] == a + b[..|b| - 1];
      LeaksAppend(a, b[..|b| - 1]);
    }
  }

  lemma {:induction false} PublishesLeak(open: seq<DistrictKey>)
    ensures Leaks(Publishes(open)) == open
  {
    if open != [] {
      var front, last := open[..|open| - 1], open[|open| - 1];
      PublishesLeak(front);
      LeaksAppend(Publishes(front), [Publish(last.0, last.1)]);
      assert Leaks([Publish(last.0, last.1)]) == Leaks([]) + [(last.0, last.1)] by {
        assert [Publish(last.0, last.1)][..0] == [];
      }
      assert front + [last] == open;
    }
  }

  lemma ActionLeaks(c: Config, x: Session, a: Action)
    ensures Leaks(StepsOf(c, x, a)) == Exposed(c, x, a)
  {
    hide Exposed;
    PublishesLeak(Exposed(c, x, a));
    if a.Attempt? && !a.step.Publish? {
      LeaksAppend(Publishes(Exposed(c, x, a)), [a.step]);
      assert Leaks([a.step]) == [] by { assert [a.step][..0] == []; }
    } else {
      assert StepsOf(c, x, a) == Publishes(Exposed(c, x, a));
    }
  }

  lemma {:induction false} CleanIff(c: Config, acts: seq<Action>)
    requires ValidConfig(c)
    ensures Clean(c, acts) <==> NoneReal(c, Leaks(Trace(c, acts)))
  {
    hide Exposed, StepsOf, Do, Real;
    if acts != [] {
      var past, last := acts[..|acts| - 1], acts[|acts| - 1];
      var x := DoAll(c, past);
      CleanIff(c, past);
      ActionLeaks(c, x, last);
      LeaksAppend(Trace(c, past), StepsOf(c, x, last));
      assert NoneReal(c, Leaks(Trace(c, past)) + Exposed(c, x, last)) <==>
             NoneReal(c, Leaks(Trace(c, past))) && NoneReal(c, Exposed(c, x, last));
    }
  }

  /** Year-to-date totals against history and against each other, as they were loaded. */
  ghost predicate AsLoaded(c: Config, s: State) {
    && (forall w, d :: InRange(c, w, d) ==> DistrictMoney(c, s, w, d, []))
    && (forall w :: 1 <= w <= c.warehouses ==> WarehouseMoney(c, s, w, []))
  }

  lemma {:induction false} NoneCounted(leaks: seq<DistrictKey>, place: Place)
    ensures LeakCount(leaks, place) == 0 <==> forall leak :: leak in leaks ==> !FallsIn(place, leak)
  {
    if leaks != [] {
      var front, last := leaks[..|leaks| - 1], leaks[|leaks| - 1];
      NoneCounted(front, place);
      assert leaks == front + [last];
    }
  }

  lemma NoneRealCounts(c: Config, leaks: seq<DistrictKey>, place: Place)
    requires NoneReal(c, leaks) && 1 <= place.w <= c.warehouses
    ensures LeakCount(leaks, place) == 0
  {
    NoneCounted(leaks, place);
  }

  lemma MoneyAsLoaded(c: Config, s: State, leaks: seq<DistrictKey>)
    requires MoneyInv(c, s, leaks)
    ensures AsLoaded(c, s) <==> NoneReal(c, leaks)
  {
    hide HistSum, YtdSum, LeakCount, CustomerMoney;
    NothingCounted();
    if NoneReal(c, leaks) {
      forall w, d | InRange(c, w, d) ensures DistrictMoney(c, s, w, d, []) {
        assert DistrictMoney(c, s, w, d, leaks);
        NoneRealCounts(c, leaks, InDistrict(w, d));
      }
      forall w | 1 <= w <= c.warehouses ensures WarehouseMoney(c, s, w, []) {
        assert WarehouseMoney(c, s, w, leaks);
        NoneRealCounts(c, leaks, InWarehouse(w));
        NoneRealCounts(c, leaks, OutsideDistricts(w, c.districts));
      }
    } else {
      var leak :| leak in leaks && Real(c, leak);
      assert WarehouseMoney(c, s, leak.0, leaks);
      NoneCounted(leaks, InWarehouse(leak.0));
      assert FallsIn(InWarehouse(leak.0), leak);
      assert !WarehouseMoney(c, s, leak.0, []);
    }
  }

  lemma NothingCounted()
    ensures forall place :: LeakCount([], place) == 0
  {
  }

  /**
   For any terminals and any order of their actions: the totals are as loaded exactly when no terminal
   committed anything after a refused Payment of its own had reached an existing warehouse, unless it
   was rolled back or closed in between.
   */
  lemma SessionMoney(c: Config, acts: seq<Action>)
    requires ValidConfig(c)
    ensures AsLoaded(c, DoAll(c, acts).db) <==> Clean(c, acts)
  {
    hide DoAll, Run, Load, MoneyInv, AsLoaded, NoneReal, Clean;
    SessionIsRun(c, acts);
    RunMoney(c, Trace(c, acts));
    MoneyAsLoaded(c, Run(c, Load(c), Trace(c, acts)), Leaks(Trace(c, acts)));
    CleanIff(c, acts);
  }

  /** A Payment for a customer that does not exist, and then one for a customer that does. */
  lemma RefusedThenPaid(c: Config, t: int)
    requires ValidConfig(c) && InRange(c, 1, 1)
    ensures var acts := [Attempt(t, PaymentStep(1, 1, c.customers + 1)), Attempt(t, PaymentStep(1, 1, 1))];
            !AsLoaded(c, DoAll(c, acts).db)
  {
    hide AsLoaded, Next, PublishAll;
    var first, second := Attempt(t, PaymentStep(1, 1, c.customers + 1)), Attempt(t, PaymentStep(1, 1, 1));
    assert [first, second][..1] == [first] && [first][..0] == [];
    var x := DoAll(c, [first]);
    assert DoAll(c, []) == Session(Load(c), map[]);
    LoadedCustomers1(c);
    assert x == Session(Load(c), map[t := [] + [(1, 1)]]);
    assert Exposed(c, x, second) == [(1, 1)];
    assert (1, 1) in Exposed(c, x, second) && Real(c, (1, 1));
    assert !Clean(c, [first, second]);
    SessionMoney(c, [first, second]);
  }

  lemma LoadedCustomers1(c: Config)
    requires ValidConfig(c) && InRange(c, 1, 1)
    ensures !PaymentCommits(Load(c), 1, 1, c.customers + 1) && PaymentCommits(Load(c), 1, 1, 1)
  {
  }
}
