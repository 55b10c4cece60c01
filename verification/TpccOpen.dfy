/**
 A terminal's open transaction against the session: the tables it sees are the committed ones with the
 updates it has left open, and what each transaction does to both is what the session says.
 */
module TpccOpen {
  import opened TpccFormulas
  import opened TpccState
  import opened TpccSessions

  /** The tables as last committed, with the maps that no rollback touches. */
  function Undone(db: State, saved: State): State {
    saved.(latest := db.latest, runtimeItems := db.runtimeItems, cursors := db.cursors)
  }

  /** `db` is what terminal `t` sees of the session, `saved` has the committed tables. */
  ghost predicate Agrees(x: Session, t: int, db: State, saved: State) {
    x.db == Undone(db, saved) && db == PublishAll(x.db, OpenOf(x, t))
  }

  /** Published updates raise year-to-date totals and nothing else. */
  ghost predicate OnlyYtd(s: State, u: State) {
    && u == s.(warehouse := u.warehouse, district := u.district)
    && (forall k :: k in u.district <==> k in s.district)
    && (forall k :: k in s.district ==> u.district[k].nextOid == s.district[k].nextOid)
  }

  lemma {:induction false} PublishedOnlyYtd(s: State, open: seq<DistrictKey>)
    ensures OnlyYtd(s, PublishAll(s, open))
  {
    if open != [] { PublishedOnlyYtd(s, open[..|open| - 1]); }
  }

  lemma SameReads(c: Config, s: State, u: State, w: int, d: int, id: int)
    requires OnlyYtd(s, u)
    ensures NewOrderReads(c, u, w, d, id) <==> NewOrderReads(c, s, w, d, id)
    ensures NewOrderCommits(c, u, w, d, id) <==> NewOrderCommits(c, s, w, d, id)
    ensures PaymentCommits(u, w, d, id) <==> PaymentCommits(s, w, d, id)
    ensures DeliveryOutcome(c, u, w, d) == DeliveryOutcome(c, s, w, d)
  {
    hide AllAvailable, NoLines, Search, LineCount;
  }

  lemma SameCursor(c: Config, s: State, u: State, w: int, d: int, looks: nat)
    requires OnlyYtd(s, u)
    ensures CursorOf(c, u, w, d) == CursorOf(c, s, w, d) && u.newOrder == s.newOrder
    ensures MoveCursor(c, u, w, d) == u.(cursors := MoveCursor(c, s, w, d).cursors)
    ensures LeaveCursor(c, u, w, d, looks) == u.(cursors := LeaveCursor(c, s, w, d, looks).cursors)
  {
    hide Search, SearchPart;
  }

  lemma {:induction false} PublishCursors(s: State, open: seq<DistrictKey>, cursors: map<DistrictKey, int>)
    ensures PublishAll(s.(cursors := cursors), open) == PublishAll(s, open).(cursors := cursors)
  {
    if open != [] { PublishCursors(s, open[..|open| - 1], cursors); }
  }

  /** A transaction that commits: everything open is published with it. */
  lemma CommitAgrees(c: Config, x: Session, t: int, step: Step, db: State, saved: State)
    requires Agrees(x, t, db, saved) && !step.Publish? && Commits(c, db, step)
    ensures Agrees(Do(c, x, Attempt(t, step)), t, Next(c, db, step), Next(c, db, step))
  {
    hide Next, PublishAll, NewOrderCommits, DeliveryOutcome, PaymentCommits, OnlyYtd;
    PublishedOnlyYtd(x.db, OpenOf(x, t));
    SameCommits(c, x.db, db, step);
    NothingOpen(Next(c, db, step));
  }

  lemma NothingOpen(s: State)
    ensures PublishAll(s, []) == s && Undone(s, s) == s
  {
  }

  lemma SameCommits(c: Config, s: State, u: State, step: Step)
    requires OnlyYtd(s, u)
    ensures Commits(c, u, step) <==> Commits(c, s, step)
    ensures RollsBack(c, u, step) <==> RollsBack(c, s, step)
  {
    hide OnlyYtd, NewOrderReads, NewOrderCommits, PaymentCommits, DeliveryOutcome;
    match step
    case NewOrderStep(w, d, id) => SameReads(c, s, u, w, d, id);
    case PaymentStep(w, d, id) => SameReads(c, s, u, w, d, id);
    case DeliveryStep(w, d, _) => SameReads(c, s, u, w, d, 0);
    case _ =>
  }

  /** A transaction that is rolled back before its search, or has none. */
  lemma RollbackAgrees(c: Config, x: Session, t: int, step: Step, db: State, saved: State)
    requires Agrees(x, t, db, saved) && !Commits(c, db, step) && RollsBack(c, db, step) && !step.AbortDelivery?
    ensures Agrees(Do(c, x, Attempt(t, step)), t, Undone(db, saved), saved)
  {
    hide PublishAll, NewOrderCommits, NewOrderReads, DeliveryOutcome, PaymentCommits, OnlyYtd, NewOrder;
    PublishedOnlyYtd(x.db, OpenOf(x, t));
    SameCommits(c, x.db, db, step);
    NothingOpen(x.db);
    assert Next(c, x.db, step) == x.db by { NoStep(c, x.db, step); }
  }

  lemma NoStep(c: Config, s: State, step: Step)
    requires !Commits(c, s, step) && (step.NewOrderStep? || step.Abort?)
    ensures Next(c, s, step) == s
  {
  }

  /** A Delivery whose search ends in a database error keeps the cursor it has reached. */
  lemma AbortAgrees(c: Config, x: Session, t: int, w: int, d: int, looks: nat, db: State, saved: State)
    requires Agrees(x, t, db, saved)
    ensures Agrees(Do(c, x, Attempt(t, AbortDelivery(w, d, looks))), t,
                   Undone(LeaveCursor(c, db, w, d, looks), saved), saved)
  {
    hide PublishAll, LeaveCursor, OnlyYtd;
    PublishedOnlyYtd(x.db, OpenOf(x, t));
    SameCursor(c, x.db, db, w, d, looks);
    OtherMaps(x.db, db);
    CursorOnly(c, x.db, w, d, looks);
    NothingOpen(LeaveCursor(c, x.db, w, d, looks));
  }

  lemma OtherMaps(s: State, u: State)
    requires OnlyYtd(s, u)
    ensures u.latest == s.latest && u.runtimeItems == s.runtimeItems
  {
  }

  lemma CursorOnly(c: Config, s: State, w: int, d: int, looks: nat)
    ensures LeaveCursor(c, s, w, d, looks) == s.(cursors := LeaveCursor(c, s, w, d, looks).cursors)
  {
  }

  /** A Payment refused for a missing customer leaves one more update open. */
  lemma RefusedPaymentAgrees(c: Config, x: Session, t: int, w: int, d: int, id: int, db: State, saved: State)
    requires Agrees(x, t, db, saved) && !PaymentCommits(db, w, d, id)
    ensures Agrees(Do(c, x, Attempt(t, PaymentStep(w, d, id))), t, AddYtd(db, w, d), saved)
  {
    hide OnlyYtd;
    var open := OpenOf(x, t);
    PublishedOnlyYtd(x.db, open);
    SameCommits(c, x.db, db, PaymentStep(w, d, id));
    assert (open + [(w, d)])[..|open|] == open;
  }

  /** A New-Order refused for a missing row leaves everything as it was. */
  lemma RefusedOrderAgrees(c: Config, x: Session, t: int, w: int, d: int, id: int, db: State, saved: State)
    requires Agrees(x, t, db, saved) && !NewOrderReads(c, db, w, d, id)
    ensures Agrees(Do(c, x, Attempt(t, NewOrderStep(w, d, id))), t, db, saved)
  {
    hide PublishAll, AllAvailable, OnlyYtd, NoLines;
    PublishedOnlyYtd(x.db, OpenOf(x, t));
    SameCommits(c, x.db, db, NewOrderStep(w, d, id));
    assert Next(c, x.db, NewOrderStep(w, d, id)) == x.db;
  }

  /** A Delivery refused by its search leaves the cursor where the search ended. */
  lemma RefusedDeliveryAgrees(c: Config, x: Session, t: int, w: int, d: int, carrier: int, db: State, saved: State)
    requires Agrees(x, t, db, saved) && DeliveryOutcome(c, db, w, d) == NotDelivered
    ensures Agrees(Do(c, x, Attempt(t, DeliveryStep(w, d, carrier))), t, MoveCursor(c, db, w, d), saved)
  {
    hide PublishAll, DeliveryOutcome, MoveCursor, OnlyYtd;
    PublishedOnlyYtd(x.db, OpenOf(x, t));
    SameCommits(c, x.db, db, DeliveryStep(w, d, carrier));
    SameReads(c, x.db, db, w, d, 0);
    SameCursor(c, x.db, db, w, d, 0);
    OtherMaps(x.db, db);
    MovedOnly(c, x.db, w, d);
    PublishCursors(x.db, OpenOf(x, t), MoveCursor(c, x.db, w, d).cursors);
  }

  lemma MovedOnly(c: Config, s: State, w: int, d: int)
    ensures MoveCursor(c, s, w, d) == s.(cursors := MoveCursor(c, s, w, d).cursors)
  {
  }

  /** A read that is answered commits what was open. */
  lemma ReadAgrees(c: Config, x: Session, t: int, db: State, saved: State)
    requires Agrees(x, t, db, saved)
    ensures Agrees(Do(c, x, Read(t)), t, db, db)
  {
    hide PublishAll;
    NothingOpen(db);
  }
}
