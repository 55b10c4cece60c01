/**
 Loading that survives interruption. A table is loaded in chunks, each committed on its own; a later
 run looks only at the row count to decide whether to keep the table or to empty and reload it.
 */
module LoaderResume {
  import opened Arithmetic
  import opened TpccClauses

  /** Warehouse, district, number and line of a row; tables without one of them use 1. */
  type Key = (int, int, int, int)
  type Rows = set<Key>

  /** The rows of the chosen chunks of a plan, and of all of them. */
  ghost function Committed(plan: seq<Rows>, chosen: set<int>): Rows {
    set i, k | 0 <= i < |plan| && i in chosen && k in plan[i] :: k
  }

  ghost function AllRows(plan: seq<Rows>): Rows {
    Committed(plan, Interval(0, |plan|))
  }

  ghost predicate Disjoint(plan: seq<Rows>) {
    forall i, j :: 0 <= i < j < |plan| ==> plan[i] !! plan[j]
  }

  lemma CommittedNone(plan: seq<Rows>)
    ensures Committed(plan, {}) == {}
  {
  }

  lemma CommittedMore(plan: seq<Rows>, chosen: set<int>, i: int)
    requires 0 <= i < |plan|
    ensures Committed(plan, chosen + {i}) == Committed(plan, chosen) + plan[i]
  {
  }

  lemma CommittedWithin(plan: seq<Rows>, chosen: set<int>)
    ensures Committed(plan, chosen) <= AllRows(plan)
  {
  }

  /** A chunk that is still to come shares no row with those committed. */
  lemma ChunkIsNew(plan: seq<Rows>, chosen: set<int>, i: int)
    requires Disjoint(plan) && 0 <= i < |plan| && i !in chosen
    ensures Committed(plan, chosen) !! plan[i]
  {
    forall k | k in plan[i] ensures k !in Committed(plan, chosen) {
      forall j | 0 <= j < |plan| && j in chosen ensures k !in plan[j] {
        assert plan[if i < j then i else j] !! plan[if i < j then j else i];
      }
    }
  }

  /**
   What one run may do to one table: leave it, done if its row count was right; or, if the count was
   wrong, replace it by the rows of any of the chunks, done if all were committed.
   */
  ghost predicate Attempt(before: Rows, plan: seq<Rows>, after: Rows, done: bool) {
    || (after == before && (done ==> |before| == |AllRows(plan)|))
    || (|before| != |AllRows(plan)| &&
        exists chosen: set<int> :: after == Committed(plan, chosen) && (done ==> after == AllRows(plan)))
  }

  lemma {:induction false} SubsetSize(a: Rows, b: Rows)
    requires a <= b
    ensures |a| <= |b| && (|a| == |b| ==> a == b)
  {
    if a != {} {
      var k :| k in a;
      SubsetSize(a - {k}, b - {k});
    } else if b != {} {
      var k :| k in b;
      assert |b - {k}| == |b| - 1;
    }
  }

  /** Counting is enough: a table that only ever held planned rows is complete when the count is right. */
  lemma AttemptKeeps(before: Rows, plan: seq<Rows>, after: Rows, done: bool)
    requires before <= AllRows(plan) && Attempt(before, plan, after, done)
    ensures after <= AllRows(plan)
    ensures done ==> after == AllRows(plan)
  {
    SubsetSize(before, AllRows(plan));
    if after != before {
      var chosen :| after == Committed(plan, chosen);
      CommittedWithin(plan, chosen);
    }
  }

  // --- runs over all tables ---

  /** One run of the loader: the tables in order, stopping at the first one it did not finish. */
  ghost predicate RunAttempt(before: seq<Rows>, plans: seq<seq<Rows>>, after: seq<Rows>, done: bool)
    requires |before| == |plans| == |after|
    decreases |plans|
  {
    if plans == [] then done
    else
      exists first: bool ::
        && Attempt(before[0], plans[0], after[0], first)
        && (if first then RunAttempt(before[1..], plans[1..], after[1..], done)
            else before[1..] == after[1..] && !done)
  }

  ghost predicate OnlyPlanned(tables: seq<Rows>, plans: seq<seq<Rows>>) {
    |tables| == |plans| && forall i :: 0 <= i < |plans| ==> tables[i] <= AllRows(plans[i])
  }

  ghost predicate Complete(tables: seq<Rows>, plans: seq<seq<Rows>>) {
    |tables| == |plans| && forall i :: 0 <= i < |plans| ==> tables[i] == AllRows(plans[i])
  }

  lemma {:induction false} RunKeepsPlanned(before: seq<Rows>, plans: seq<seq<Rows>>, after: seq<Rows>, done: bool)
    requires |after| == |plans| && OnlyPlanned(before, plans) && RunAttempt(before, plans, after, done)
    ensures OnlyPlanned(after, plans)
    ensures done ==> Complete(after, plans)
    decreases |plans|
  {
    if plans != [] {
      var first: bool :| Attempt(before[0], plans[0], after[0], first) &&
                         (if first then RunAttempt(before[1..], plans[1..], after[1..], done)
                          else before[1..] == after[1..] && !done);
      AttemptKeeps(before[0], plans[0], after[0], first);
      if first {
        RunKeepsPlanned(before[1..], plans[1..], after[1..], done);
        Prepend(after, plans, done);
      } else {
        forall i | 0 <= i < |plans| ensures after[i] <= AllRows(plans[i]) {
          if i > 0 { assert after[i] == after[1..][i - 1] == before[1..][i - 1] == before[i]; }
        }
      }
    }
  }

  lemma Prepend(tables: seq<Rows>, plans: seq<seq<Rows>>, done: bool)
    requires |tables| == |plans| > 0 && OnlyPlanned(tables[1..], plans[1..]) && tables[0] <= AllRows(plans[0])
    requires done ==> Complete(tables[1..], plans[1..]) && tables[0] == AllRows(plans[0])
    ensures OnlyPlanned(tables, plans)
    ensures done ==> Complete(tables, plans)
  {
    forall i | 0 < i < |plans|
      ensures tables[i] <= AllRows(plans[i]) && (done ==> tables[i] == AllRows(plans[i]))
    {
      assert tables[i] == tables[1..][i - 1] && plans[i] == plans[1..][i - 1];
    }
  }

  /** The database after each of a series of runs, and whether each run finished. */
  ghost predicate RunHistory(states: seq<seq<Rows>>, finished: seq<bool>, plans: seq<seq<Rows>>) {
    && |states| == |finished| + 1
    && (forall i :: 0 <= i < |states| ==> |states[i]| == |plans|)
    && forall i :: 0 <= i < |finished| ==> RunAttempt(states[i], plans, states[i + 1], finished[i])
  }

  /**
   However many runs were interrupted, wherever, and whichever chunks they had committed: once a run
   finishes, every table holds exactly its planned rows; until then none holds any other.
   */
  lemma {:induction false} ResumeCompletes(states: seq<seq<Rows>>, finished: seq<bool>, plans: seq<seq<Rows>>, n: nat)
    requires RunHistory(states, finished, plans) && n <= |finished|
    requires OnlyPlanned(states[0], plans)
    ensures OnlyPlanned(states[n], plans)
    ensures n > 0 && finished[n - 1] ==> Complete(states[n], plans)
  {
    if n > 0 {
      ResumeCompletes(states, finished, plans, n - 1);
      var before, after := states[n - 1], states[n];
      assert RunAttempt(states[n - 1], plans, states[n - 1 + 1], finished[n - 1]);
      RunKeepsPlanned(before, plans, after, finished[n - 1]);
    }
  }

  // --- the loader ---

  /** The set of a batch of rows. */
  function RowSet(rows: seq<Key>): Rows {
    set k | k in rows
  }

  ghost predicate Distinct(rows: seq<Key>) {
    forall i, j :: 0 <= i < j < |rows| ==> rows[i] != rows[j]
  }

  /** A row-by-row load as a plan: batches commit several of these chunks at once. */
  ghost function RowPlan(rows: seq<Key>): (plan: seq<Rows>)
    ensures |plan| == |rows| && forall i :: 0 <= i < |rows| ==> plan[i] == {rows[i]}
  {
    seq(|rows|, i requires 0 <= i < |rows| => {rows[i]})
  }

  lemma RowPrefix(rows: seq<Key>, n: nat)
    requires n <= |rows|
    ensures Committed(RowPlan(rows), Interval(0, n)) == RowSet(rows[..n])
  {
    var plan := RowPlan(rows);
    forall k ensures k in Committed(plan, Interval(0, n)) <==> k in RowSet(rows[..n]) {
      if k in RowSet(rows[..n]) {
        var i :| 0 <= i < n && rows[i] == k;
        assert k in plan[i] && i in Interval(0, n);
      }
    }
  }

  lemma RowPlanIs(rows: seq<Key>)
    ensures AllRows(RowPlan(rows)) == RowSet(rows)
  {
    RowPrefix(rows, |rows|);
    assert rows[..|rows|] == rows;
  }

  lemma {:induction false} DistinctSize(rows: seq<Key>)
    requires Distinct(rows)
    ensures |RowSet(rows)| == |rows|
  {
    if rows != [] {
      var front, last := rows[..|rows| - 1], rows[|rows| - 1];
      DistinctSize(front);
      assert RowSet(rows) == RowSet(front) + {last};
    }
  }

  lemma NextBatch(rows: seq<Key>, first: nat, end: nat)
    requires Distinct(rows) && first <= end <= |rows|
    ensures RowSet(rows[..first]) !! RowSet(rows[first..end])
    ensures RowSet(rows[..end]) == RowSet(rows[..first]) + RowSet(rows[first..end])
    ensures |RowSet(rows[first..end])| == end - first
  {
    assert rows[..end] == rows[..first] + rows[first..end];
    DistinctSize(rows[first..end]);
  }

  lemma NoRows(rows: seq<Key>)
    ensures RowSet(rows[..0]) == {}
  {
  }

  lemma SkipAttempt(before: Rows, rows: seq<Key>)
    requires Distinct(rows) && |before| == |rows|
    ensures Attempt(before, RowPlan(rows), before, true)
  {
    DistinctSize(rows);
    RowPlanIs(rows);
  }

  /** A run that committed the first `n` rows. */
  lemma PrefixAttempt(before: Rows, rows: seq<Key>, n: nat, done: bool)
    requires Distinct(rows) && n <= |rows| && |before| != |rows| && (done ==> n == |rows|)
    ensures Attempt(before, RowPlan(rows), RowSet(rows[..n]), done)
  {
    DistinctSize(rows);
    RowPlanIs(rows);
    RowPrefix(rows, n);
    assert rows[..|rows|] == rows;
  }

  ghost function Ids(schedule: seq<int>): set<int> {
    set c | c in schedule
  }

  lemma ChunksAttempt(before: Rows, plan: seq<Rows>, chosen: set<int>, done: bool)
    requires |before| != |AllRows(plan)|
    requires done ==> forall c :: 0 <= c < |plan| ==> c in chosen
    ensures Attempt(before, plan, Committed(plan, chosen), done)
  {
    if done { assert Committed(plan, chosen) == AllRows(plan); }
  }

  /** Nothing to load after the count was looked at: the table was complete, or nothing is planned. */
  lemma ResetAttempt(before: Rows, plan: seq<Rows>, after: Rows)
    requires after == (if |before| == |AllRows(plan)| then before else {}) && |after| == |AllRows(plan)|
    ensures Attempt(before, plan, after, true)
  {
    if after != before {
      CommittedNone(plan);
      assert after == Committed(plan, {});
    }
  }

  function Smaller(a: int, b: int): int {
    if a < b then a else b
  }

  lemma Multiple(x: int, m: int)
    requires m > 0 && x % m == 0
    ensures (x + m) % m == 0
  {
    ModUnique(x + m, m, x / m + 1, 0);
  }

  /** How one table is loaded: row by row in batches, or in chunks that workers commit by a schedule. */
  datatype Job = ByRows(rows: seq<Key>) | ByChunks(plan: seq<Rows>, expected: nat, schedule: seq<int>)

  ghost predicate ValidSchedule(schedule: seq<int>, chunks: nat) {
    && (forall i :: 0 <= i < |schedule| ==> 0 <= schedule[i] < chunks)
    && (forall i, j :: 0 <= i < j < |schedule| ==> schedule[i] != schedule[j])
  }

  ghost predicate ValidJob(job: Job) {
    match job
    case ByRows(rows) => Distinct(rows)
    case ByChunks(plan, expected, schedule) =>
      Disjoint(plan) && expected == |AllRows(plan)| && ValidSchedule(schedule, |plan|)
  }

  ghost function PlanOf(job: Job): seq<Rows> {
    match job
    case ByRows(rows) => RowPlan(rows)
    case ByChunks(plan, _, _) => plan
  }

  ghost function PlansOf(jobs: seq<Job>): (plans: seq<seq<Rows>>)
    ensures |plans| == |jobs| && forall i :: 0 <= i < |jobs| ==> plans[i] == PlanOf(jobs[i])
  {
    seq(|jobs|, i requires 0 <= i < |jobs| => PlanOf(jobs[i]))
  }

  /** No worker leaves a chunk out. */
  predicate Thorough(job: Job) {
    job.ByChunks? ==> forall c :: 0 <= c < |job.plan| ==> c in job.schedule
  }

  /** Tables finished one after the other, up to the first that was not. */
  lemma {:induction false} RunUpTo(before: seq<Rows>, plans: seq<seq<Rows>>, after: seq<Rows>, n: nat, done: bool)
    requires |before| == |plans| == |after| && n <= |plans| && (done <==> n == |plans|)
    requires forall i :: 0 <= i < n ==> Attempt(before[i], plans[i], after[i], true)
    requires n < |plans| ==> Attempt(before[n], plans[n], after[n], false) && before[n + 1..] == after[n + 1..]
    ensures RunAttempt(before, plans, after, done)
    decreases n
  {
    hide Attempt;
    if n > 0 {
      assert Attempt(before[0], plans[0], after[0], true);
      var b, p, a := before[1..], plans[1..], after[1..];
      forall i | 0 <= i < n - 1 ensures Attempt(b[i], p[i], a[i], true) {
        assert Attempt(before[i + 1], plans[i + 1], after[i + 1], true);
      }
      assert n < |plans| ==> b[n..] == before[n + 1..] && a[n..] == after[n + 1..];
      RunUpTo(b, p, a, n - 1, done);
    }
  }

  class Loader {
    const failAfterBatches: int
    var committedBatches: nat
    var table: Rows

    constructor (fail: int, rows: Rows)
      ensures failAfterBatches == fail && committedBatches == 0 && table == rows
    {
      failAfterBatches, committedBatches, table := fail, 0, rows;
    }

    method AfterBatch() returns (interrupted: bool)
      modifies this`committedBatches
      ensures committedBatches == old(committedBatches) + 1
      ensures interrupted <==> failAfterBatches > 0 && committedBatches >= failAfterBatches
    {
      committedBatches := committedBatches + 1;
      interrupted := failAfterBatches > 0 && committedBatches >= failAfterBatches;
    }

    method ResetPartial(expected: nat)
      modifies this`table
      ensures table == if |old(table)| == expected then old(table) else {}
    {
      var current := |table|;
      if current == expected { return; }
      if current != 0 { table := {}; }
    }

    /**
     Loads the chunks of a plan in the order the workers happen to commit them. A schedule that does
     not name every chunk is a run in which some worker failed.
     */
    method LoadChunks(plan: seq<Rows>, expected: nat, schedule: seq<int>) returns (done: bool)
      requires Disjoint(plan) && expected == |AllRows(plan)| && ValidSchedule(schedule, |plan|)
      modifies this
      ensures Attempt(old(table), plan, table, done)
      ensures failAfterBatches <= 0 && (forall c :: 0 <= c < |plan| ==> c in schedule) ==> done
    {
      hide Attempt, Committed, AllRows, Disjoint;
      ResetPartial(expected);
      if |table| == expected {
        ResetAttempt(old(table), plan, table);
        return true;
      }
      CommittedNone(plan);
      assert Ids(schedule[..0]) == {};
      var next := 0;
      while next < |schedule|
        invariant 0 <= next <= |schedule|
        invariant table == Committed(plan, Ids(schedule[..next]))
      {
        var chunk := schedule[next];
        ghost var chosen := Ids(schedule[..next]);
        ChunkIsNew(plan, chosen, chunk);
        assert table !! plan[chunk];
        table := table + plan[chunk];
        CommittedMore(plan, chosen, chunk);
        next := next + 1;
        assert Ids(schedule[..next]) == chosen + {chunk};
        var interrupted := AfterBatch();
        if interrupted {
          ChunksAttempt(old(table), plan, Ids(schedule[..next]), false);
          return false;
        }
      }
      done := forall c :: 0 <= c < |plan| ==> c in schedule;
      assert schedule[..next] == schedule;
      ChunksAttempt(old(table), plan, Ids(schedule), done);
    }

    /** Inserts and commits the rows `first..end` behind those that are there. */
    method CommitBatch(ghost rows: seq<Key>, ghost first: nat, ghost end: nat, batch: seq<Key>)
      returns (interrupted: bool)
      requires Distinct(rows) && first <= end <= |rows| && batch == rows[first..end] && table == RowSet(rows[..first])
      modifies this
      ensures table == RowSet(rows[..end])
      ensures interrupted ==> failAfterBatches > 0
    {
      NextBatch(rows, first, end);
      hide RowSet;
      var affected := RowSet(batch);
      assert table !! affected && |affected| == end - first;
      table := table + affected;
      interrupted := AfterBatch();
    }

    /** Builds a batch of rows, commits it, and goes on with the next. */
    method InsertRows(rows: seq<Key>, batchRows: nat) returns (done: bool, ghost committed: nat)
      requires Distinct(rows) && batchRows > 0
      modifies this
      ensures Attempt(old(table), RowPlan(rows), table, done)
      ensures committed <= |rows| && table == (if |old(table)| == |rows| then old(table) else RowSet(rows[..committed]))
      ensures committed % batchRows == 0 || committed == |rows|
      ensures failAfterBatches <= 0 ==> done
    {
      hide RowSet, RowPlan, Attempt, Distinct;
      committed := 0;
      ModUnique(0, batchRows, 0, 0);
      NoRows(rows);
      ResetPartial(|rows|);
      if |table| == |rows| {
        if |old(table)| == |rows| { SkipAttempt(table, rows); } else { PrefixAttempt(old(table), rows, 0, true); }
        return true, 0;
      }
      var first := 0;
      while first < |rows|
        invariant 0 <= first && (first < |rows| ==> first % batchRows == 0)
        invariant committed == Smaller(first, |rows|) && table == RowSet(rows[..committed])
      {
        var end := Smaller(|rows|, first + batchRows);
        var interrupted := CommitBatch(rows, first, end, rows[first..end]);
        Multiple(first, batchRows);
        committed := end;
        if interrupted {
          PrefixAttempt(old(table), rows, committed, false);
          return false, committed;
        }
        first := first + batchRows;
      }
      PrefixAttempt(old(table), rows, |rows|, true);
      done := true;
    }

    /** The same load through a prepared statement that collects rows until a batch is full. */
    method InsertPrepared(rows: seq<Key>, batchRows: nat) returns (done: bool, ghost committed: nat)
      requires Distinct(rows) && batchRows > 0
      modifies this
      ensures Attempt(old(table), RowPlan(rows), table, done)
      ensures committed <= |rows| && table == (if |old(table)| == |rows| then old(table) else RowSet(rows[..committed]))
      ensures committed % batchRows == 0 || committed == |rows|
      ensures failAfterBatches <= 0 ==> done
    {
      hide RowSet, RowPlan, Attempt, Distinct;
      committed := 0;
      ModUnique(0, batchRows, 0, 0);
      NoRows(rows);
      ResetPartial(|rows|);
      if |table| == |rows| {
        if |old(table)| == |rows| { SkipAttempt(table, rows); } else { PrefixAttempt(old(table), rows, 0, true); }
        return true, 0;
      }
      var pending: seq<Key> := [];
      var index := 0;
      while index < |rows|
        invariant 0 <= index <= |rows| && |pending| < batchRows
        invariant committed == index - |pending| && committed >= 0 && committed % batchRows == 0
        invariant pending == rows[committed..index]
        invariant table == RowSet(rows[..committed])
      {
        pending := pending + [rows[index]];
        index := index + 1;
        if |pending| == batchRows {
          var interrupted := CommitBatch(rows, committed, index, pending);
          Multiple(committed, batchRows);
          committed := index;
          if interrupted {
            PrefixAttempt(old(table), rows, committed, false);
            return false, committed;
          }
          pending := [];
        }
      }
      if |pending| != 0 {
        var interrupted := CommitBatch(rows, committed, |rows|, pending);
        committed := |rows|;
        if interrupted {
          PrefixAttempt(old(table), rows, committed, false);
          return false, committed;
        }
      }
      PrefixAttempt(old(table), rows, |rows|, true);
      done := true;
    }

    method LoadTable(job: Job, batchRows: nat) returns (done: bool)
      requires ValidJob(job) && batchRows > 0
      modifies this
      ensures Attempt(old(table), PlanOf(job), table, done)
      ensures failAfterBatches <= 0 && Thorough(job) ==> done
    {
      hide Attempt;
      match job
      case ByRows(rows) =>
        ghost var committed;
        done, committed := InsertRows(rows, batchRows);
      case ByChunks(plan, expected, schedule) =>
        done := LoadChunks(plan, expected, schedule);
    }

    /** One run of the loader over all tables; it stops at the first one it cannot finish. */
    method LoadTables(db: seq<Rows>, jobs: seq<Job>, batchRows: nat) returns (after: seq<Rows>, done: bool)
      requires |db| == |jobs| && (forall i :: 0 <= i < |jobs| ==> ValidJob(jobs[i])) && batchRows > 0
      modifies this
      ensures |after| == |db| && RunAttempt(db, PlansOf(jobs), after, done)
      ensures failAfterBatches <= 0 && (forall i :: 0 <= i < |jobs| ==> Thorough(jobs[i])) ==> done
    {
      hide Attempt, RunAttempt, ValidJob, PlanOf, Thorough;
      ghost var plans := PlansOf(jobs);
      after := db;
      var i := 0;
      while i < |jobs|
        invariant 0 <= i <= |jobs| && |after| == |db|
        invariant forall j :: 0 <= j < i ==> Attempt(db[j], plans[j], after[j], true)
        invariant forall j :: i <= j < |db| ==> after[j] == db[j]
      {
        table := db[i];
        var finished := LoadTable(jobs[i], batchRows);
        after := after[i := table];
        if !finished {
          RunUpTo(db, plans, after, i, false);
          return after, false;
        }
        i := i + 1;
      }
      RunUpTo(db, plans, after, i, true);
      done := true;
    }
  }
}
