/**
 The chunks the loader cuts its tables into: no row is in two chunks, together they are the rows of
 the loaded state, and their number is what the completeness test compares with.
 */
module LoaderPlans {
  import opened Arithmetic
  import opened TpccFormulas
  import opened TpccState
  import opened TpccClauses
  import opened LoaderResume

  /** Rows `lo..hi` per warehouse and district, cut every `step`; order lines have several per number. */
  datatype Layout = Layout(warehouses: nat, districts: nat, lo: int, hi: int, step: nat, perLine: bool)

  function LinesOf(c: Config, t: Layout, w: int, d: int, o: int): (n: nat)
    ensures 1 <= n <= MAX_LINES
  {
    if t.perLine then LoadedLineCount(c, w, d, o) else 1
  }

  ghost function OrderRows(c: Config, t: Layout, w: int, d: int, o: int, n: nat): Rows {
    set l | 1 <= l <= n :: (w, d, o, l)
  }

  /** The rows of one committed chunk. */
  function Chunk(c: Config, t: Layout, w: int, d: int, first: int, last: int): Rows {
    set o, l | first <= o <= last && 1 <= l <= MAX_LINES && l <= LinesOf(c, t, w, d, o) :: (w, d, o, l)
  }

  /** The loop `first += step` of one district, all districts of a warehouse, all warehouses. */
  function ChunksFrom(c: Config, t: Layout, w: int, d: int, first: int): seq<Rows>
    requires t.step > 0
    decreases if first <= t.hi then t.hi - first + 1 else 0
  {
    if first > t.hi then []
    else [Chunk(c, t, w, d, first, Smaller(t.hi, first + t.step - 1))] + ChunksFrom(c, t, w, d, first + t.step)
  }

  function WarehouseChunks(c: Config, t: Layout, w: int, n: nat): seq<Rows>
    requires t.step > 0
  {
    if n == 0 then [] else WarehouseChunks(c, t, w, n - 1) + ChunksFrom(c, t, w, n, t.lo)
  }

  function TableChunks(c: Config, t: Layout, n: nat): seq<Rows>
    requires t.step > 0
  {
    if n == 0 then [] else TableChunks(c, t, n - 1) + WarehouseChunks(c, t, n, t.districts)
  }

  /** The number of rows: per range of numbers, per warehouse, per table. */
  function RangeCount(c: Config, t: Layout, w: int, d: int, first: int, last: int): nat
    decreases if first <= last then last - first + 1 else 0
  {
    if first > last then 0 else RangeCount(c, t, w, d, first, last - 1) + LinesOf(c, t, w, d, last)
  }

  function WarehouseCount(c: Config, t: Layout, w: int, n: nat): nat {
    if n == 0 then 0 else WarehouseCount(c, t, w, n - 1) + RangeCount(c, t, w, n, t.lo, t.hi)
  }

  function TableCount(c: Config, t: Layout, n: nat): nat {
    if n == 0 then 0 else TableCount(c, t, n - 1) + WarehouseCount(c, t, n, t.districts)
  }

  // --- plans put together ---

  lemma AllRowsAre(plan: seq<Rows>, k: Key)
    ensures k in AllRows(plan) <==> exists i :: 0 <= i < |plan| && k in plan[i]
  {
  }

  lemma AllRowsAppend(a: seq<Rows>, b: seq<Rows>)
    ensures AllRows(a + b) == AllRows(a) + AllRows(b)
  {
    forall k ensures k in AllRows(a + b) <==> k in AllRows(a) || k in AllRows(b) {
      AllRowsAre(a + b, k);
      AllRowsAre(a, k);
      AllRowsAre(b, k);
      hide AllRows;
      if i :| 0 <= i < |a| && k in a[i] { assert k in (a + b)[i]; }
      if i :| 0 <= i < |b| && k in b[i] { assert k in (a + b)[|a| + i]; }
    }
  }

  lemma ChunkWithin(plan: seq<Rows>, i: nat)
    requires i < |plan|
    ensures plan[i] <= AllRows(plan)
  {
    forall k | k in plan[i] ensures k in AllRows(plan) { AllRowsAre(plan, k); }
  }

  lemma DisjointAppend(a: seq<Rows>, b: seq<Rows>)
    requires Disjoint(a) && Disjoint(b) && AllRows(a) !! AllRows(b)
    ensures Disjoint(a + b)
    ensures |AllRows(a + b)| == |AllRows(a)| + |AllRows(b)|
  {
    AllRowsAppend(a, b);
    forall i, j | 0 <= i < j < |a + b| ensures (a + b)[i] !! (a + b)[j] {
      if i < |a| && j >= |a| {
        ChunkWithin(a, i);
        ChunkWithin(b, j - |a|);
      }
    }
  }

  lemma OneChunk(rows: Rows)
    ensures AllRows([rows]) == rows && Disjoint([rows])
  {
    forall k ensures k in AllRows([rows]) <==> k in rows {
      AllRowsAre([rows], k);
      assert [rows][0] == rows;
    }
  }

  // --- one district ---

  lemma {:induction false} OrderRowsSize(c: Config, t: Layout, w: int, d: int, o: int, n: nat)
    ensures |OrderRows(c, t, w, d, o, n)| == n
  {
    if n > 0 {
      OrderRowsSize(c, t, w, d, o, n - 1);
      assert OrderRows(c, t, w, d, o, n) == OrderRows(c, t, w, d, o, n - 1) + {(w, d, o, n)};
    }
  }

  lemma {:induction false} ChunkSize(c: Config, t: Layout, w: int, d: int, first: int, last: int)
    ensures |Chunk(c, t, w, d, first, last)| == RangeCount(c, t, w, d, first, last)
    decreases if first <= last then last - first + 1 else 0
  {
    if first <= last {
      var n := LinesOf(c, t, w, d, last);
      ChunkSize(c, t, w, d, first, last - 1);
      OrderRowsSize(c, t, w, d, last, n);
      assert Chunk(c, t, w, d, first, last) == Chunk(c, t, w, d, first, last - 1) + OrderRows(c, t, w, d, last, n);
      assert Chunk(c, t, w, d, first, last - 1) !! OrderRows(c, t, w, d, last, n);
    }
  }

  lemma ChunkJoin(c: Config, t: Layout, w: int, d: int, first: int, mid: int, last: int)
    requires first <= mid <= last + 1
    ensures Chunk(c, t, w, d, first, last) == Chunk(c, t, w, d, first, mid - 1) + Chunk(c, t, w, d, mid, last)
    ensures Chunk(c, t, w, d, first, mid - 1) !! Chunk(c, t, w, d, mid, last)
  {
  }

  lemma EmptyPlan()
    ensures AllRows([]) == {} && Disjoint([])
  {
  }

  /** The chunk loop covers first..hi without overlap, whatever the step. */
  lemma {:induction false} DistrictPlan(c: Config, t: Layout, w: int, d: int, first: int)
    requires t.step > 0
    ensures Disjoint(ChunksFrom(c, t, w, d, first))
    ensures AllRows(ChunksFrom(c, t, w, d, first)) == Chunk(c, t, w, d, first, t.hi)
    decreases if first <= t.hi then t.hi - first + 1 else 0
  {
    hide AllRows, Disjoint, Chunk;
    if first > t.hi {
      EmptyPlan();
      EmptyRange(c, t, w, d, first, t.hi);
    } else {
      var next := first + t.step;
      var head := Chunk(c, t, w, d, first, Smaller(t.hi, next - 1));
      DistrictPlan(c, t, w, d, next);
      OneChunk(head);
      if next <= t.hi {
        ChunkJoin(c, t, w, d, first, next, t.hi);
      } else {
        EmptyRange(c, t, w, d, next, t.hi);
      }
      DisjointAppend([head], ChunksFrom(c, t, w, d, next));
      AllRowsAppend([head], ChunksFrom(c, t, w, d, next));
    }
  }

  lemma EmptyRange(c: Config, t: Layout, w: int, d: int, first: int, last: int)
    requires first > last
    ensures Chunk(c, t, w, d, first, last) == {}
  {
  }

  // --- all districts, all warehouses ---

  ghost predicate RowOf(c: Config, t: Layout, k: Key) {
    && 1 <= k.0 <= t.warehouses && 1 <= k.1 <= t.districts && t.lo <= k.2 <= t.hi
    && 1 <= k.3 <= LinesOf(c, t, k.0, k.1, k.2)
  }

  lemma ChunkKeys(c: Config, t: Layout, w: int, d: int, k: Key)
    ensures k in Chunk(c, t, w, d, t.lo, t.hi) <==>
            k.0 == w && k.1 == d && t.lo <= k.2 <= t.hi && 1 <= k.3 <= LinesOf(c, t, k.0, k.1, k.2)
  {
    assert k == (k.0, k.1, k.2, k.3);
  }

  lemma {:induction false} WarehousePlan(c: Config, t: Layout, w: int, n: nat)
    requires t.step > 0
    ensures var plan := WarehouseChunks(c, t, w, n);
            && Disjoint(plan) && |AllRows(plan)| == WarehouseCount(c, t, w, n)
            && forall k :: k in AllRows(plan) <==> k.0 == w && 1 <= k.1 <= n && t.lo <= k.2 <= t.hi &&
                                                   1 <= k.3 <= LinesOf(c, t, k.0, k.1, k.2)
  {
    hide AllRows, Disjoint, Chunk, LinesOf, RangeCount, ChunksFrom;
    if n == 0 {
      EmptyPlan();
    } else {
      var a, b := WarehouseChunks(c, t, w, n - 1), ChunksFrom(c, t, w, n, t.lo);
      WarehousePlan(c, t, w, n - 1);
      DistrictPlan(c, t, w, n, t.lo);
      ChunkSize(c, t, w, n, t.lo, t.hi);
      forall k: Key { ChunkKeys(c, t, w, n, k); }
      DisjointAppend(a, b);
      AllRowsAppend(a, b);
    }
  }

  lemma {:induction false} TablePlan(c: Config, t: Layout, n: nat)
    requires t.step > 0
    ensures var plan := TableChunks(c, t, n);
            && Disjoint(plan) && |AllRows(plan)| == TableCount(c, t, n)
            && forall k :: k in AllRows(plan) <==> 1 <= k.0 <= n && 1 <= k.1 <= t.districts && t.lo <= k.2 <= t.hi &&
                                                   1 <= k.3 <= LinesOf(c, t, k.0, k.1, k.2)
  {
    hide AllRows, Disjoint, LinesOf, WarehouseCount, WarehouseChunks;
    if n == 0 {
      EmptyPlan();
    } else {
      var a, b := TableChunks(c, t, n - 1), WarehouseChunks(c, t, n, t.districts);
      TablePlan(c, t, n - 1);
      WarehousePlan(c, t, n, t.districts);
      DisjointAppend(a, b);
      AllRowsAppend(a, b);
    }
  }

  // --- the counts the loader expects ---

  lemma {:induction false} PlainRange(c: Config, t: Layout, w: int, d: int, first: int, last: int)
    requires !t.perLine && first <= last + 1
    ensures RangeCount(c, t, w, d, first, last) == last - first + 1
    decreases last - first + 1
  {
    if first <= last { PlainRange(c, t, w, d, first, last - 1); }
  }

  lemma {:induction false} PlainWarehouse(c: Config, t: Layout, w: int, n: nat)
    requires !t.perLine && t.lo <= t.hi + 1
    ensures WarehouseCount(c, t, w, n) == n * (t.hi - t.lo + 1)
  {
    if n > 0 {
      PlainWarehouse(c, t, w, n - 1);
      PlainRange(c, t, w, n, t.lo, t.hi);
    }
  }

  /** Warehouses times districts times numbers. */
  lemma {:induction false} PlainCount(c: Config, t: Layout, n: nat)
    requires !t.perLine && t.lo <= t.hi + 1
    ensures TableCount(c, t, n) == n * (t.districts * (t.hi - t.lo + 1))
  {
    if n > 0 {
      PlainCount(c, t, n - 1);
      PlainWarehouse(c, t, n, t.districts);
      hide TableCount, WarehouseCount;
      var each := t.districts * (t.hi - t.lo + 1);
      assert n * each == (n - 1) * each + each;
    }
  }

  function OrderLineLayout(c: Config, commitRows: nat): Layout {
    Layout(c.warehouses, c.districts, 1, c.orders, if commitRows / 15 > 1 then commitRows / 15 else 1, true)
  }

  /** The three nested loops that add up the expected order lines. */
  method ExpectedOrderLines(c: Config, commitRows: nat) returns (rows: nat)
    ensures rows == TableCount(c, OrderLineLayout(c, commitRows), c.warehouses)
  {
    ghost var t := OrderLineLayout(c, commitRows);
    rows := 0;
    for w := 0 to c.warehouses
      invariant rows == TableCount(c, t, w)
    {
      ghost var before := rows;
      for d := 0 to c.districts
        invariant rows == before + WarehouseCount(c, t, w + 1, d)
      {
        ghost var base := rows;
        for o := 0 to c.orders
          invariant rows == base + RangeCount(c, t, w + 1, d + 1, 1, o)
        {
          rows := rows + LoadedLineCount(c, w + 1, d + 1, o + 1);
        }
      }
    }
  }

  // --- the parallel tasks: ranges by task number ---

  /** Task `i` of the parallel load gets the i-th range of the loop. */
  lemma {:induction false} TaskRange(c: Config, t: Layout, w: int, d: int, first: int, i: nat)
    requires t.step > 0 && i < |ChunksFrom(c, t, w, d, first)|
    ensures first + i * t.step <= t.hi
    ensures ChunksFrom(c, t, w, d, first)[i] ==
            Chunk(c, t, w, d, first + i * t.step, Smaller(t.hi, first + i * t.step + t.step - 1))
    decreases i
  {
    hide Chunk;
    if i > 0 {
      TaskRange(c, t, w, d, first + t.step, i - 1);
      assert (i - 1) * t.step + t.step == i * t.step;
    }
  }

  /** The rounded-up quotient is the number of ranges. */
  lemma {:induction false} TaskCount(c: Config, t: Layout, w: int, d: int, first: int)
    requires t.step > 0 && first <= t.hi + 1
    ensures |ChunksFrom(c, t, w, d, first)| == (t.hi - first + t.step) / t.step
    decreases t.hi - first + 1
  {
    hide Chunk;
    var m, x := t.step, t.hi - first;
    if first + m <= t.hi + 1 {
      TaskCount(c, t, w, d, first + m);
      OneMore(x, m);
    } else if x < 0 {
      DivUnique(x + m, 0, m, x + m);
    } else {
      DivUnique(x + m, 1, m, x);
      assert ChunksFrom(c, t, w, d, first + m) == [];
    }
  }

  lemma OneMore(x: nat, m: nat)
    requires m > 0
    ensures (x + m) / m == x / m + 1
  {
    assert x == m * (x / m) + x % m;
    assert m * (x / m + 1) == m * (x / m) + m;
    DivUnique(x + m, x / m + 1, m, x % m);
  }

  // --- districts by running index ---

  /** Row `i` of the district table. */
  function DistrictRow(districts: nat, i: nat): Key
    requires districts > 0
  {
    (i / districts + 1, i % districts + 1, 1, 1)
  }

  function DistrictRows(warehouses: nat, districts: nat): (rows: seq<Key>)
    requires districts > 0
    ensures |rows| == warehouses * districts && forall i :: 0 <= i < |rows| ==> rows[i] == DistrictRow(districts, i)
  {
    seq(warehouses * districts, i requires 0 <= i => DistrictRow(districts, i))
  }

  lemma IndexOf(districts: nat, w: int, d: int, i: nat)
    requires 1 <= w && 1 <= d <= districts
    ensures i == (w - 1) * districts + d - 1 <==> w == i / districts + 1 && d == i % districts + 1
  {
    assert i == districts * (i / districts) + i % districts;
    if i == (w - 1) * districts + d - 1 {
      DivUnique(i, w - 1, districts, d - 1);
    }
  }

  lemma IndexRange(warehouses: nat, districts: nat, w: int, d: int)
    requires 1 <= d <= districts
    ensures 0 <= (w - 1) * districts + d - 1 < warehouses * districts <==> 1 <= w <= warehouses
  {
    if w >= 1 {
      ProductNonNegative(w - 1, districts);
    } else {
      TimesAtLeast(1 - w, districts);
      assert (w - 1) * districts == -((1 - w) * districts);
    }
    if w <= warehouses {
      ProductNonNegative(warehouses - w, districts);
      assert (warehouses - w) * districts == warehouses * districts - (w - 1) * districts - districts;
    } else {
      ProductNonNegative(w - 1 - warehouses, districts);
      assert (w - 1 - warehouses) * districts == (w - 1) * districts - warehouses * districts;
    }
  }

  lemma RowIndex(districts: nat, i: nat)
    requires districts > 0
    ensures var k := DistrictRow(districts, i);
            1 <= k.0 && 1 <= k.1 <= districts && k.2 == 1 && k.3 == 1 && i == (k.0 - 1) * districts + k.1 - 1
  {
    IndexOf(districts, i / districts + 1, i % districts + 1, i);
  }

  lemma RowAtIndex(districts: nat, w: int, d: int) returns (i: nat)
    requires 1 <= w && 1 <= d <= districts
    ensures i == (w - 1) * districts + d - 1 && DistrictRow(districts, i) == (w, d, 1, 1)
  {
    ProductNonNegative(w - 1, districts);
    i := (w - 1) * districts + d - 1;
    IndexOf(districts, w, d, i);
  }

  /** Dividing the running index gives every district of every warehouse once. */
  lemma DistrictRowsAre(warehouses: nat, districts: nat)
    requires districts > 0
    ensures Distinct(DistrictRows(warehouses, districts))
    ensures forall k :: k in RowSet(DistrictRows(warehouses, districts)) <==>
                        1 <= k.0 <= warehouses && 1 <= k.1 <= districts && k.2 == 1 && k.3 == 1
  {
    hide DistrictRow, DistrictRows, RowSet;
    var rows := DistrictRows(warehouses, districts);
    forall i, j | 0 <= i < j < |rows| ensures rows[i] != rows[j] {
      RowIndex(districts, i);
      RowIndex(districts, j);
    }
    forall k: Key { DistrictRowAt(warehouses, districts, k); }
  }

  lemma DistrictRowAt(warehouses: nat, districts: nat, k: Key)
    requires districts > 0
    ensures k in RowSet(DistrictRows(warehouses, districts)) <==>
            1 <= k.0 <= warehouses && 1 <= k.1 <= districts && k.2 == 1 && k.3 == 1
  {
    hide DistrictRow, DistrictRows;
    var rows := DistrictRows(warehouses, districts);
    if k in RowSet(rows) {
      var i :| 0 <= i < |rows| && rows[i] == k;
      RowIndex(districts, i);
      IndexRange(warehouses, districts, k.0, k.1);
    }
    if 1 <= k.0 <= warehouses && 1 <= k.1 <= districts && k.2 == 1 && k.3 == 1 {
      var i := RowAtIndex(districts, k.0, k.1);
      IndexRange(warehouses, districts, k.0, k.1);
      assert rows[i] == k;
    }
  }

  // --- history rows by running number ---

  /** Position `b` of `1..m` in group `a`, counted from zero over all groups. */
  function Index(m: int, a: int, b: int): int {
    (a - 1) * m + b - 1
  }

  lemma IndexIs(m: nat, a: int, b: int, i: int)
    requires 1 <= a && 1 <= b <= m
    ensures Index(m, a, b) >= 0
    ensures 0 <= i ==> (i == Index(m, a, b) <==> a == i / m + 1 && b == i % m + 1)
  {
    ProductNonNegative(a - 1, m);
    if 0 <= i { IndexOf(m, a, b, i); }
  }

  /** H_ID of the history row the loader writes for a customer. */
  function HistoryId(c: Config, w: int, d: int, n: int): int {
    Index(c.customers, Index(c.districts, w, d) + 1, n) + 1
  }

  /** A running number belongs to exactly one customer, and which. */
  lemma HistoryIdIs(c: Config, w: int, d: int, n: int, h: int)
    requires 1 <= w && 1 <= d <= c.districts && 1 <= n <= c.customers && 1 <= h
    ensures h == HistoryId(c, w, d, n) <==>
            var i := (h - 1) / c.customers;
            w == i / c.districts + 1 && d == i % c.districts + 1 && n == (h - 1) % c.customers + 1
  {
    hide Index;
    var i := (h - 1) / c.customers;
    IndexIs(c.districts, w, d, i);
    IndexIs(c.customers, Index(c.districts, w, d) + 1, n, h - 1);
    QuotientNonNegative(h - 1, c.customers);
  }

  lemma QuotientNonNegative(x: nat, m: nat)
    requires m > 0
    ensures x / m >= 0
  {
  }

  /** The running numbers of the loaded customers are 1 to their number, each once. */
  lemma HistoryIds(c: Config, w: int, d: int, n: int)
    requires 1 <= d <= c.districts && 1 <= n <= c.customers
    ensures 1 <= HistoryId(c, w, d, n) <= c.warehouses * c.districts * c.customers <==> 1 <= w <= c.warehouses
  {
    IndexRange(c.warehouses, c.districts, w, d);
    IndexRange(c.warehouses * c.districts, c.customers, Index(c.districts, w, d) + 1, n);
  }

  /** Every number up to the total is a customer's. */
  lemma HistoryIdTaken(c: Config, h: int) returns (w: int, d: int, n: int)
    requires 1 <= h <= c.warehouses * c.districts * c.customers && c.districts > 0 && c.customers > 0
    ensures 1 <= w <= c.warehouses && 1 <= d <= c.districts && 1 <= n <= c.customers && h == HistoryId(c, w, d, n)
  {
    hide HistoryId;
    var i := (h - 1) / c.customers;
    QuotientNonNegative(h - 1, c.customers);
    QuotientNonNegative(i, c.districts);
    w, d, n := i / c.districts + 1, i % c.districts + 1, (h - 1) % c.customers + 1;
    HistoryIdIs(c, w, d, n, h);
    HistoryIds(c, w, d, n);
  }

  // --- the number domain ---

  const SEEDS := 1000
  const DOMAIN := 1000000

  /** The seed pairs a number chunk selects. */
  ghost function Pairs(first: int, last: int): set<(int, int)> {
    set a, b | 0 <= a < SEEDS && 0 <= b < SEEDS && first <= a * SEEDS + b + 1 <= last :: (a, b)
  }

  ghost function Numbers(first: int, last: int): set<int> {
    set p | p in Pairs(first, last) :: p.0 * SEEDS + p.1 + 1
  }

  lemma PairOf(n: int, a: int, b: int)
    requires 0 <= b < SEEDS
    ensures a * SEEDS + b + 1 == n <==> a == (n - 1) / SEEDS && b == (n - 1) % SEEDS
  {
  }

  lemma PairsGrow(first: int, last: int)
    requires 1 <= first <= last
    ensures Pairs(first, last) ==
            Pairs(first, last - 1) + if last <= DOMAIN then {((last - 1) / SEEDS, (last - 1) % SEEDS)} else {}
  {
    forall a, b ensures (a, b) in Pairs(first, last) <==>
                        (a, b) in Pairs(first, last - 1) ||
                        (last <= DOMAIN && a == (last - 1) / SEEDS && b == (last - 1) % SEEDS)
    {
      if 0 <= b < SEEDS { PairOf(last, a, b); }
    }
  }

  /** No number comes from two pairs: a chunk inserts one row per number up to a million. */
  lemma {:induction false} PairsSize(first: int, last: int)
    requires 1 <= first <= last + 1
    ensures |Pairs(first, last)| == if first > DOMAIN then 0 else Smaller(last, DOMAIN) - first + 1
    decreases last - first + 1
  {
    if first > last {
      assert Pairs(first, last) == {};
    } else {
      PairsSize(first, last - 1);
      PairsGrow(first, last);
      var p := ((last - 1) / SEEDS, (last - 1) % SEEDS);
      assert p !in Pairs(first, last - 1) by {
        if last <= DOMAIN { PairOf(last, p.0, p.1); }
      }
    }
  }

  lemma NumbersAre(first: int, last: int)
    requires 1 <= first
    ensures Numbers(first, last) == Interval(first, Smaller(last, DOMAIN) + 1)
  {
    forall n ensures n in Numbers(first, last) <==> first <= n <= Smaller(last, DOMAIN) {
      var a, b := (n - 1) / SEEDS, (n - 1) % SEEDS;
      PairOf(n, a, b);
      if first <= n <= Smaller(last, DOMAIN) { assert (a, b) in Pairs(first, last); }
    }
  }

  /** Whether the affected-row test of every number chunk passes. */
  ghost predicate AllChunksPass(n: nat, step: nat)
    requires step > 0
  {
    forall i :: 0 <= i < (n + step - 1) / step ==> ChunkPasses(n, step, i)
  }

  ghost predicate ChunkPasses(n: nat, step: nat, i: int) {
    var first := i * step + 1;
    var last := Smaller(n, first + step - 1);
    |Pairs(first, last)| == last - first + 1
  }

  lemma ChunkPassesIff(n: nat, step: nat, i: nat)
    requires step > 0 && i * step + 1 <= n
    ensures ChunkPasses(n, step, i) <==> Smaller(n, i * step + step) <= DOMAIN
  {
    PairsSize(i * step + 1, Smaller(n, i * step + step));
  }

  /** The number domain can be loaded exactly when it has at most a million numbers. */
  lemma DomainLimit(n: nat, step: nat)
    requires step > 0
    ensures AllChunksPass(n, step) <==> n <= DOMAIN
  {
    var count := (n + step - 1) / step;
    forall i | 0 <= i < count ensures i * step + 1 <= n { TaskBelow(n, step, i); }
    if n <= DOMAIN {
      forall i | 0 <= i < count ensures ChunkPasses(n, step, i) { ChunkPassesIff(n, step, i); }
    } else {
      LastTask(n, step);
      ChunkPassesIff(n, step, count - 1);
    }
  }

  /** One number too many: the last chunk inserts a row less than it has to. */
  lemma OneTooMany()
    ensures !AllChunksPass(DOMAIN + 1, 1000)
  {
    DomainLimit(DOMAIN + 1, 1000);
  }

  lemma TaskBelow(n: nat, step: nat, i: nat)
    requires step > 0 && i < (n + step - 1) / step
    ensures i * step + 1 <= n
  {
    var x := n + step - 1;
    assert x == step * (x / step) + x % step;
    var e := x / step - 1 - i;
    assert step * (x / step) == i * step + step + e * step;
    ProductNonNegative(e, step);
  }

  lemma LastTask(n: nat, step: nat)
    requires step > 0 && n > 0
    ensures var count := (n + step - 1) / step; count > 0 && (count - 1) * step + step >= n
  {
    var x := n + step - 1;
    assert x == step * (x / step) + x % step;
    QuotientAtLeast(x, step, 1);
    assert (x / step - 1) * step + step == step * (x / step);
  }

  // --- the loaded tables ---

  function CustomerLayout(c: Config, m: nat): Layout { Layout(c.warehouses, c.districts, 1, c.customers, m, false) }
  function OrderLayout(c: Config, m: nat): Layout { Layout(c.warehouses, c.districts, 1, c.orders, m, false) }
  function QueueLayout(c: Config): Layout {
    Layout(c.warehouses, c.districts, FirstCursor(c), c.orders, c.newOrders, false)
  }

  function StockLayout(c: Config, m: nat): Layout { Layout(c.warehouses, 1, 1, c.items, m, false) }

  ghost function RowsOf(c: Config, t: Layout): Rows
    requires t.step > 0
  {
    AllRows(TableChunks(c, t, t.warehouses))
  }

  lemma InTable(c: Config, t: Layout, k: Key)
    requires t.step > 0
    ensures k in RowsOf(c, t) <==> RowOf(c, t, k)
  {
    hide LinesOf, AllRows, TableChunks;
    TablePlan(c, t, t.warehouses);
  }

  lemma CustomerKey(c: Config, m: nat, k: Key)
    requires ValidConfig(c) && m > 0
    ensures k in RowsOf(c, CustomerLayout(c, m)) <==> (k.0, k.1, k.2) in Load(c).customer && k.3 == 1
  {
    InTable(c, CustomerLayout(c, m), k);
    hide RowsOf;
  }

  lemma OrderKeys(c: Config, m: nat, k: Key)
    requires ValidConfig(c) && m > 0
    ensures k in RowsOf(c, OrderLayout(c, m)) <==> (k.0, k.1, k.2) in Load(c).orders && k.3 == 1
    ensures k in RowsOf(c, QueueLayout(c)) <==> (k.0, k.1, k.2) in Load(c).newOrder && k.3 == 1
  {
    InTable(c, OrderLayout(c, m), k);
    InTable(c, QueueLayout(c), k);
    hide RowsOf;
  }

  lemma StockKey(c: Config, m: nat, k: Key)
    requires ValidConfig(c) && m > 0
    ensures k in RowsOf(c, StockLayout(c, m)) <==> (k.0, k.2) in Load(c).stock && k.1 == 1 && k.3 == 1
  {
    InTable(c, StockLayout(c, m), k);
    hide RowsOf;
  }

  lemma LineKeys(c: Config, m: nat, k: Key)
    requires ValidConfig(c) && m > 0
    ensures k in RowsOf(c, OrderLineLayout(c, m)) <==> k in Load(c).lines
  {
    InTable(c, OrderLineLayout(c, m), k);
    hide RowsOf;
    assert k == (k.0, k.1, k.2, k.3);
  }

  /** The chunks of each table make up the keys of the loaded state, and no others. */
  lemma ChunksAreLoaded(c: Config, m: nat)
    requires ValidConfig(c) && m > 0
    ensures forall k :: k in RowsOf(c, CustomerLayout(c, m)) <==> (k.0, k.1, k.2) in Load(c).customer && k.3 == 1
    ensures forall k :: k in RowsOf(c, OrderLayout(c, m)) <==> (k.0, k.1, k.2) in Load(c).orders && k.3 == 1
    ensures forall k :: k in RowsOf(c, QueueLayout(c)) <==> (k.0, k.1, k.2) in Load(c).newOrder && k.3 == 1
    ensures forall k :: k in RowsOf(c, StockLayout(c, m)) <==> (k.0, k.2) in Load(c).stock && k.1 == 1 && k.3 == 1
    ensures forall k :: k in RowsOf(c, OrderLineLayout(c, m)) <==> k in Load(c).lines
  {
    hide RowsOf, Load;
    forall k: Key { CustomerKey(c, m, k); }
    forall k: Key { OrderKeys(c, m, k); }
    forall k: Key { StockKey(c, m, k); }
    forall k: Key { LineKeys(c, m, k); }
  }

  function ItemLayout(c: Config, m: nat): Layout { Layout(1, 1, 1, c.items, m, false) }

  function WarehouseRows(n: nat): (rows: seq<Key>)
    ensures |rows| == n && forall i :: 0 <= i < n ==> rows[i] == (i + 1, 1, 1, 1)
  {
    seq(n, i => (i + 1, 1, 1, 1))
  }

  function AllDistrictRows(c: Config): seq<Key> {
    if c.districts == 0 then [] else DistrictRows(c.warehouses, c.districts)
  }

  lemma RowTables(c: Config)
    requires ValidConfig(c)
    ensures forall k :: k in RowSet(WarehouseRows(c.warehouses)) <==>
                        k.0 in Load(c).warehouse && k.1 == k.2 == k.3 == 1
    ensures forall k :: k in RowSet(AllDistrictRows(c)) <==> (k.0, k.1) in Load(c).district && k.2 == k.3 == 1
  {
    forall k: Key ensures k in RowSet(WarehouseRows(c.warehouses)) <==>
                          1 <= k.0 <= c.warehouses && k.1 == k.2 == k.3 == 1
    {
      if 1 <= k.0 <= c.warehouses && k.1 == k.2 == k.3 == 1 { assert WarehouseRows(c.warehouses)[k.0 - 1] == k; }
    }
    if c.districts > 0 { DistrictRowsAre(c.warehouses, c.districts); }
    hide RowSet, DistrictRows;
  }

  /** The nine tables in the order they are loaded. */
  ghost function Plans(c: Config, m: nat): seq<seq<Rows>>
    requires ValidConfig(c) && m > 0
  {
    [RowPlan(WarehouseRows(c.warehouses)), RowPlan(AllDistrictRows(c)),
     TableChunks(c, ItemLayout(c, m), 1),
     TableChunks(c, CustomerLayout(c, m), c.warehouses), TableChunks(c, CustomerLayout(c, m), c.warehouses),
     TableChunks(c, OrderLayout(c, m), c.warehouses), TableChunks(c, QueueLayout(c), c.warehouses),
     TableChunks(c, StockLayout(c, m), c.warehouses), TableChunks(c, OrderLineLayout(c, m), c.warehouses)]
  }

  /**
   The tables hold exactly the rows of the loaded state, every column a table does not have being one;
   HISTORY has one row for each customer.
   */
  ghost predicate HoldsLoaded(c: Config, db: seq<Rows>)
    requires ValidConfig(c)
  {
    && |db| == 9
    && (forall k :: k in db[0] <==> k.0 in Load(c).warehouse && k.1 == k.2 == k.3 == 1)
    && (forall k :: k in db[1] <==> (k.0, k.1) in Load(c).district && k.2 == k.3 == 1)
    && (forall k :: k in db[2] <==> k.0 == k.1 == k.3 == 1 && 1 <= k.2 <= c.items)
    && (forall k :: k in db[3] <==> (k.0, k.1, k.2) in Load(c).customer && k.3 == 1)
    && (forall k :: k in db[4] <==> (k.0, k.1, k.2) in Load(c).customer && k.3 == 1)
    && (forall k :: k in db[5] <==> (k.0, k.1, k.2) in Load(c).orders && k.3 == 1)
    && (forall k :: k in db[6] <==> (k.0, k.1, k.2) in Load(c).newOrder && k.3 == 1)
    && (forall k :: k in db[7] <==> (k.0, k.2) in Load(c).stock && k.1 == k.3 == 1)
    && (forall k :: k in db[8] <==> k in Load(c).lines)
  }

  /** After any interrupted runs and one that finished, the tables hold the rows of the loaded state. */
  lemma ResumedLoad(c: Config, m: nat, states: seq<seq<Rows>>, finished: seq<bool>)
    requires ValidConfig(c) && m > 0 && finished != [] && finished[|finished| - 1]
    requires RunHistory(states, finished, Plans(c, m)) && states[0] == [{}, {}, {}, {}, {}, {}, {}, {}, {}]
    ensures HoldsLoaded(c, states[|finished|])
  {
    hide RunAttempt, HoldsLoaded, AllRows, TableChunks;
    ResumeCompletes(states, finished, Plans(c, m), |finished|);
    CompleteIsLoaded(c, m, states[|finished|]);
  }

  lemma CompleteIsLoaded(c: Config, m: nat, db: seq<Rows>)
    requires ValidConfig(c) && m > 0 && Complete(db, Plans(c, m))
    ensures HoldsLoaded(c, db)
  {
    hide TableChunks, AllRows, Load, RowPlan, AllDistrictRows, WarehouseRows;
    RowPlanIs(WarehouseRows(c.warehouses));
    RowPlanIs(AllDistrictRows(c));
    RowTables(c);
    ChunksAreLoaded(c, m);
    forall k: Key ensures k in RowsOf(c, ItemLayout(c, m)) <==> k.0 == k.1 == k.3 == 1 && 1 <= k.2 <= c.items {
      InTable(c, ItemLayout(c, m), k);
    }
    assert db[0] == AllRows(RowPlan(WarehouseRows(c.warehouses))) && db[1] == AllRows(RowPlan(AllDistrictRows(c)));
    assert db[2] == RowsOf(c, ItemLayout(c, m)) && db[3] == RowsOf(c, CustomerLayout(c, m)) == db[4];
    assert db[5] == RowsOf(c, OrderLayout(c, m)) && db[6] == RowsOf(c, QueueLayout(c));
    assert db[7] == RowsOf(c, StockLayout(c, m)) && db[8] == RowsOf(c, OrderLineLayout(c, m));
  }

  // --- a run of the loader ---

  /** The seven tables that are loaded in chunks, in the order of `Plans`. */
  function ChunkedLayouts(c: Config, m: nat): (ls: seq<Layout>)
    requires ValidConfig(c) && m > 0
    ensures |ls| == 7 && forall i :: 0 <= i < 7 ==> ls[i].step > 0
  {
    [ItemLayout(c, m), CustomerLayout(c, m), CustomerLayout(c, m), OrderLayout(c, m), QueueLayout(c),
     StockLayout(c, m), OrderLineLayout(c, m)]
  }

  /** The row counts the loader computes before it looks at the tables. */
  method ExpectedRows(c: Config, m: nat) returns (expected: seq<nat>)
    requires ValidConfig(c) && m > 0
    ensures |expected| == 7
    ensures forall i :: 0 <= i < 7 ==>
              var t := ChunkedLayouts(c, m)[i]; expected[i] == |AllRows(TableChunks(c, t, t.warehouses))|
  {
    hide AllRows, TableChunks, TableCount;
    var customers, orders := c.warehouses * (c.districts * c.customers), c.warehouses * (c.districts * c.orders);
    var queued, stock := c.warehouses * (c.districts * c.newOrders), c.warehouses * c.items;
    var lines := ExpectedOrderLines(c, m);
    ghost var ls := ChunkedLayouts(c, m);
    forall i | 0 <= i < 7
      ensures |AllRows(TableChunks(c, ls[i], ls[i].warehouses))| == TableCount(c, ls[i], ls[i].warehouses)
    {
      TablePlan(c, ls[i], ls[i].warehouses);
    }
    PlainCount(c, ItemLayout(c, m), 1);
    PlainCount(c, CustomerLayout(c, m), c.warehouses);
    PlainCount(c, OrderLayout(c, m), c.warehouses);
    PlainCount(c, QueueLayout(c), c.warehouses);
    PlainCount(c, StockLayout(c, m), c.warehouses);
    expected := [c.items, customers, customers, orders, queued, stock, lines];
  }

  function JobFor(c: Config, m: nat, expected: seq<nat>, schedules: seq<seq<int>>, i: nat): Job
    requires ValidConfig(c) && m > 0 && |expected| == |schedules| == 7 && i < 7
  {
    var t := ChunkedLayouts(c, m)[i];
    ByChunks(TableChunks(c, t, t.warehouses), expected[i], schedules[i])
  }

  function JobsFor(c: Config, m: nat, expected: seq<nat>, schedules: seq<seq<int>>): (jobs: seq<Job>)
    requires ValidConfig(c) && m > 0 && |expected| == |schedules| == 7
    ensures |jobs| == 9
  {
    [ByRows(WarehouseRows(c.warehouses)), ByRows(AllDistrictRows(c))]
    + seq(7, i requires 0 <= i < 7 => JobFor(c, m, expected, schedules, i))
  }

  ghost predicate ValidSchedules(c: Config, m: nat, schedules: seq<seq<int>>)
    requires ValidConfig(c) && m > 0
  {
    |schedules| == 7 &&
    forall i :: 0 <= i < 7 ==>
      var t := ChunkedLayouts(c, m)[i]; ValidSchedule(schedules[i], |TableChunks(c, t, t.warehouses)|)
  }

  lemma JobsAre(c: Config, m: nat, expected: seq<nat>, schedules: seq<seq<int>>)
    requires ValidConfig(c) && m > 0 && |expected| == 7 && ValidSchedules(c, m, schedules)
    requires forall i :: 0 <= i < 7 ==>
               var t := ChunkedLayouts(c, m)[i]; expected[i] == |AllRows(TableChunks(c, t, t.warehouses))|
    ensures var jobs := JobsFor(c, m, expected, schedules);
            (forall i :: 0 <= i < 9 ==> ValidJob(jobs[i])) && PlansOf(jobs) == Plans(c, m)
  {
    hide AllRows, TableChunks, Disjoint, Distinct, ValidSchedule, RowPlan, WarehouseRows, AllDistrictRows;
    var jobs, ls := JobsFor(c, m, expected, schedules), ChunkedLayouts(c, m);
    RowsDistinct(c);
    forall i | 0 <= i < 7
      ensures ValidJob(jobs[i + 2]) && PlanOf(jobs[i + 2]) == TableChunks(c, ls[i], ls[i].warehouses)
    {
      assert jobs[i + 2] == JobFor(c, m, expected, schedules, i);
      TablePlan(c, ls[i], ls[i].warehouses);
    }
    forall i | 0 <= i < 9 ensures ValidJob(jobs[i]) {
      if i >= 2 { assert ValidJob(jobs[(i - 2) + 2]); }
    }
    var plans := PlansOf(jobs);
    assert plans[2] == TableChunks(c, ls[0], 1) by { assert jobs[2] == jobs[0 + 2]; }
    assert plans[3] == TableChunks(c, ls[1], c.warehouses) by { assert jobs[3] == jobs[1 + 2]; }
    assert plans[4] == TableChunks(c, ls[2], c.warehouses) by { assert jobs[4] == jobs[2 + 2]; }
    assert plans[5] == TableChunks(c, ls[3], c.warehouses) by { assert jobs[5] == jobs[3 + 2]; }
    assert plans[6] == TableChunks(c, ls[4], c.warehouses) by { assert jobs[6] == jobs[4 + 2]; }
    assert plans[7] == TableChunks(c, ls[5], c.warehouses) by { assert jobs[7] == jobs[5 + 2]; }
    assert plans[8] == TableChunks(c, ls[6], c.warehouses) by { assert jobs[8] == jobs[6 + 2]; }
  }

  lemma RowsDistinct(c: Config)
    ensures Distinct(WarehouseRows(c.warehouses)) && Distinct(AllDistrictRows(c))
  {
    if c.districts > 0 { DistrictRowsAre(c.warehouses, c.districts); }
  }

  /**
   A run of the loader over the nine tables is a run in the sense of `RunAttempt`, whatever the workers
   commit; without interruptions and with every chunk committed, it finishes.
   */
  method LoadAll(loader: Loader, c: Config, m: nat, batchRows: nat, db: seq<Rows>, schedules: seq<seq<int>>)
    returns (after: seq<Rows>, done: bool)
    requires ValidConfig(c) && m > 0 && batchRows > 0 && |db| == 9 && ValidSchedules(c, m, schedules)
    modifies loader
    ensures |after| == 9 && RunAttempt(db, Plans(c, m), after, done)
    ensures loader.failAfterBatches <= 0 && EveryChunk(c, m, schedules) ==> done
  {
    hide RunAttempt, TableChunks, AllRows, ValidJob, Plans, PlansOf, ValidSchedules;
    assert |schedules| == 7 by { SevenSchedules(c, m, schedules); }
    var expected := ExpectedRows(c, m);
    var jobs := JobsFor(c, m, expected, schedules);
    JobsAre(c, m, expected, schedules);
    after, done := loader.LoadTables(db, jobs, batchRows);
    if EveryChunk(c, m, schedules) {
      forall i | 0 <= i < 9 ensures Thorough(jobs[i]) {
        if i >= 2 { assert jobs[i] == JobFor(c, m, expected, schedules, i - 2); }
      }
    }
  }

  lemma SevenSchedules(c: Config, m: nat, schedules: seq<seq<int>>)
    requires ValidConfig(c) && m > 0 && ValidSchedules(c, m, schedules)
    ensures |schedules| == 7
  {
  }

  ghost predicate EveryChunk(c: Config, m: nat, schedules: seq<seq<int>>)
    requires ValidConfig(c) && m > 0
  {
    |schedules| == 7 &&
    forall i :: 0 <= i < 7 ==>
      var t := ChunkedLayouts(c, m)[i];
      forall k :: 0 <= k < |TableChunks(c, t, t.warehouses)| ==> k in schedules[i]
  }
}
