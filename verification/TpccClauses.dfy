/**
 The invariant in the words of the standard: the consistency conditions of clauses 3.3.2.2 to 3.3.2.7
 of TPC-C revision 5.11, with the row counts they speak of.
 */
module TpccClauses {
  import opened TpccFormulas
  import opened TpccState
  import opened TpccInvariant
  import opened TpccRuns
  import opened TpccQueues

  /** The numbers lo..hi-1. */
  function Interval(lo: int, hi: int): (r: set<int>)
    ensures forall x :: x in r <==> lo <= x < hi
    decreases if lo < hi then hi - lo else 0
  {
    if lo >= hi then {} else Interval(lo, hi - 1) + {hi - 1}
  }

  lemma {:induction false} IntervalSize(lo: int, hi: int)
    requires lo <= hi
    ensures |Interval(lo, hi)| == hi - lo
    decreases hi - lo
  {
    if lo < hi { IntervalSize(lo, hi - 1); }
  }

  /** Order ids of a district in ORDER and in NEW-ORDER, and line numbers of an order. */
  ghost function OrderIds(s: State, w: int, d: int): set<int> {
    set k | k in s.orders && k.0 == w && k.1 == d :: k.2
  }

  ghost function QueuedIds(s: State, w: int, d: int): set<int> {
    set k | k in s.newOrder && k.0 == w && k.1 == d :: k.2
  }

  ghost function LineNumbers(s: State, w: int, d: int, o: int): set<int> {
    set k | k in s.lines && k.0 == w && k.1 == d && k.2 == o :: k.3
  }

  /** The rows of ORDER-LINE with order ids below `n`, and the sum of O_OL_CNT over those orders. */
  ghost function LinesBelow(s: State, w: int, d: int, n: int): set<(int, int)> {
    set k | k in s.lines && k.0 == w && k.1 == d && k.2 < n :: (k.2, k.3)
  }

  function OlCntSum(s: State, w: int, d: int, n: int): int
    decreases if n > 1 then n else 0
  {
    if n <= 1 then 0
    else OlCntSum(s, w, d, n - 1) + if (w, d, n - 1) in s.orders then s.orders[(w, d, n - 1)].olCnt else 0
  }

  lemma OrderIdsAre(c: Config, s: State, w: int, d: int)
    requires ValidConfig(c) && DistrictInv(c, s, w, d)
    ensures OrderIds(s, w, d) == Interval(1, s.district[(w, d)].nextOid)
  {
    forall o ensures o in OrderIds(s, w, d) <==> 1 <= o < s.district[(w, d)].nextOid {
      assert (w, d, o) in s.orders <==> o in OrderIds(s, w, d);
    }
  }

  lemma LineNumbersAre(c: Config, s: State, w: int, d: int, o: int)
    requires ValidConfig(c) && OrderInv(c, s, w, d, o)
    ensures LineNumbers(s, w, d, o) == Interval(1, s.orders[(w, d, o)].olCnt + 1)
  {
    forall k ensures k in LineNumbers(s, w, d, o) <==> 1 <= k <= s.orders[(w, d, o)].olCnt {
      assert (w, d, o, k) in s.lines <==> k in LineNumbers(s, w, d, o);
    }
  }

  ghost function Paired(o: int, ks: set<int>): set<(int, int)> {
    set k | k in ks :: (o, k)
  }

  lemma {:induction false} PairedSize(o: int, n: nat)
    ensures |Paired(o, Interval(1, n + 1))| == n
  {
    if n == 0 {
      assert Paired(o, Interval(1, 1)) == {};
    } else {
      PairedSize(o, n - 1);
      assert Interval(1, n + 1) == Interval(1, n) + {n};
      assert Paired(o, Interval(1, n + 1)) == Paired(o, Interval(1, n)) + {(o, n)};
    }
  }

  lemma NoLinesBelowFirst(c: Config, s: State, w: int, d: int)
    requires ValidConfig(c) && DistrictInv(c, s, w, d)
    ensures LinesBelow(s, w, d, 1) == {}
  {
    forall o, k ensures (o, k) !in LinesBelow(s, w, d, 1) {
      assert (w, d, o, k) in s.lines ==> 1 <= o;
    }
  }

  lemma LinesSplit(c: Config, s: State, w: int, d: int, o: int)
    requires ValidConfig(c) && OrderInv(c, s, w, d, o)
    ensures LinesBelow(s, w, d, o + 1) ==
            LinesBelow(s, w, d, o) + Paired(o, Interval(1, s.orders[(w, d, o)].olCnt + 1))
  {
    var cnt := s.orders[(w, d, o)].olCnt;
    forall p, k
      ensures (p, k) in LinesBelow(s, w, d, o + 1) <==>
              (p, k) in LinesBelow(s, w, d, o) || (p, k) in Paired(o, Interval(1, cnt + 1))
    {
      assert (w, d, p, k) in s.lines && p < o + 1 <==> (p, k) in LinesBelow(s, w, d, o + 1);
      assert (w, d, p, k) in s.lines && p < o <==> (p, k) in LinesBelow(s, w, d, o);
    }
  }

  lemma LinesGrow(c: Config, s: State, w: int, d: int, o: int)
    requires ValidConfig(c) && DistrictInv(c, s, w, d) && 1 <= o < s.district[(w, d)].nextOid
    ensures |LinesBelow(s, w, d, o + 1)| == |LinesBelow(s, w, d, o)| + s.orders[(w, d, o)].olCnt
  {
    assert OrderInv(c, s, w, d, o);
    hide OrderInv, DistrictInv;
    LinesSplit(c, s, w, d, o);
    PairedSize(o, s.orders[(w, d, o)].olCnt);
    assert LinesBelow(s, w, d, o) !! Paired(o, Interval(1, s.orders[(w, d, o)].olCnt + 1));
  }

  /** The district has as many order lines as its orders say, up to any order id. */
  lemma {:induction false} LineTotal(c: Config, s: State, w: int, d: int, n: int)
    requires ValidConfig(c) && DistrictInv(c, s, w, d) && 1 <= n <= s.district[(w, d)].nextOid
    ensures |LinesBelow(s, w, d, n)| == OlCntSum(s, w, d, n)
    decreases n
  {
    if n == 1 {
      NoLinesBelowFirst(c, s, w, d);
    } else {
      LineTotal(c, s, w, d, n - 1);
      LinesGrow(c, s, w, d, n - 1);
    }
  }

  lemma OrderClauses(c: Config, s: State, w: int, d: int, o: int, k: int)
    requires ValidConfig(c) && OrderInv(c, s, w, d, o)
    ensures s.orders[(w, d, o)].carrier.None? <==> (w, d, o) in s.newOrder
    ensures |LineNumbers(s, w, d, o)| == s.orders[(w, d, o)].olCnt
    ensures (w, d, o, k) in s.lines ==> (s.lines[(w, d, o, k)].delivered.None? <==> s.orders[(w, d, o)].carrier.None?)
  {
    LineNumbersAre(c, s, w, d, o);
    IntervalSize(1, s.orders[(w, d, o)].olCnt + 1);
    hide LineNumbers, Interval;
    if (w, d, o, k) in s.lines { assert LineInv(c, s.lines[(w, d, o, k)], d, o, k, (w, d, o) in s.newOrder); }
  }

  /** Clause 3.3.2.2 for ORDER and clauses 3.3.2.4 to 3.3.2.7, for one district. */
  ghost predicate OrdersConsistent(s: State, w: int, d: int)
    requires (w, d) in s.district
  {
    var n := s.district[(w, d)].nextOid;
    // 3.3.2.2: the order ids are 1..D_NEXT_O_ID - 1
    && OrderIds(s, w, d) == Interval(1, n)
    // 3.3.2.4: O_OL_CNT adds up to the number of order lines
    && |LinesBelow(s, w, d, n)| == OlCntSum(s, w, d, n)
    // 3.3.2.5: no carrier exactly for orders in NEW-ORDER; 3.3.2.6: O_OL_CNT is the number of the order's lines
    && (forall o :: 1 <= o < n ==> OrderConsistent(s, w, d, o))
    // 3.3.2.7: a line has no delivery date exactly when its order has no carrier
    && forall o, k :: 1 <= o < n && (w, d, o, k) in s.lines ==> LineConsistent(s, w, d, o, k)
  }

  ghost predicate OrderConsistent(s: State, w: int, d: int, o: int) {
    && (w, d, o) in s.orders
    && (s.orders[(w, d, o)].carrier.None? <==> (w, d, o) in s.newOrder)
    && |LineNumbers(s, w, d, o)| == s.orders[(w, d, o)].olCnt
  }

  ghost predicate LineConsistent(s: State, w: int, d: int, o: int, k: int) {
    && (w, d, o) in s.orders && (w, d, o, k) in s.lines
    && (s.lines[(w, d, o, k)].delivered.None? <==> s.orders[(w, d, o)].carrier.None?)
  }

  lemma {:induction false} ConsistencyClauses(c: Config, s: State, w: int, d: int)
    requires ValidConfig(c) && DistrictInv(c, s, w, d)
    ensures OrdersConsistent(s, w, d)
  {
    hide LinesBelow, OlCntSum, OrderIds, LineNumbers, Interval, OrderInv;
    OrderIdsAre(c, s, w, d);
    LineTotal(c, s, w, d, s.district[(w, d)].nextOid);
    forall o | 1 <= o < s.district[(w, d)].nextOid ensures OrderConsistent(s, w, d, o) {
      OrderClauses(c, s, w, d, o, 1);
    }
    forall o, k | 1 <= o < s.district[(w, d)].nextOid && (w, d, o, k) in s.lines ensures LineConsistent(s, w, d, o, k) {
      OrderClauses(c, s, w, d, o, k);
    }
  }

  /** The order tables of every district are consistent after every run. */
  lemma RunConsistent(c: Config, steps: seq<Step>, w: int, d: int)
    requires ValidConfig(c) && InRange(c, w, d)
    ensures var s := Run(c, Load(c), steps); (w, d) in s.district && OrdersConsistent(s, w, d)
  {
    hide Run, Load, OrdersConsistent;
    RunTables(c, steps);
    assert DistrictInv(c, Run(c, Load(c), steps), w, d);
    ConsistencyClauses(c, Run(c, Load(c), steps), w, d);
  }

  /** Clauses 3.3.2.2 and 3.3.2.3 for NEW-ORDER, where a district's queue starts at `h`. */
  lemma QueueClauses(c: Config, s: State, w: int, d: int, h: int)
    requires QueueFrom(c, s, w, d, h)
    // 3.3.2.2: the last queued id, if any, is D_NEXT_O_ID - 1
    ensures QueuedIds(s, w, d) != {} ==> s.district[(w, d)].nextOid - 1 in QueuedIds(s, w, d)
    // 3.3.2.3: there are as many queued orders as ids from the first to the last of them
    ensures QueuedIds(s, w, d) == Interval(h, s.district[(w, d)].nextOid)
    ensures |QueuedIds(s, w, d)| == s.district[(w, d)].nextOid - h
  {
    forall o ensures o in QueuedIds(s, w, d) <==> h <= o < s.district[(w, d)].nextOid {
      assert (w, d, o) in s.newOrder <==> o in QueuedIds(s, w, d);
    }
    IntervalSize(h, s.district[(w, d)].nextOid);
  }

  /** Clauses 3.3.2.2 and 3.3.2.3 for NEW-ORDER: in every district the queued ids run up to the next order id. */
  ghost predicate QueuesContiguous(c: Config, s: State) {
    forall w, d :: InRange(c, w, d) ==>
                     (w, d) in s.district && exists h :: QueuedIds(s, w, d) == Interval(h, s.district[(w, d)].nextOid)
  }

  lemma QueuedIdsAre(s: State, w: int, d: int, o: int)
    ensures o in QueuedIds(s, w, d) <==> (w, d, o) in s.newOrder
  {
    if (w, d, o) in s.newOrder { var k := (w, d, o); }
  }

  lemma FromContiguous(c: Config, s: State, w: int, d: int, h: int) returns (g: int)
    requires ValidConfig(c) && DistrictInv(c, s, w, d) && QueuedIds(s, w, d) == Interval(h, s.district[(w, d)].nextOid)
    ensures QueueFrom(c, s, w, d, g)
  {
    var n := s.district[(w, d)].nextOid;
    g := if h < n then h else n;
    forall o ensures (w, d, o) in s.newOrder <==> g <= o < n { QueuedIdsAre(s, w, d, o); }
    if h < n {
      assert (w, d, h) in s.newOrder;
      assert OrderInv(c, s, w, d, h);
    }
  }

  lemma ContiguousIff(c: Config, s: State)
    requires ValidConfig(c) && TablesInv(c, s)
    ensures QueuesContiguous(c, s) <==> QueueInv(c, s)
  {
    hide DistrictInv, QueuedIds, Interval;
    if QueuesContiguous(c, s) {
      forall w, d | InRange(c, w, d) ensures exists g :: QueueFrom(c, s, w, d, g) {
        var h :| QueuedIds(s, w, d) == Interval(h, s.district[(w, d)].nextOid);
        var g := FromContiguous(c, s, w, d, h);
      }
    }
    if QueueInv(c, s) {
      forall w, d | InRange(c, w, d)
        ensures (w, d) in s.district && exists h :: QueuedIds(s, w, d) == Interval(h, s.district[(w, d)].nextOid)
      {
        var h :| QueueFrom(c, s, w, d, h);
        QueueClauses(c, s, w, d, h);
      }
    }
  }

  ghost predicate ContiguousThroughout(c: Config, s: State, steps: seq<Step>) {
    QueuesContiguous(c, Run(c, s, steps)) && (steps != [] ==> ContiguousThroughout(c, s, steps[..|steps| - 1]))
  }

  lemma {:induction false} ThroughoutIff(c: Config, steps: seq<Step>)
    requires ValidConfig(c)
    ensures ContiguousThroughout(c, Load(c), steps) <==> QueuesThroughout(c, Load(c), steps)
  {
    hide QueuesContiguous, QueueInv, TablesInv, Run, Load;
    RunTables(c, steps);
    ContiguousIff(c, Run(c, Load(c), steps));
    if steps != [] { ThroughoutIff(c, steps[..|steps| - 1]); }
  }

  /** Over every run: no queue ever has a gap exactly when no Delivery took an order before an older one. */
  lemma RunQueues(c: Config, steps: seq<Step>)
    requires ValidConfig(c)
    ensures ContiguousThroughout(c, Load(c), steps) <==> NoJumps(c, Load(c), steps)
    ensures SafeRun(c, Load(c), steps) ==> NoJumps(c, Load(c), steps)
  {
    hide ContiguousThroughout, QueuesThroughout, NoJumps, SafeRun, Load;
    ThroughoutIff(c, steps);
    RunContiguous(c, steps);
    if SafeRun(c, Load(c), steps) { SafeNeverJumps(c, steps); }
  }
}
