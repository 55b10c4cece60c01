/**
 What the two read-only transactions are for: Order-Status looks at the customer's last order, and
 Stock-Level at the items of the last twenty orders. Both work from the client's maps and the loader's
 formulas instead of a scan; these lemmas compare them with the tables.
 */
module TpccReads {
  import opened Arithmetic
  import opened TpccFormulas
  import opened TpccState
  import opened TpccInvariant
  import opened TpccRuns
  import opened TpccClient

  // --- Order-Status ---

  /** `o` is the greatest order id the customer has in the tables. */
  ghost predicate LastOrderOf(s: State, w: int, d: int, id: int, o: int) {
    && (w, d, o) in s.orders && s.orders[(w, d, o)].cid == id
    && forall p :: (w, d, p) in s.orders && s.orders[(w, d, p)].cid == id ==> p <= o
  }

  lemma KnownIsLast(c: Config, s: State, w: int, d: int, id: int)
    requires ValidConfig(c) && DistrictInv(c, s, w, d) && LatestKnown(c, s, w, d, id) && (w, d, id) in s.latest
    ensures LastOrderOf(s, w, d, id, s.latest[(w, d, id)])
  {
    var o := s.latest[(w, d, id)];
    forall p | (w, d, p) in s.orders && s.orders[(w, d, p)].cid == id ensures p <= o {
      if c.orders < p { assert RuntimeOrderOf(c, s, w, d, id, p); }
    }
  }

  /** With no order of the customer's taken since loading, the loader's formula gives the last one. */
  lemma LoadedIsLast(c: Config, s: State, w: int, d: int, id: int, o: int)
    requires ValidConfig(c) && DistrictInv(c, s, w, d) && LatestKnown(c, s, w, d, id) && (w, d, id) !in s.latest
    ensures LastOrderOf(s, w, d, id, o) <==> GreatestMatch(c, d, id, c.orders, o)
  {
    forall p ensures (w, d, p) in s.orders && s.orders[(w, d, p)].cid == id <==>
                     1 <= p <= c.orders && Matches(c, d, id, p)
    {
      if (w, d, p) in s.orders {
        assert OrderInv(c, s, w, d, p);
        assert !RuntimeOrderOf(c, s, w, d, id, p);
      }
    }
  }

  // --- Stock-Level ---

  const WINDOW := 20
  const MAX_KEYS := 300

  /** The distinct OL_I_ID values of the order lines of the last twenty orders. */
  ghost function WindowItems(s: State, w: int, d: int): set<int>
    requires (w, d) in s.district
  {
    set k | k in s.lines && k.0 == w && k.1 == d &&
            s.district[(w, d)].nextOid - WINDOW <= k.2 < s.district[(w, d)].nextOid ::
      s.lines[k].item
  }

  /** Line count and items of an order as the client derives them. */
  function DerivedCount(c: Config, s: State, w: int, d: int, o: int): nat {
    if (w, d, o) in s.runtimeItems then |s.runtimeItems[(w, d, o)]| else LoadedLineCount(c, w, d, o)
  }

  function DerivedItem(c: Config, s: State, w: int, d: int, o: int, k: int): int
    requires c.items > 0 && 1 <= k <= DerivedCount(c, s, w, d, o)
  {
    if (w, d, o) in s.runtimeItems then s.runtimeItems[(w, d, o)][k - 1] else LoadedItem(c, d, o, k)
  }

  function DerivedLines(c: Config, s: State, w: int, d: int, o: int, n: nat): (r: set<int>)
    requires c.items > 0 && n <= DerivedCount(c, s, w, d, o)
    ensures |r| <= n
    ensures n > 0 ==> r != {}
  {
    if n == 0 then {}
    else
      var before, item := DerivedLines(c, s, w, d, o, n - 1), DerivedItem(c, s, w, d, o, n);
      assert item in before + {item};
      before + {item}
  }

  function DerivedItems(c: Config, s: State, w: int, d: int, lo: int, hi: int): set<int>
    requires c.items > 0
    decreases if lo < hi then hi - lo else 0
  {
    if hi <= lo then {}
    else DerivedItems(c, s, w, d, lo, hi - 1) + DerivedLines(c, s, w, d, hi - 1, DerivedCount(c, s, w, d, hi - 1))
  }

  lemma {:induction false} DerivedLinesAre(c: Config, s: State, w: int, d: int, o: int, n: nat, i: int)
    requires c.items > 0 && n <= DerivedCount(c, s, w, d, o)
    ensures i in DerivedLines(c, s, w, d, o, n) <==> exists k :: 1 <= k <= n && DerivedItem(c, s, w, d, o, k) == i
  {
    if n > 0 { DerivedLinesAre(c, s, w, d, o, n - 1, i); }
  }

  /** The client knows of an order what it has to: its items if it was taken since loading, nothing otherwise. */
  ghost predicate OrderKnown(c: Config, s: State, w: int, d: int, o: int) {
    && ((w, d, o) in s.runtimeItems <==> c.orders < o)
    && ((w, d, o) in s.runtimeItems ==> RuntimeList(d, s.runtimeItems[(w, d, o)]))
  }

  /** It does so of the last twenty orders. */
  ghost predicate WindowKnown(c: Config, s: State, w: int, d: int) {
    && (w, d) in s.district
    && forall o :: WindowStart(s.district[(w, d)].nextOid) <= o < s.district[(w, d)].nextOid ==>
         OrderKnown(c, s, w, d, o)
  }

  function WindowStart(n: int): int {
    Larger(1, n - WINDOW)
  }

  /** The client's view of one order is the order's rows. */
  lemma DerivedOrder(c: Config, s: State, w: int, d: int, o: int)
    requires ValidConfig(c) && OrderInv(c, s, w, d, o) && OrderKnown(c, s, w, d, o)
    requires (w, d) in s.district && 1 <= o < s.district[(w, d)].nextOid
    ensures DerivedCount(c, s, w, d, o) == s.orders[(w, d, o)].olCnt
    ensures forall k :: (w, d, o, k) in s.lines <==> 1 <= k <= DerivedCount(c, s, w, d, o)
    ensures forall k :: (w, d, o, k) in s.lines ==> s.lines[(w, d, o, k)].item == DerivedItem(c, s, w, d, o, k)
  {
    forall k | (w, d, o, k) in s.lines ensures s.lines[(w, d, o, k)].item == DerivedItem(c, s, w, d, o, k) {
      assert LineInv(c, s.lines[(w, d, o, k)], d, o, k, (w, d, o) in s.newOrder);
    }
  }

  /** An item occurs on a line of one of the orders lo..hi-1. */
  ghost predicate OnLine(s: State, w: int, d: int, lo: int, hi: int, i: int) {
    exists o, k :: lo <= o < hi && (w, d, o, k) in s.lines && s.lines[(w, d, o, k)].item == i
  }

  lemma DerivedOrderItems(c: Config, s: State, w: int, d: int, o: int, i: int)
    requires ValidConfig(c) && OrderInv(c, s, w, d, o) && OrderKnown(c, s, w, d, o)
    requires (w, d) in s.district && 1 <= o < s.district[(w, d)].nextOid
    ensures i in DerivedLines(c, s, w, d, o, DerivedCount(c, s, w, d, o)) <==> OnLine(s, w, d, o, o + 1, i)
  {
    hide OrderInv, OrderKnown, DerivedLines, DerivedItem, DerivedCount;
    DerivedOrder(c, s, w, d, o);
    DerivedLinesAre(c, s, w, d, o, DerivedCount(c, s, w, d, o), i);
    if k :| 1 <= k <= DerivedCount(c, s, w, d, o) && DerivedItem(c, s, w, d, o, k) == i {
      assert (w, d, o, k) in s.lines;
    }
    if OnLine(s, w, d, o, o + 1, i) {
      var p, k :| o <= p < o + 1 && (w, d, p, k) in s.lines && s.lines[(w, d, p, k)].item == i;
      assert DerivedItem(c, s, w, d, o, k) == i;
    }
  }

  lemma {:induction false} DerivedItemsAre(c: Config, s: State, w: int, d: int, lo: int, hi: int, i: int)
    requires ValidConfig(c) && DistrictInv(c, s, w, d) && 1 <= lo && hi <= s.district[(w, d)].nextOid
    requires forall o :: lo <= o < hi ==> OrderKnown(c, s, w, d, o)
    ensures i in DerivedItems(c, s, w, d, lo, hi) <==> OnLine(s, w, d, lo, hi, i)
    decreases if lo < hi then hi - lo else 0
  {
    if lo < hi {
      assert OrderInv(c, s, w, d, hi - 1);
      hide OrderInv, OrderKnown, DistrictInv;
      DerivedItemsAre(c, s, w, d, lo, hi - 1, i);
      DerivedOrderItems(c, s, w, d, hi - 1, i);
      hide DerivedLines;
    }
  }

  lemma {:induction false} DerivedSize(c: Config, s: State, w: int, d: int, lo: int, hi: int)
    requires ValidConfig(c) && DistrictInv(c, s, w, d) && 1 <= lo <= hi <= s.district[(w, d)].nextOid
    requires forall o :: lo <= o < hi ==> OrderKnown(c, s, w, d, o)
    ensures |DerivedItems(c, s, w, d, lo, hi)| <= MAX_LINES * (hi - lo)
    ensures lo < hi ==> DerivedItems(c, s, w, d, lo, hi) != {}
    decreases hi - lo
  {
    if lo < hi {
      DerivedSize(c, s, w, d, lo, hi - 1);
      assert OrderInv(c, s, w, d, hi - 1);
      DerivedOrder(c, s, w, d, hi - 1);
    }
  }

  /** With the window known, the derived key set is exactly the scan it replaces, and never empty or too large. */
  lemma WindowDerived(c: Config, s: State, w: int, d: int)
    requires ValidConfig(c) && DistrictInv(c, s, w, d) && WindowKnown(c, s, w, d)
    ensures var n := s.district[(w, d)].nextOid;
            DerivedItems(c, s, w, d, WindowStart(n), n) == WindowItems(s, w, d)
    ensures 1 <= |WindowItems(s, w, d)| <= MAX_KEYS
    ensures forall i :: i in WindowItems(s, w, d) ==> 1 <= i <= c.items
  {
    hide OrderKnown;
    var n := s.district[(w, d)].nextOid;
    var lo := WindowStart(n);
    forall i
      ensures i in DerivedItems(c, s, w, d, lo, n) <==> i in WindowItems(s, w, d)
      ensures i in WindowItems(s, w, d) ==> 1 <= i <= c.items
    {
      DerivedItemsAre(c, s, w, d, lo, n, i);
      WindowIs(c, s, w, d, i);
      hide DistrictInv, DerivedItems, WindowItems, OnLine;
    }
    DerivedSize(c, s, w, d, lo, n);
    hide DistrictInv, DerivedItems;
  }

  lemma WindowKnownIff(c: Config, s: State, w: int, d: int, first: int)
    requires KnownFrom(s, w, d, first) && c.orders < first <= s.district[(w, d)].nextOid
    ensures WindowKnown(c, s, w, d) <==> first <= Larger(WindowStart(s.district[(w, d)].nextOid), c.orders + 1)
  {
    var n := s.district[(w, d)].nextOid;
    var o := Larger(WindowStart(n), c.orders + 1);
    if o < first { assert !OrderKnown(c, s, w, d, o); }
  }

  /**
   After every run: the client knows the window exactly when it took no order before its last
   reconfiguration, or at least twenty after it.
   */
  lemma RunWindowKnown(c: Config, steps: seq<Step>, w: int, d: int)
    requires ValidConfig(c) && InRange(c, w, d)
    ensures var s, first := Run(c, Load(c), steps), KnownSince(c, steps, w, d);
            && (w, d) in s.district
            && (WindowKnown(c, s, w, d) <==>
                  first == c.orders + 1 || first + WINDOW <= s.district[(w, d)].nextOid)
  {
    hide Run, Load, KnownFrom, WindowKnown, KnownSince;
    var s, first := Run(c, Load(c), steps), KnownSince(c, steps, w, d);
    RunRemembers(c, steps, w, d);
    KnownDistrict(s, w, d, first);
    WindowKnownIff(c, s, w, d, first);
  }

  /** In every such run the derived set is the scan. */
  lemma RunWindow(c: Config, steps: seq<Step>, w: int, d: int)
    requires ValidConfig(c) && InRange(c, w, d)
    ensures var s, first := Run(c, Load(c), steps), KnownSince(c, steps, w, d);
            && (w, d) in s.district
            && var n := s.district[(w, d)].nextOid;
               first == c.orders + 1 || first + WINDOW <= n ==>
                 && DerivedItems(c, s, w, d, WindowStart(n), n) == WindowItems(s, w, d)
                 && 1 <= |WindowItems(s, w, d)| <= MAX_KEYS
  {
    hide Run, Load, KnownSince, DerivedItems, WindowItems, WindowKnown;
    RunTables(c, steps);
    RunWindowKnown(c, steps, w, d);
    var s := Run(c, Load(c), steps);
    assert DistrictInv(c, s, w, d);
    if WindowKnown(c, s, w, d) { WindowDerived(c, s, w, d); }
  }

  // --- a late reconfiguration ---

  lemma LoadedHigh(c: Config, o: int, k: int)
    requires 1 <= o <= c.orders + 1 && 1 <= k <= MAX_LINES && 37 * (c.orders + 1) + 212 < c.items
    ensures LoadedItem(c, 1, o, k) >= 68
  {
    ModUnique(o * 37 + k * 13 + 17, c.items, 0, o * 37 + k * 13 + 17);
  }

  /** A client that knows nothing takes every order for a loaded one. */
  lemma {:induction false} DerivedHigh(c: Config, s: State, w: int, lo: int, hi: int, i: int)
    requires s.runtimeItems == map[] && 1 <= lo && hi <= c.orders + 2 && 37 * (c.orders + 1) + 212 < c.items
    requires i in DerivedItems(c, s, w, 1, lo, hi)
    ensures i >= 68
    decreases hi - lo
  {
    hide DerivedLines, LoadedItem, LoadedLineCount;
    var o := hi - 1;
    var n := DerivedCount(c, s, w, 1, o);
    if i in DerivedLines(c, s, w, 1, o, n) {
      DerivedLinesAre(c, s, w, 1, o, n, i);
      var k :| 1 <= k <= n && DerivedItem(c, s, w, 1, o, k) == i;
      LoadedHigh(c, o, k);
    } else {
      DerivedHigh(c, s, w, lo, hi - 1, i);
    }
  }

  lemma NewOrderFirstLine(c: Config, s: State, w: int, d: int)
    requires NewOrderCommits(c, s, w, d, 1)
    ensures var o, t := s.district[(w, d)].nextOid, NewOrder(c, s, w, d, 1);
            (w, d) in t.district && (w, d, o, 1) in t.lines && t.lines[(w, d, o, 1)].item == RuntimeItem(d, 1)
  {
  }

  lemma ResetKeeps(c: Config, s: State)
    ensures var t := Next(c, s, Reset); t.runtimeItems == map[] && t.lines == s.lines && t.district == s.district
  {
  }

  /** One New-Order and a reconfiguration: the derived set misses the items of the order just taken. */
  lemma StockForgets(c: Config)
    requires ValidConfig(c) && InRange(c, 1, 1) && 37 * (c.orders + 1) + 212 < c.items
    ensures var s := Run(c, Load(c), [NewOrderStep(1, 1, 1), Reset]);
            && (1, 1) in s.district
            && var n := s.district[(1, 1)].nextOid;
               DerivedItems(c, s, 1, 1, WindowStart(n), n) != WindowItems(s, 1, 1)
  {
    hide NewOrder, NewOrderCommits, Run, Next, Load, DerivedItems;
    var step := NewOrderStep(1, 1, 1);
    assert [step] + [Reset] == [step, Reset];
    RunAppend(c, Load(c), [step], [Reset]);
    RunOne(c, Load(c), step);
    LoadedTables(c);
    LoadedNextOid(c, 1, 1);
    NewOrderCommitsIff(c, Load(c), 1, 1, 1);
    NewOrderDistrictRow(c, Load(c), 1, 1);
    NewOrderFirstLine(c, Load(c), 1, 1);
    var t := NewOrder(c, Load(c), 1, 1, 1);
    RunOne(c, t, Reset);
    ResetKeeps(c, t);
    var s := Next(c, t, Reset);
    assert (1, 1, c.orders + 1, 1) in s.lines;
    assert 11 in WindowItems(s, 1, 1);
    var n := s.district[(1, 1)].nextOid;
    if 11 in DerivedItems(c, s, 1, 1, WindowStart(n), n) { DerivedHigh(c, s, 1, WindowStart(n), n, 11); }
  }

  lemma WindowIs(c: Config, s: State, w: int, d: int, i: int)
    requires ValidConfig(c) && DistrictInv(c, s, w, d)
    ensures i in WindowItems(s, w, d) <==>
            OnLine(s, w, d, WindowStart(s.district[(w, d)].nextOid), s.district[(w, d)].nextOid, i)
    ensures i in WindowItems(s, w, d) ==> 1 <= i <= c.items
  {
    var n := s.district[(w, d)].nextOid;
    var lo := WindowStart(n);
    if i in WindowItems(s, w, d) {
      var k :| k in s.lines && k.0 == w && k.1 == d && n - WINDOW <= k.2 < n && s.lines[k].item == i;
      var o, n := k.2, k.3;
      assert k == (w, d, o, n);
      assert OrderInv(c, s, w, d, o);
      assert LineInv(c, s.lines[(w, d, o, n)], d, o, n, (w, d, o) in s.newOrder);
    }
    if OnLine(s, w, d, lo, n, i) {
      var o, k :| lo <= o < n && (w, d, o, k) in s.lines && s.lines[(w, d, o, k)].item == i;
      assert (w, d, o, k) in s.lines;
    }
  }
}
