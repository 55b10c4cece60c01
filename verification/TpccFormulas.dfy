/**
 The closed formulas the TPC-C loader writes its tables by and the client re-derives rows from, and
 the client's search for a customer's latest loaded order.
 */
module TpccFormulas {
  import opened Arithmetic

  datatype Config = Config(warehouses: nat, districts: nat, customers: nat, orders: nat, newOrders: nat,
                           items: nat, seed: int)

  /** What the client demands of a cardinality configuration. */
  predicate ValidConfig(c: Config) {
    c.customers > 0 && c.orders > 0 && 0 < c.newOrders <= c.orders && c.items > 0
  }

  const MIN_LINES := 5
  const MAX_LINES := 15

  function LoadedLineCount(c: Config, w: int, d: int, o: int): (n: nat)
    ensures MIN_LINES <= n <= MAX_LINES
  {
    5 + (o * 37 + w * 17 + d * 13 + c.seed % 11) % 11
  }

  function LoadedItem(c: Config, d: int, o: int, line: int): (i: int)
    requires c.items > 0
    ensures 1 <= i <= c.items
  {
    (o * 37 + line * 13 + d * 17) % c.items + 1
  }

  function LoadedCustomer(c: Config, d: int, o: int): (id: int)
    requires c.customers > 0
    ensures 1 <= id <= c.customers
  {
    (o * 37 + d * 17) % c.customers + 1
  }

  /** Orders up to this id were delivered before the run. */
  function LoadedDelivered(c: Config): int {
    c.orders - c.newOrders
  }

  /** Line amounts, item prices and the balances below are in cents. */
  function LoadedAmount(c: Config, o: int, line: int): int {
    if o <= LoadedDelivered(c) then 0 else (o * 37 + line * 13) % 999999 + 1
  }

  function ItemPrice(i: int): int {
    i * 37 % 9901 + 100
  }

  function LoadedQuantity(i: int): int {
    i * 37 % 91 + 10
  }

  // --- the latest loaded order of a customer ---

  predicate Matches(c: Config, d: int, customer: int, o: int)
    requires c.customers > 0
  {
    LoadedCustomer(c, d, o) == customer
  }

  /** `o` is the greatest order in 1..top that belongs to the customer. */
  ghost predicate GreatestMatch(c: Config, d: int, customer: int, top: int, o: int)
    requires c.customers > 0
  {
    && 1 <= o <= top && Matches(c, d, customer, o)
    && forall p :: 1 <= p <= top && Matches(c, d, customer, p) ==> p <= o
  }

  ghost predicate NoMatch(c: Config, d: int, customer: int, top: int)
    requires c.customers > 0
  {
    forall p :: 1 <= p <= top ==> !Matches(c, d, customer, p)
  }

  /** Orders a multiple of `customers` apart belong to the same customer. */
  lemma MatchesPeriodic(c: Config, d: int, customer: int, o: int, k: int)
    requires c.customers > 0
    ensures Matches(c, d, customer, o + c.customers * k) <==> Matches(c, d, customer, o)
  {
    var m, x := c.customers, o * 37 + d * 17;
    var y := (o + m * k) * 37 + d * 17;
    assert y == m * (37 * k + x / m) + x % m by {
      assert x == m * (x / m) + x % m;
      assert (m * k) * 37 == m * (37 * k);
      assert m * (37 * k) + m * (x / m) == m * (37 * k + x / m);
    }
    ModUnique(y, m, 37 * k + x / m, x % m);
  }

  /** Java's truncating division of the distance to the last order. */
  function Steps(gap: int, m: int): int
    requires m > 0
  {
    if gap >= 0 then gap / m else -(-gap / m)
  }

  /** The candidate for one residue: the last order of that residue. */
  function Candidate(c: Config, o: int): int
    requires c.customers > 0
  {
    o + c.customers * Steps(c.orders - o, c.customers)
  }

  lemma StepsBounds(gap: int, m: int)
    requires m > 0 && -gap < m
    ensures gap < 0 ==> Steps(gap, m) == 0
    ensures gap >= 0 ==> 0 <= m * Steps(gap, m) <= gap
  {
    if gap < 0 {
      DivUnique(-gap, 0, m, -gap);
    } else {
      var q := gap / m;
      QuotientAtLeast(gap, m, 0);
      ProductNonNegative(m, q);
      assert gap == m * q + gap % m;
    }
  }

  lemma QuotientAtLeast(x: int, m: int, k: int)
    requires 0 < m && 0 <= k && m * k <= x
    ensures x / m >= k
  {
    var e := k - x / m;
    assert x == m * (x / m) + x % m;
    assert m * k - m * (x / m) == e * m;
    if e >= 1 {
      TimesAtLeast(e, m);
    }
  }

  lemma CandidateBounds(c: Config, d: int, customer: int, o: int)
    requires c.customers > 0 && c.orders > 0 && 1 <= o <= c.customers
    ensures o <= Candidate(c, o) <= Larger(c.orders, c.customers)
    ensures Matches(c, d, customer, Candidate(c, o)) <==> Matches(c, d, customer, o)
  {
    StepsBounds(c.orders - o, c.customers);
    MatchesPeriodic(c, d, customer, o, Steps(c.orders - o, c.customers));
  }

  /** The order among the first `customers` that has the same customer as `p`. */
  function Base(c: Config, p: int): (o: int)
    requires c.customers > 0
    ensures 1 <= o <= c.customers
  {
    (p - 1) % c.customers + 1
  }

  lemma LastOfResidue(orders: int, o: int, m: int, k: int)
    requires 0 < m && 0 <= k && o + m * k <= orders
    ensures o + m * k <= o + m * ((orders - o) / m)
  {
    QuotientAtLeast(orders - o, m, k);
    var e := (orders - o) / m - k;
    assert m * ((orders - o) / m) == m * k + m * e;
  }

  lemma CandidateOfBase(c: Config, d: int, customer: int, p: int)
    requires c.customers > 0 && c.orders > 0 && 1 <= p <= Larger(c.orders, c.customers)
    ensures Matches(c, d, customer, Base(c, p)) <==> Matches(c, d, customer, p)
    ensures p <= Candidate(c, Base(c, p))
  {
    var m, o, k := c.customers, Base(c, p), (p - 1) / c.customers;
    assert p == o + m * k by { assert p - 1 == m * k + (p - 1) % m; }
    MatchesPeriodic(c, d, customer, o, k);
    if p <= m {
      assert o == p by { ModUnique(p - 1, m, 0, p - 1); }
      CandidateBounds(c, d, customer, o);
    } else {
      assert k >= 0 by { QuotientAtLeast(p - 1, m, 0); }
      LastOfResidue(c.orders, o, m, k);
    }
  }

  /**
   Looks at the first `customers` orders only, yet finds the greatest matching order of all; the
   answer 0 stands for the failed requirement.
   */
  method LoadedOrderForCustomer(c: Config, d: int, customer: int) returns (latest: int)
    requires ValidConfig(c)
    ensures latest == 0 <==> NoMatch(c, d, customer, Larger(c.orders, c.customers))
    ensures latest != 0 ==> GreatestMatch(c, d, customer, Larger(c.orders, c.customers), latest)
    ensures latest != 0 ==> (GreatestMatch(c, d, customer, c.orders, latest) <==>
                             forall p :: c.orders < p <= c.customers ==> !Matches(c, d, customer, p))
  {
    ghost var top := Larger(c.orders, c.customers);
    latest := 0;
    var order := 1;
    while order <= c.customers
      invariant 1 <= order <= c.customers + 1
      invariant latest == 0 || (1 <= latest <= top && Matches(c, d, customer, latest))
      invariant forall p :: 1 <= p < order && Matches(c, d, customer, p) ==> Candidate(c, p) <= latest
    {
      CandidateBounds(c, d, customer, order);
      if LoadedCustomer(c, d, order) == customer {
        latest := Larger(latest, Candidate(c, order));
      }
      order := order + 1;
    }
    forall p | 1 <= p <= top && Matches(c, d, customer, p) ensures p <= latest {
      CandidateOfBase(c, d, customer, p);
    }
  }

  // --- which customers have a loaded order at all ---

  const MINUS_INVERSE: seq<int> := [
    0, 36, 18, 12, 9, 22, 6, 21, 23, 4, 11, 10, 3, 17, 29, 32,
    30, 13, 2, 35, 24, 7, 5, 8, 20, 34, 27, 26, 33, 14, 16, 31, 15, 28, 25, 19, 1]

  lemma MinusInverse(r: int)
    requires 1 <= r <= 36
    ensures MINUS_INVERSE[r] * r % 37 == 36
  {
  }

  /** A factor that takes a residue to -1 modulo 37. */
  lemma FactorOf(r: int) returns (k: int)
    requires 1 <= r <= 36
    ensures (k * r + 1) % 37 == 0
  {
    k := MINUS_INVERSE[r];
    MinusInverse(r);
    OneAbove(k * r);
  }

  lemma OneAbove(x: int)
    requires x % 37 == 36
    ensures (x + 1) % 37 == 0
  {
  }

  lemma InverseOf37(m: int) returns (a: int, k: int)
    requires 0 < m && m % 37 != 0
    ensures 37 * a == k * m + 1
  {
    var q, r := m / 37, m % 37;
    k := FactorOf(r);
    var x := k * r + 1;
    a := k * q + x / 37;
    Distribute(k, q, r, m);
    assert 37 * (x / 37) == x;
  }

  lemma Distribute(k: int, q: int, r: int, m: int)
    requires m == 37 * q + r
    ensures k * m == 37 * (k * q) + k * r
  {
  }

  lemma ResidueWitness(m: int, k: int, a: int, t: int, q: int, z: int, o: int)
    requires 37 * a == k * m + 1 && o == a * t - m * q + m * z
    ensures 37 * o - t == m * (k * t - 37 * q + 37 * z)
  {
    assert 37 * (a * t) == (k * m + 1) * t;
    assert (k * m + 1) * t == m * (k * t) + t;
    assert 37 * (m * q) == m * (37 * q) && 37 * (m * z) == m * (37 * z);
    assert m * (k * t - 37 * q + 37 * z) == m * (k * t) - m * (37 * q) + m * (37 * z);
  }

  /** When 37 does not divide `m`, multiplying by 37 reaches every residue. */
  lemma MultiplesOf37(m: int, t: int) returns (o: int)
    requires 0 < m && m % 37 != 0
    ensures 1 <= o <= m && (37 * o - t) % m == 0
  {
    var a, k := InverseOf37(m);
    var x := a * t;
    var q, z := x / m, if x % m == 0 then 1 else 0;
    o := if x % m == 0 then m else x % m;
    assert x == m * q + x % m;
    ResidueWitness(m, k, a, t, q, z, o);
    ModUnique(37 * o - t, m, k * t - 37 * q + 37 * z, 0);
  }

  /** Every customer of the district has a loaded order. */
  ghost predicate EveryCustomerHasOrder(c: Config, d: int)
    requires c.customers > 0
  {
    forall customer :: 1 <= customer <= c.customers ==> !NoMatch(c, d, customer, c.orders)
  }

  /** When 37 does not divide `m`, different orders among `m` have different customers. */
  lemma OrderUnique(m: int, d: int, o: int, p: int)
    requires 0 < m && m % 37 != 0 && 0 < o - p < m
    ensures (o * 37 + d * 17) % m != (p * 37 + d * 17) % m
  {
    var a, k := InverseOf37(m);
    var x, y, e := o * 37 + d * 17, p * 37 + d * 17, o - p;
    if x % m == y % m {
      var q := x / m - y / m;
      assert x == m * (x / m) + x % m && y == m * (y / m) + y % m;
      assert 37 * e == m * q by { assert m * (x / m) - m * (y / m) == m * q; }
      Cancel(m, a, k, e, q);
      SmallMultiple(a * q - k * e, m);
    }
  }

  lemma Cancel(m: int, a: int, k: int, e: int, q: int)
    requires 37 * a == k * m + 1 && 37 * e == m * q
    ensures e == m * (a * q - k * e)
  {
    assert a * (37 * e) == (k * m + 1) * e;
    assert a * (m * q) == m * (a * q);
    assert (k * m + 1) * e == m * (k * e) + e;
  }

  /** The loader reaches every customer exactly when there are orders enough and 37 does not divide. */
  lemma EveryCustomerIff(c: Config, d: int)
    requires c.customers > 0
    ensures EveryCustomerHasOrder(c, d) <==> c.customers % 37 != 0 && c.customers <= c.orders
  {
    var m := c.customers;
    if m % 37 == 0 {
      var customer := (17 * d + 1) % 37 + 1;
      assert m == 37 * (m / 37);
      forall o | 1 <= o <= c.orders ensures !Matches(c, d, customer, o) {
        MissedCustomer(m, d, o);
      }
      assert NoMatch(c, d, customer, c.orders);
    } else if m <= c.orders {
      forall customer | 1 <= customer <= m ensures !NoMatch(c, d, customer, c.orders) {
        var o := MultiplesOf37(m, customer - 1 - 17 * d);
        var x := 37 * o - (customer - 1 - 17 * d);
        assert x == m * (x / m);
        ModUnique(o * 37 + d * 17, m, x / m, customer - 1);
        assert Matches(c, d, customer, o);
      }
    } else {
      var customer := LoadedCustomer(c, d, m);
      forall o | 1 <= o <= c.orders ensures !Matches(c, d, customer, o) {
        OrderUnique(m, d, m, o);
      }
      assert NoMatch(c, d, customer, c.orders);
    }
  }

  lemma MissedCustomer(m: int, d: int, o: int)
    requires 0 < m && m % 37 == 0
    ensures (o * 37 + d * 17) % m != (17 * d + 1) % 37
  {
    var x, n := o * 37 + d * 17, m / 37;
    assert x == m * (x / m) + x % m;
    assert m * (x / m) == 37 * (n * (x / m));
  }

  /** With 37 customers, customer 19 of district 1 has no order, however many are loaded. */
  lemma NoOrderOf37(orders: nat)
    ensures NoMatch(Config(1, 10, 37, orders, 1, 1000, 0), 1, 19, orders)
  {
    forall o | 1 <= o <= orders ensures !Matches(Config(1, 10, 37, orders, 1, 1000, 0), 1, 19, o) {
      MissedCustomer(37, 1, o);
    }
  }

  /** With 100 customers and 50 orders, customer 18 of district 1 has none: theirs would be order 100. */
  lemma NoOrderOf100()
    ensures NoMatch(Config(1, 10, 100, 50, 10, 1000, 0), 1, 18, 50)
  {
    forall o | 1 <= o <= 50 ensures !Matches(Config(1, 10, 100, 50, 10, 1000, 0), 1, 18, o) {
      OrderUnique(100, 1, 100, o);
    }
  }
}
