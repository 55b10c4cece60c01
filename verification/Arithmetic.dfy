/** Facts about multiplication and division that the solver does not find on its own. */
module Arithmetic {
  function Larger(a: int, b: int): (r: int)
    ensures r >= a && r >= b && (r == a || r == b)
  {
    if a < b then b else a
  }

  lemma TimesAtLeast(x: nat, p: nat)
    ensures x != 0 ==> x * p >= p
  {
    if x != 0 { assert x * p == (x - 1) * p + p; }
  }

  lemma ProductNonNegative(x: int, y: int)
    requires 0 <= x && 0 <= y
    ensures 0 <= x * y
  {
  }

  lemma SmallMultiple(k: int, d: int)
    requires 0 < d && -d < k * d < d
    ensures k == 0
  {
    if k >= 1 {
      TimesAtLeast(k, d);
    } else if k <= -1 {
      TimesAtLeast(-k, d);
    }
  }

  lemma DivUnique(x: nat, q: nat, d: nat, r: nat)
    requires r < d && x == q * d + r
    ensures x / d == q && x % d == r
  {
    assert x == (x / d) * d + x % d;
    assert (q - x / d) * d == x % d - r;
    SmallMultiple(q - x / d, d);
  }

  lemma ModUnique(x: int, m: int, q: int, r: int)
    requires 0 < m && 0 <= r < m && x == m * q + r
    ensures x % m == r
  {
    assert x == m * (x / m) + x % m;
    assert (q - x / m) * m == x % m - r;
    SmallMultiple(q - x / m, m);
  }
}
