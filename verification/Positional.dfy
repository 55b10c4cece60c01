/**
 Positional numerals in the two bases the decimal codec works in: decimal digits, most
 significant first, and base-65536 limbs, least significant first.
 */
module Positional {
  import opened Arithmetic

  type Byte = x: int | 0 <= x < 256
  type Digit = x: int | 0 <= x < 10
  type Limb = x: int | 0 <= x < 0x1_0000

  function Pow10(n: nat): (r: nat)
    ensures r >= 1
  {
    if n == 0 then 1 else 10 * Pow10(n - 1)
  }

  function PowLimb(n: nat): (r: nat)
    ensures r >= 1
  {
    if n == 0 then 1 else 0x1_0000 * PowLimb(n - 1)
  }

  /** The number a digit string denotes. */
  function DecVal(ds: seq<Digit>): nat {
    if ds == [] then 0 else DecVal(ds[..|ds| - 1]) * 10 + ds[|ds| - 1]
  }

  /** The number a limb string denotes. */
  function LimbVal(ls: seq<Limb>): nat {
    if ls == [] then 0 else ls[0] + 0x1_0000 * LimbVal(ls[1..])
  }

  /** The last `n` decimal digits of `v`. */
  function Digits(v: nat, n: nat): (ds: seq<Digit>)
    ensures |ds| == n
  {
    if n == 0 then [] else Digits(v / 10, n - 1) + [v % 10]
  }

  /** The `n` low limbs of `v`. */
  function Limbs(v: nat, n: nat): (ls: seq<Limb>)
    ensures |ls| == n
  {
    if n == 0 then [] else [v % 0x1_0000] + Limbs(v / 0x1_0000, n - 1)
  }

  function Zeros(n: nat): (ds: seq<Digit>)
    ensures |ds| == n
  {
    seq(n, _ => 0)
  }

  lemma {:induction false} Pow10Add(m: nat, n: nat)
    ensures Pow10(m + n) == Pow10(m) * Pow10(n)
  {
    if m > 0 {
      Pow10Add(m - 1, n);
      assert Pow10(m + n) == 10 * Pow10((m - 1) + n);
    }
  }

  lemma {:induction false} Pow10Monotone(m: nat, n: nat)
    requires m <= n
    ensures Pow10(m) <= Pow10(n)
  {
    if m < n { Pow10Monotone(m, n - 1); }
  }

  lemma {:induction false} PowLimbMonotone(m: nat, n: nat)
    requires m <= n
    ensures PowLimb(m) <= PowLimb(n)
  {
    if m < n { PowLimbMonotone(m, n - 1); }
  }

  lemma ShiftedOnce(high: nat, p: nat, low: nat, v: nat, last: nat)
    requires v == high * p + low
    ensures 10 * v + last == high * (10 * p) + (10 * low + last)
  {
    assert high * (10 * p) == 10 * (high * p);
  }

  lemma {:induction false} DecValAppend(a: seq<Digit>, b: seq<Digit>)
    ensures DecVal(a + b) == DecVal(a) * Pow10(|b|) + DecVal(b)
  {
    if b == [] {
      assert a + b == a;
    } else {
      var c := b[..|b| - 1];
      assert (a + b)[..|a + b| - 1] == a + c;
      DecValAppend(a, c);
      ShiftedOnce(DecVal(a), Pow10(|c|), DecVal(c), DecVal(a + c), b[|b| - 1]);
    }
  }

  lemma {:induction false} DecValBound(ds: seq<Digit>)
    ensures DecVal(ds) < Pow10(|ds|)
  {
    if ds != [] { DecValBound(ds[..|ds| - 1]); }
  }

  lemma {:induction false} DecValZeros(n: nat)
    ensures DecVal(Zeros(n)) == 0
  {
    if n > 0 {
      assert Zeros(n)[..n - 1] == Zeros(n - 1);
      DecValZeros(n - 1);
    }
  }

  /** Leading zeros carry no weight. */
  lemma DecValLeadingZeros(n: nat, ds: seq<Digit>)
    ensures DecVal(Zeros(n) + ds) == DecVal(ds)
  {
    DecValAppend(Zeros(n), ds);
    DecValZeros(n);
  }

  /** A digit string whose first digit is not zero is at least 10^(length-1). */
  lemma {:induction false} DecValLeading(ds: seq<Digit>)
    requires ds != [] && ds[0] != 0
    ensures DecVal(ds) >= Pow10(|ds| - 1)
  {
    if |ds| > 1 { DecValLeading(ds[..|ds| - 1]); }
  }

  lemma {:induction false} DigitsOfVal(ds: seq<Digit>)
    ensures Digits(DecVal(ds), |ds|) == ds
  {
    if ds != [] {
      DigitsOfVal(ds[..|ds| - 1]);
      assert ds == ds[..|ds| - 1] + [ds[|ds| - 1]];
    }
  }

  lemma {:induction false} ValOfDigits(v: nat, n: nat)
    requires v < Pow10(n)
    ensures DecVal(Digits(v, n)) == v
  {
    if n > 0 { ValOfDigits(v / 10, n - 1); }
  }

  /** `v` without its last `b` digits. */
  function DropDigits(v: nat, b: nat): nat {
    if b == 0 then v else DropDigits(v / 10, b - 1)
  }

  /** The digits of `v` split into those left after dropping `b` digits and those dropped. */
  lemma {:induction false} DigitsSplit(v: nat, a: nat, b: nat)
    ensures Digits(v, a + b) == Digits(DropDigits(v, b), a) + Digits(v, b)
  {
    if b > 0 {
      DigitsSplit(v / 10, a, b - 1);
      assert Digits(v, a + b) == Digits(v / 10, a + (b - 1)) + [v % 10];
    }
  }

  lemma {:induction false} DropDigitsAll(v: nat, b: nat)
    requires v < Pow10(b)
    ensures DropDigits(v, b) == 0
  {
    if b > 0 { DropDigitsAll(v / 10, b - 1); }
  }

  lemma {:induction false} DropDigitsAdd(v: nat, a: nat, b: nat)
    ensures DropDigits(DropDigits(v, a), b) == DropDigits(v, a + b)
  {
    if a > 0 { DropDigitsAdd(v / 10, a - 1, b); }
  }

  /** More room than the number needs is filled with leading zeros. */
  lemma {:induction false} DigitsPadded(v: nat, n: nat, m: nat)
    requires v < Pow10(n) && n <= m
    ensures Digits(v, m) == Zeros(m - n) + Digits(v, n)
  {
    if n == 0 {
      DigitsOfVal(Zeros(m));
      DecValZeros(m);
    } else {
      DigitsPadded(v / 10, n - 1, m - 1);
    }
  }

  lemma {:induction false} LimbValSnoc(ls: seq<Limb>, x: Limb)
    ensures LimbVal(ls + [x]) == LimbVal(ls) + x * PowLimb(|ls|)
  {
    if ls != [] {
      assert (ls + [x])[1..] == ls[1..] + [x];
      LimbValSnoc(ls[1..], x);
      assert 0x1_0000 * (x * PowLimb(|ls| - 1)) == x * PowLimb(|ls|);
    } else {
      assert (ls + [x])[1..] == [];
    }
  }

  lemma {:induction false} LimbValBound(ls: seq<Limb>)
    ensures LimbVal(ls) < PowLimb(|ls|)
  {
    if ls != [] { LimbValBound(ls[1..]); }
  }

  lemma {:induction false} LimbsOfVal(ls: seq<Limb>)
    ensures Limbs(LimbVal(ls), |ls|) == ls
  {
    if ls != [] {
      LimbsOfVal(ls[1..]);
      assert ls == [ls[0]] + ls[1..];
    }
  }

  lemma {:induction false} ValOfLimbs(v: nat, n: nat)
    requires v < PowLimb(n)
    ensures LimbVal(Limbs(v, n)) == v
  {
    if n > 0 { ValOfLimbs(v / 0x1_0000, n - 1); }
  }

  /** Zero limbs above the significant ones carry no weight. */
  lemma {:induction false} LimbValTrim(ls: seq<Limb>, k: nat)
    requires k <= |ls|
    requires forall i :: k <= i < |ls| ==> ls[i] == 0
    ensures LimbVal(ls) == LimbVal(ls[..k])
    decreases |ls| - k
  {
    if k < |ls| {
      LimbValTrim(ls, k + 1);
      assert ls[..k + 1] == ls[..k] + [ls[k]];
      LimbValSnoc(ls[..k], ls[k]);
    } else {
      assert ls[..k] == ls;
    }
  }

  /** The top limb carries the highest weight, so a nonzero one bounds the number from below. */
  lemma {:induction false} LimbValTop(ls: seq<Limb>)
    requires ls != []
    ensures LimbVal(ls) == LimbVal(ls[..|ls| - 1]) + ls[|ls| - 1] * PowLimb(|ls| - 1)
    ensures ls[|ls| - 1] != 0 ==> LimbVal(ls) >= PowLimb(|ls| - 1)
  {
    var low, x := ls[..|ls| - 1], ls[|ls| - 1];
    assert ls == low + [x];
    LimbValSnoc(low, x);
    TimesAtLeast(x, PowLimb(|ls| - 1));
  }
}
