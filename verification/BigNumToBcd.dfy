/**
 Base-65536 limbs to decimal digits: repeated short division by 10^4, each remainder giving four
 digits from the right.
 */
module BigNumToBcd {
  import opened Arithmetic
  import opened Positional
  import opened BcdToBigNum

  ghost predicate AllDigits(a: array<Byte>, lo: nat, hi: nat)
    requires lo <= hi <= a.Length
    reads a
  {
    forall k :: lo <= k < hi ==> a[k] < 10
  }

  /** Divides the low `n` limbs by 10^4 in place. */
  method DivPass(temp: array<Limb>, n: nat, remainder: nat) returns (rem: nat)
    requires 1 <= n <= temp.Length
    requires remainder == 0
    modifies temp
    ensures rem < 10000
    ensures old(LimbVal(temp[..n])) == LimbVal(temp[..n]) * 10000 + rem
    ensures forall k :: n <= k < temp.Length ==> temp[k] == old(temp[k])
    ensures temp[n - 1] == old(temp[n - 1]) / 10000
  {
    ghost var was := temp[..];
    rem := remainder;
    var j := n - 1;
    assert temp[n..n] == [];
    while j >= 0
      invariant -1 <= j < n
      invariant rem < 10000
      invariant j == n - 1 ==> rem == 0
      invariant j < n - 1 ==> temp[n - 1] == was[n - 1] / 10000
      invariant forall k :: 0 <= k <= j || n <= k < temp.Length ==> temp[k] == was[k]
      invariant LimbVal(was[j + 1..n]) == LimbVal(temp[j + 1..n]) * 10000 + rem
    {
      var t := rem * 0x1_0000 + temp[j];
      assert t < 0x1_0000_0000;
      ghost var high := temp[j + 1..n];
      temp[j] := t / 10000;
      rem := t % 10000;
      assert was[j..n] == [was[j]] + was[j + 1..n];
      assert temp[j..n] == [temp[j]] + high;
      j := j - 1;
    }
    assert temp[0..n] == temp[..n] && was[0..n] == was[..n];
  }

  /** Short division leaves a nonzero top limb after dropping at most one limb. */
  lemma {:induction false} TopStaysNonzero(was: seq<Limb>, now: seq<Limb>, rem: nat)
    requires |was| == |now| >= 1 && rem < 10000
    requires was[|was| - 1] != 0
    requires |was| == 1 ==> was[0] >= 10000
    requires LimbVal(was) == LimbVal(now) * 10000 + rem
    requires now[|now| - 1] == was[|was| - 1] / 10000
    ensures now[|now| - 1] == 0 ==> |now| >= 2 && now[|now| - 2] != 0
    ensures now[|now| - 1] == 0 ==> LimbVal(now[..|now| - 1]) == LimbVal(now)
    ensures 1 <= LimbVal(now) < LimbVal(was)
  {
    var n := |now|;
    LimbValTop(was);
    if now[n - 1] == 0 {
      LimbValTrim(now, n - 1);
      if n == 1 {
        assert false;
      } else {
        assert PowLimb(n - 1) == 0x1_0000 * PowLimb(n - 2);
        if now[n - 2] == 0 {
          LimbValTrim(now, n - 2);
          LimbValBound(now[..n - 2]);
          assert false;
        }
      }
    } else {
      LimbValTop(now);
    }
  }

  /**
   The last `written` digits of the field are in place, the rest of it is still zero, and `x` is the
   part of `v` still to be written to their left.
   */
  ghost predicate Progress(target: array<Byte>, off: nat, len: nat, written: nat, x: nat, v: nat)
    reads target
  {
    && off + len <= target.Length
    && written <= len
    && (forall k :: off <= k < off + len - written ==> target[k] == 0)
    && AllDigits(target, off + len - written, off + len)
    && x * Pow10(written) + DecVal(DigitsAt(target, off + len - written, written)) == v
  }

  lemma SplitLastDigit(x: nat, p: nat)
    ensures x * p == (x / 10) * (10 * p) + (x % 10) * p
  {
    var q, d := x / 10, x % 10;
    assert x == 10 * q + d;
    assert (10 * q) * p == q * (10 * p);
    assert (10 * q + d) * p == (10 * q) * p + d * p;
  }

  lemma {:induction false} PrependDigit(tail: seq<Digit>, digit: Digit, x: nat)
    requires digit == x % 10
    ensures x * Pow10(|tail|) + DecVal(tail) == (x / 10) * Pow10(|tail| + 1) + DecVal([digit] + tail)
  {
    DecValAppend([digit], tail);
    assert DecVal([digit]) == digit by { assert [digit][..0] == []; }
    SplitLastDigit(x, Pow10(|tail|));
  }

  /** Writes one digit to the left of those already written. */
  method PushDigit(target: array<Byte>, off: nat, len: nat, written: nat, digit: Digit, ghost x: nat, ghost v: nat)
    requires Progress(target, off, len, written, x, v)
    requires written < len && digit == x % 10
    modifies target
    ensures Progress(target, off, len, written + 1, x / 10, v)
    ensures forall k :: 0 <= k < off || off + len <= k < target.Length ==> target[k] == old(target[k])
  {
    ghost var tail := DigitsAt(target, off + len - written, written);
    target[off + len - written - 1] := digit;
    assert DigitsAt(target, off + len - written - 1, written + 1) == [digit] + tail;
    PrependDigit(tail, digit, x);
  }

  lemma Overflowing(target: array<Byte>, off: nat, len: nat, x: nat, v: nat)
    requires Progress(target, off, len, len, x, v)
    requires x >= 1
    ensures v >= Pow10(len)
  {
    TimesAtLeast(x, Pow10(len));
  }

  /** When nothing is left to write, the zero-padded field denotes the whole value. */
  lemma Complete(target: array<Byte>, off: nat, len: nat, written: nat, v: nat)
    requires Progress(target, off, len, written, 0, v)
    ensures v < Pow10(len)
    ensures AllDigits(target, off, off + len)
    ensures DecVal(DigitsAt(target, off, len)) == v
  {
    var tail := DigitsAt(target, off + len - written, written);
    assert DigitsAt(target, off, len) == Zeros(len - written) + tail;
    DecValLeadingZeros(len - written, tail);
    DecValBound(DigitsAt(target, off, len));
  }

  function FourDigitScale(j: nat): nat
  {
    if j == 0 then 10000 else if j == 1 then 1000 else if j == 2 then 100 else if j == 3 then 10 else 1
  }

  /** Taking the last digit off quotient and remainder together takes it off the remainder. */
  lemma FourDigitStep(q: nat, rem: nat, j: nat)
    requires j < 4 && rem < FourDigitScale(j)
    ensures (q * FourDigitScale(j) + rem) % 10 == rem % 10
    ensures (q * FourDigitScale(j) + rem) / 10 == q * FourDigitScale(j + 1) + rem / 10
    ensures rem / 10 < FourDigitScale(j + 1)
  {
    assert FourDigitScale(j) == 10 * FourDigitScale(j + 1);
    var y := q * FourDigitScale(j + 1);
    assert q * FourDigitScale(j) == 10 * y;
  }

  /** Writes the four digits of a remainder; `q` is the quotient that stays behind. */
  method PushRemainder(target: array<Byte>, off: nat, len: nat, written: nat, rem: nat, ghost q: nat, ghost v: nat)
    returns (ok: bool, written': nat, rem': nat)
    requires rem < 10000 && q >= 1 && written <= len && off + len <= target.Length
    requires Progress(target, off, len, written, q * 10000 + rem, v)
    modifies target
    ensures ok ==> Progress(target, off, len, written', q, v) && rem' == 0 && written' <= len
    ensures !ok ==> v >= Pow10(len)
    ensures forall k :: 0 <= k < off || off + len <= k < target.Length ==> target[k] == old(target[k])
  {
    hide Progress, Pow10;
    written', rem' := written, rem;
    ghost var x := q * 10000 + rem;
    var j := 0;
    while j < 4
      invariant 0 <= j <= 4 && written' <= len
      invariant x == q * FourDigitScale(j) + rem' && rem' < FourDigitScale(j)
      invariant Progress(target, off, len, written', x, v)
      invariant forall k :: 0 <= k < off || off + len <= k < target.Length ==> target[k] == old(target[k])
    {
      if written' >= len {
        TimesAtLeast(FourDigitScale(j), q);
        Overflowing(target, off, len, x, v);
        return false, written', rem';
      }
      FourDigitStep(q, rem', j);
      PushDigit(target, off, len, written', rem' % 10, x, v);
      x := x / 10;
      written', rem' := written' + 1, rem' / 10;
      j := j + 1;
    }
    ok := true;
  }

  /** Writes the digits of the final quotient, without leading zeros. */
  method PushFinal(target: array<Byte>, off: nat, len: nat, written: nat, last: nat, ghost v: nat)
    returns (ok: bool, written': nat)
    requires written <= len && off + len <= target.Length
    requires Progress(target, off, len, written, last, v)
    modifies target
    ensures ok ==> Progress(target, off, len, written', 0, v)
    ensures !ok ==> v >= Pow10(len)
    ensures forall k :: 0 <= k < off || off + len <= k < target.Length ==> target[k] == old(target[k])
  {
    hide Progress, Pow10;
    written' := written;
    var rem := last;
    while rem != 0
      invariant written' <= len
      invariant Progress(target, off, len, written', rem, v)
      invariant forall k :: 0 <= k < off || off + len <= k < target.Length ==> target[k] == old(target[k])
    {
      if written' >= len {
        Overflowing(target, off, len, rem, v);
        return false, written';
      }
      PushDigit(target, off, len, written', rem % 10, rem, v);
      written', rem := written' + 1, rem / 10;
    }
    ok := true;
  }

  /** Copies the limbs and counts those up to the highest nonzero one. */
  method CopySignificant(source: array<Limb>) returns (temp: array<Limb>, n: nat)
    ensures fresh(temp) && temp.Length == source.Length
    ensures temp[..] == source[..]
    ensures n <= temp.Length && (n > 0 ==> temp[n - 1] != 0)
    ensures LimbVal(source[..]) == LimbVal(temp[..n])
  {
    temp := new Limb[source.Length];
    var i := 0;
    while i < source.Length
      invariant 0 <= i <= source.Length
      invariant forall k :: 0 <= k < i ==> temp[k] == source[k]
    {
      temp[i] := source[i];
      i := i + 1;
    }
    assert temp[..] == source[..];
    n := source.Length;
    while n > 0 && temp[n - 1] == 0
      invariant n <= source.Length
      invariant forall k :: n <= k < source.Length ==> temp[k] == 0
    {
      n := n - 1;
    }
    LimbValTrim(temp[..], n);
    assert temp[..][..n] == temp[..n];
  }

  /** Divides by 10^4 and forgets the top limb when it became zero. */
  method DivideAndDrop(temp: array<Limb>, n: nat, remainder: nat) returns (n': nat, rem: nat)
    requires 1 <= n <= temp.Length && temp[n - 1] != 0
    requires n != 1 || temp[n - 1] >= 10000
    requires remainder == 0
    modifies temp
    ensures 1 <= n' <= n && temp[n' - 1] != 0
    ensures rem < 10000
    ensures old(LimbVal(temp[..n])) == LimbVal(temp[..n']) * 10000 + rem
    ensures 1 <= LimbVal(temp[..n']) < old(LimbVal(temp[..n]))
  {
    ghost var was := temp[..n];
    rem := DivPass(temp, n, remainder);
    TopStaysNonzero(was, temp[..n], rem);
    n' := n;
    if temp[n - 1] == 0 {
      n' := n - 1;
      assert temp[..n][..n - 1] == temp[..n'];
    }
  }

  method ClearField(target: array<Byte>, off: nat, len: nat)
    requires off + len <= target.Length
    modifies target
    ensures forall k :: off <= k < off + len ==> target[k] == 0
    ensures forall k :: 0 <= k < off || off + len <= k < target.Length ==> target[k] == old(target[k])
  {
    var i := 0;
    while i < len
      invariant 0 <= i <= len
      invariant forall k :: off <= k < off + i ==> target[k] == 0
      invariant forall k :: 0 <= k < off || off + len <= k < target.Length ==> target[k] == old(target[k])
    {
      target[off + i] := 0;
      i := i + 1;
    }
  }

  lemma NothingWritten(target: array<Byte>, off: nat, len: nat, v: nat)
    requires off + len <= target.Length && forall k :: off <= k < off + len ==> target[k] == 0
    ensures Progress(target, off, len, 0, v, v)
  {
  }

  method ConvBigNumToBcd(source: array<Limb>, target: array<Byte>, off: nat, len: nat) returns (rc: int)
    requires off + len <= target.Length
    modifies target
    ensures rc == 0 || rc == -1
    ensures rc == -1 <==> LimbVal(source[..]) >= Pow10(len)
    ensures rc == 0 ==> AllDigits(target, off, off + len)
                        && DecVal(DigitsAt(target, off, len)) == LimbVal(source[..])
    ensures forall k :: 0 <= k < off || off + len <= k < target.Length ==> target[k] == old(target[k])
  {
    hide Progress, Pow10, DecVal, DigitsAt, AllDigits;
    ghost var v := LimbVal(source[..]);
    var temp, n := CopySignificant(source);
    ClearField(target, off, len);
    NothingWritten(target, off, len, v);
    if n == 0 {
      Complete(target, off, len, 0, v);
      return 0;
    }
    var written, remainder := 0, 0;
    while n != 1 || temp[n - 1] >= 10000
      invariant fresh(temp) && 1 <= n <= temp.Length && temp[n - 1] != 0
      invariant remainder == 0 && 0 <= written <= len
      invariant Progress(target, off, len, written, LimbVal(temp[..n]), v)
      invariant forall k :: 0 <= k < off || off + len <= k < target.Length ==> target[k] == old(target[k])
      decreases LimbVal(temp[..n])
    {
      n, remainder := DivideAndDrop(temp, n, remainder);
      var ok;
      ok, written, remainder := PushRemainder(target, off, len, written, remainder, LimbVal(temp[..n]), v);
      if !ok {
        return -1;
      }
    }
    assert LimbVal(temp[..n]) == temp[0] by { assert temp[..n][1..] == []; }
    var ok;
    ok, written := PushFinal(target, off, len, written, temp[0], v);
    if !ok {
      return -1;
    }
    Complete(target, off, len, written, v);
    rc := 0;
  }
}
