/**
 Decimal digits to base-65536 limbs: Horner's rule on chunks of up to four digits, each chunk a
 multiply-and-add pass over the limbs computed so far.
 */
module BcdToBigNum {
  import opened Arithmetic
  import opened Positional

  /** The digits stored in `len` bytes of a buffer. */
  ghost function DigitsAt(a: array<Byte>, base: nat, len: nat): (ds: seq<Digit>)
    requires base + len <= a.Length
    requires forall i :: base <= i < base + len ==> a[i] < 10
    reads a
    ensures |ds| == len
    ensures forall i :: 0 <= i < len ==> ds[i] == a[base + i]
  {
    seq(len, i requires 0 <= i < len && base + i < a.Length && a[base + i] < 10 reads a => a[base + i])
  }

  lemma MulAddAlgebra(a: int, b: int, p: int, x: int, r: int, power: int, chunk: int, c: int, c': int)
    requires a + c * p == b * power + chunk
    requires x * power + c == r + 0x1_0000 * c'
    ensures a + r * p + c' * (0x1_0000 * p) == (b + x * p) * power + chunk
  {
    var y := x * power;
    assert (y + c) * p == y * p + c * p;
    assert (r + 0x1_0000 * c') * p == r * p + c' * (0x1_0000 * p);
    assert (b + x * p) * power == b * power + (x * p) * power;
    assert (x * p) * power == y * p;
  }

  /** One limb of the multiply-and-add pass: a 32-bit product splits into limb and carry. */
  lemma {:induction false} MulAddLimb(was: seq<Limb>, now: seq<Limb>, x: Limb, r: Limb,
                                      power: nat, chunk: nat, carry: nat, carry': nat)
    requires |was| == |now|
    requires LimbVal(now) + carry * PowLimb(|now|) == LimbVal(was) * power + chunk
    requires x * power + carry == r + 0x1_0000 * carry'
    ensures LimbVal(now + [r]) + carry' * PowLimb(|now| + 1) == LimbVal(was + [x]) * power + chunk
  {
    LimbValSnoc(now, r);
    LimbValSnoc(was, x);
    MulAddAlgebra(LimbVal(now), LimbVal(was), PowLimb(|now|), x, r, power, chunk, carry, carry');
  }

  /** Multiplies the low `n` limbs by `power` and adds `chunk`; the carry is what no longer fits. */
  method MulAddPass(target: array<Limb>, n: nat, power: nat, chunk: nat) returns (carry: Limb)
    requires 1 <= n <= target.Length
    requires 1 <= power <= 10000 && chunk < power
    modifies target
    ensures target[n..] == old(target[n..])
    ensures LimbVal(target[..n]) + carry * PowLimb(n) == old(LimbVal(target[..n])) * power + chunk
  {
    ghost var was := target[..];
    TopLimbProduct(target[0], power, chunk);
    var temp := target[0] * power + chunk;
    assert temp < 0x1_0000_0000;
    target[0] := temp % 0x1_0000;
    carry := temp / 0x1_0000;
    assert target[..1] == [] + [target[0]] && was[..1] == [] + [was[0]];
    MulAddLimb([], [], was[0], target[0], power, chunk, chunk, carry);
    var j := 1;
    while j < n
      invariant 1 <= j <= n
      invariant carry < power
      invariant target[j..] == was[j..]
      invariant LimbVal(target[..j]) + carry * PowLimb(j) == LimbVal(was[..j]) * power + chunk
    {
      ghost var low, c := target[..j], carry;
      assert target[j] == target[j..][0] == was[j];
      TopLimbProduct(target[j], power, carry);
      temp := target[j] * power + carry;
      assert temp < 0x1_0000_0000;
      target[j] := temp % 0x1_0000;
      carry := temp / 0x1_0000;
      MulAddLimb(was[..j], low, was[j], target[j], power, chunk, c, carry);
      assert target[..j + 1] == low + [target[j]];
      assert was[..j + 1] == was[..j] + [was[j]];
      assert target[j + 1..] == was[j + 1..] by {
        assert forall k :: j < k < target.Length ==> target[k] == was[k] by {
          assert forall k :: j < k < target.Length ==> was[j..][k - j] == was[k];
        }
      }
      j := j + 1;
    }
    assert was[..n] == old(target[..n]);
    assert was[n..] == old(target[n..]);
  }

  lemma TopLimbProduct(x: Limb, power: nat, carry: nat)
    requires 1 <= power <= 10000 && carry < power
    ensures 0 <= x * power + carry < 0x1_0000 * power <= 0x1_0000_0000
    ensures (x * power + carry) / 0x1_0000 < power
  {
    assert x * power <= 0xFFFF * power;
  }

  /** The numeric value of the next chunk of at most four digits. */
  method ReadChunk(source: array<Byte>, pos: nat, end: nat) returns (j: nat, chunk: nat)
    requires pos < end <= source.Length
    requires forall i :: pos <= i < end ==> source[i] < 10
    ensures j == if end - pos < 4 then end - pos else 4
    ensures chunk == DecVal(DigitsAt(source, pos, j)) < Pow10(j)
  {
    j, chunk := 0, 0;
    while j < 4 && pos + j < end
      invariant j <= 4 && pos + j <= end
      invariant chunk == DecVal(DigitsAt(source, pos, j))
    {
      assert DigitsAt(source, pos, j + 1) == DigitsAt(source, pos, j) + [source[pos + j]];
      chunk := chunk * 10 + source[pos + j];
      j := j + 1;
    }
    DecValBound(DigitsAt(source, pos, j));
  }

  lemma PowerOfChunk(j: nat)
    requires 1 <= j <= 4
    ensures Pow10(1) == 10 && Pow10(2) == 100 && Pow10(3) == 1000 && Pow10(4) == 10000
    ensures 10 <= Pow10(j) <= 10000
  {
    assert Pow10(1) == 10 && Pow10(2) == 100 && Pow10(3) == 1000;
    assert Pow10(4) == 10 * Pow10(3);
  }

  /** Dropping trailing digits never makes the number larger. */
  lemma DecValPrefix(ds: seq<Digit>, k: nat)
    requires k <= |ds|
    ensures DecVal(ds[..k]) <= DecVal(ds)
  {
    hide DecVal, Pow10;
    assert ds == ds[..k] + ds[k..];
    DecValAppend(ds[..k], ds[k..]);
    TimesAtLeast(Pow10(|ds| - k), DecVal(ds[..k]));
  }

  /** A chunk appended to the digits read so far. */
  lemma DecValChunk(ds: seq<Digit>, i: nat, j: nat)
    requires i + j <= |ds|
    ensures DecVal(ds[..i + j]) == DecVal(ds[..i]) * Pow10(j) + DecVal(ds[i..i + j])
  {
    assert ds[..i + j] == ds[..i] + ds[i..i + j];
    DecValAppend(ds[..i], ds[i..i + j]);
  }

  /** The limbs after a carry was stored in the next free limb. */
  lemma GrowByCarry(ls: seq<Limb>, n: nat, carry: Limb)
    requires n < |ls| && ls[n] == carry
    ensures LimbVal(ls[..n + 1]) == LimbVal(ls[..n]) + carry * PowLimb(n)
  {
    assert ls[..n + 1] == ls[..n] + [carry];
    LimbValSnoc(ls[..n], carry);
  }

  /** Clears the limbs and counts the leading zero digits. */
  method Prepare(source: array<Byte>, base: nat, len: nat, target: array<Limb>) returns (zeros: nat)
    requires base + len <= source.Length
    modifies target
    ensures forall k :: 0 <= k < target.Length ==> target[k] == 0
    ensures zeros <= len
    ensures forall k :: base <= k < base + zeros ==> source[k] == 0
    ensures zeros < len ==> source[base + zeros] != 0
  {
    var i := 0;
    while i < target.Length
      invariant 0 <= i <= target.Length
      invariant forall k :: 0 <= k < i ==> target[k] == 0
    {
      target[i] := 0;
      i := i + 1;
    }
    zeros := 0;
    while zeros < len && source[base + zeros] == 0
      invariant zeros <= len
      invariant forall k :: base <= k < base + zeros ==> source[k] == 0
    {
      zeros := zeros + 1;
    }
  }

  lemma {:induction false} DecValAllZero(ds: seq<Digit>)
    requires forall i :: 0 <= i < |ds| ==> ds[i] == 0
    ensures DecVal(ds) == 0
  {
    assert ds == Zeros(|ds|);
    DecValZeros(|ds|);
  }

  /** Multiplies by `power`, adds `chunk`, and takes one more limb into use when there is a carry. */
  method PushChunk(target: array<Limb>, used: nat, power: nat, chunk: nat, ghost sum: nat)
    returns (ok: bool, used': nat)
    requires 1 <= used <= target.Length
    requires forall k :: used <= k < target.Length ==> target[k] == 0
    requires 1 <= power <= 10000 && chunk < power
    requires sum == LimbVal(target[..used]) * power + chunk
    modifies target
    ensures ok ==> 1 <= used' <= target.Length
    ensures ok ==> forall k :: used' <= k < target.Length ==> target[k] == 0
    ensures ok ==> LimbVal(target[..used']) == sum
    ensures !ok ==> sum >= PowLimb(target.Length)
  {
    ghost var above := target[used..];
    var carry := MulAddPass(target, used, power, chunk);
    assert forall k :: used <= k < target.Length ==> target[k] == above[k - used];
    used' := used;
    if carry != 0 {
      TimesAtLeast(carry, PowLimb(used));
      if used >= target.Length {
        return false, used;
      }
      used' := used + 1;
      ghost var low := target[..used];
      target[used] := carry;
      assert target[..][..used] == low;
      GrowByCarry(target[..], used, carry);
      assert target[..][..used'] == target[..used'];
    }
    ok := true;
  }

  /** One turn of Horner's rule: the limbs denote the digits up to `i` before and up to `i'` after. */
  method ConsumeChunk(source: array<Byte>, base: nat, len: nat, i: nat, target: array<Limb>, used: nat)
    returns (ok: bool, i': nat, used': nat)
    requires base + len <= source.Length
    requires forall k :: base <= k < base + len ==> source[k] < 10
    requires i < len && 1 <= used <= target.Length
    requires forall k :: used <= k < target.Length ==> target[k] == 0
    requires LimbVal(target[..used]) == DecVal(DigitsAt(source, base, len)[..i])
    modifies target
    ensures i < i' <= len
    ensures ok ==> 1 <= used' <= target.Length
    ensures ok ==> forall k :: used' <= k < target.Length ==> target[k] == 0
    ensures ok ==> LimbVal(target[..used']) == DecVal(DigitsAt(source, base, len)[..i'])
    ensures !ok ==> DecVal(DigitsAt(source, base, len)[..i']) >= PowLimb(target.Length)
  {
    hide DecVal, LimbVal, PowLimb, Pow10;
    ghost var ds := DigitsAt(source, base, len);
    var j, chunk := ReadChunk(source, base + i, base + len);
    PowerOfChunk(j);
    assert DigitsAt(source, base + i, j) == ds[i..i + j];
    i' := i + j;
    ghost var sum := DecVal(ds[..i']);
    assert sum == LimbVal(target[..used]) * Pow10(j) + chunk by { DecValChunk(ds, i, j); }
    ok, used' := PushChunk(target, used, Pow10(j), chunk, sum);
    assert ds == DigitsAt(source, base, len);
  }

  method ConvBcdToBigNum(source: array<Byte>, base: nat, len: nat, target: array<Limb>) returns (rc: int)
    requires base + len <= source.Length
    requires forall i :: base <= i < base + len ==> source[i] < 10
    requires target.Length >= 1
    modifies target
    ensures rc == 0 || rc == -1
    ensures rc == -1 <==> DecVal(DigitsAt(source, base, len)) >= PowLimb(target.Length)
    ensures rc == 0 ==> LimbVal(target[..]) == DecVal(DigitsAt(source, base, len))
  {
    ghost var ds := DigitsAt(source, base, len);
    var zeros := Prepare(source, base, len, target);
    DecValAllZero(ds[..zeros]);
    var used := 1;
    LimbValTrim(target[..], 0);
    LimbValTrim(target[..], 1);
    var i := zeros;
    while i < len
      invariant zeros <= i <= len
      invariant 1 <= used <= target.Length
      invariant forall k :: used <= k < target.Length ==> target[k] == 0
      invariant ds == DigitsAt(source, base, len)
      invariant LimbVal(target[..used]) == DecVal(ds[..i])
    {
      var ok;
      ok, i, used := ConsumeChunk(source, base, len, i, target, used);
      if !ok {
        DecValPrefix(ds, i);
        return -1;
      }
    }
    assert ds[..len] == ds;
    LimbValTrim(target[..], used);
    assert target[..][..used] == target[..used];
    LimbValBound(target[..]);
    rc := 0;
  }
}
