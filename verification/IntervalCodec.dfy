/** The interval printer: fills the target from the right, field by field. */
module IntervalCodec {
  import opened Arithmetic
  import opened Positional
  import opened DecimalText
  import opened Int64Text
  import opened IntervalText

  /** Little-endian two's complement. */
  function UnsignedLE(bytes: seq<Byte>): nat {
    if bytes == [] then 0 else bytes[0] + 256 * UnsignedLE(bytes[1..])
  }

  function Pow256(n: nat): nat {
    if n == 0 then 1 else 256 * Pow256(n - 1)
  }

  function SignedLE(bytes: seq<Byte>): int {
    var u := UnsignedLE(bytes);
    if bytes != [] && bytes[|bytes| - 1] >= 128 then u - Pow256(|bytes|) else u
  }

  /** The `n` bytes of a number modulo 256^n, least significant first. */
  function ToLE(u: nat, n: nat): (b: seq<Byte>)
    ensures |b| == n
  {
    if n == 0 then [] else [u % 256] + ToLE(u / 256, n - 1)
  }

  lemma {:induction false} UnsignedOfLE(u: nat, n: nat)
    requires u < Pow256(n)
    ensures UnsignedLE(ToLE(u, n)) == u
  {
    if n > 0 {
      UnsignedOfLE(u / 256, n - 1);
      assert ToLE(u, n)[1..] == ToLE(u / 256, n - 1);
    }
  }

  lemma {:induction false} TopOfLE(u: nat, n: nat)
    requires n >= 1 && u < Pow256(n)
    ensures ToLE(u, n)[n - 1] >= 128 <==> u >= 128 * Pow256(n - 1)
  {
    hide UnsignedLE, Pow256;
    UnsignedOfLE(u, n);
    TopByte(ToLE(u, n));
  }

  /** Reading two's complement undoes writing it, for every number that fits. */
  lemma SignedOfLE(v: int, n: nat)
    requires n >= 1 && -128 * Pow256(n - 1) <= v < 128 * Pow256(n - 1)
    ensures SignedLE(ToLE(if v < 0 then v + Pow256(n) else v, n)) == v
  {
    var u := if v < 0 then v + Pow256(n) else v;
    assert Pow256(n) == 256 * Pow256(n - 1);
    hide Pow256, UnsignedLE, ToLE;
    UnsignedOfLE(u, n);
    TopOfLE(u, n);
  }

  lemma {:induction false} SignedLERange(bytes: seq<Byte>)
    requires 1 <= |bytes| <= 8
    ensures -0x8000_0000_0000_0000 <= SignedLE(bytes) <= INT64_MAX
  {
    var n := |bytes|;
    TopByte(bytes);
    Pow256Eight(n);
  }

  lemma {:induction false} TopByte(bytes: seq<Byte>)
    requires bytes != []
    ensures bytes[|bytes| - 1] >= 128 ==> 128 * Pow256(|bytes| - 1) <= UnsignedLE(bytes) < Pow256(|bytes|)
    ensures bytes[|bytes| - 1] < 128 ==> UnsignedLE(bytes) < 128 * Pow256(|bytes| - 1)
  {
    if |bytes| > 1 {
      TopByte(bytes[1..]);
    } else {
      assert bytes[1..] == [];
    }
  }

  lemma Pow256Eight(n: nat)
    requires 1 <= n <= 8
    ensures 128 * Pow256(n - 1) <= 0x8000_0000_0000_0000 && Pow256(n) == 256 * Pow256(n - 1)
  {
    assert Pow256(1) == 256;
    assert Pow256(2) == 0x1_0000;
    assert Pow256(3) == 0x100_0000;
    assert Pow256(4) == 0x1_0000_0000;
    assert Pow256(5) == 0x100_0000_0000;
    assert Pow256(6) == 0x1_0000_0000_0000;
    assert Pow256(7) == 0x100_0000_0000_0000;
  }

  lemma FieldOfUnsigned(was: string, v: nat, number: string, filler: char)
    requires |number| <= |was|
    ensures Int64Field(was, v, number, filler, false, true) == Fillers(filler, |was| - |number|) + number
  {
    assert Fillers(filler, 0) == "";
    assert SignText(v, false) == "";
  }

  /** A non-negative number, right-aligned in its field. */
  method PutNumber(target: array<char>, at: nat, width: nat, v: nat, filler: char) returns (ok: bool)
    requires at + width <= target.Length && v <= INT64_MAX
    modifies target
    ensures ok <==> NumDigits(v) <= width
    ensures ok ==> target[at..at + width] == Fillers(filler, width - NumDigits(v)) + ToChars(Digits(v, NumDigits(v)))
    ensures forall k :: 0 <= k < at || at + width <= k < target.Length ==> target[k] == old(target[k])
  {
    ghost var was := target[at..at + width];
    var status, n := ConvInt64ToAscii(target, at, width, v, 0, filler, false, true);
    DigitCountUnique(v, n);
    ok := status == Int64Ok;
    if ok {
      ghost var number := ToChars(Digits(v, n));
      assert PointedChars(v, n, 0) == number by { assert Digits(v, n)[..n] == Digits(v, n); }
      FieldOfUnsigned(was, v, number, filler);
    }
  }

  /** A number with leading zeros; it must be known to fit. */
  method PutPadded(target: array<char>, at: nat, width: nat, v: nat) returns (ok: bool)
    requires at + width <= target.Length && v <= INT64_MAX
    requires 1 <= width && v < Pow10(width)
    modifies target
    ensures ok
    ensures target[at..at + width] == ToChars(Digits(v, width))
    ensures forall k :: 0 <= k < at || at + width <= k < target.Length ==> target[k] == old(target[k])
  {
    var n := NumDigits(v);
    if n > width { Pow10Monotone(width, n - 1); }
    ok := PutNumber(target, at, width, v, '0');
    DigitsPadded(v, n, width);
    assert Fillers('0', width - n) == ToChars(Zeros(width - n));
    assert ToChars(Zeros(width - n) + Digits(v, n)) == ToChars(Zeros(width - n)) + ToChars(Digits(v, n));
  }

  /** Splits the count into whole units and the decimal fraction of a unit. */
  method SplitFraction(v: nat, fraction: nat) returns (whole: nat, rest: nat)
    requires v <= INT64_MAX && fraction <= 18
    ensures whole == DropDigits(v, fraction) && rest == DecVal(Digits(v, fraction)) < Pow10(fraction)
    ensures whole <= v && rest <= v
  {
    var factor, i := 1, fraction;
    while i > 0
      invariant 0 <= i <= fraction
      invariant factor == Pow10(fraction - i)
    {
      factor := factor * 10;
      i := i - 1;
    }
    FactorFits(fraction);
    assert factor <= INT64_MAX;
    DropAndKeep(v, fraction);
    DecValBound(Digits(v, fraction));
    DivUnique(v, DropDigits(v, fraction), factor, DecVal(Digits(v, fraction)));
    whole := v / factor;
    rest := v - whole * factor;
    TimesAtLeast(factor, whole);
  }

  lemma FactorFits(fraction: nat)
    requires fraction <= 18
    ensures Pow10(fraction) <= INT64_MAX
  {
    TableIsPowers();
    Pow10Monotone(fraction, 18);
  }

  /** One character in front of `count` that already stand there. */
  method PutChar(target: array<char>, at: nat, ch: char, ghost count: nat)
    requires at + 1 + count <= target.Length
    modifies target
    ensures target[at..at + 1 + count] == [ch] + old(target[at + 1..at + 1 + count])
    ensures forall k :: 0 <= k < target.Length && k != at ==> target[k] == old(target[k])
  {
    ghost var behind := target[at + 1..at + 1 + count];
    target[at] := ch;
    assert target[at + 1..at + 1 + count] == behind;
    assert target[at..at + 1 + count] == [target[at]] + target[at + 1..at + 1 + count];
  }

  lemma FracParts(v: nat, fraction: nat)
    ensures FracChars(v, fraction) == if fraction > 0 then ['.'] + ToChars(Digits(v, fraction)) else ""
  {
  }

  /** Writes the point and the fraction digits, which end the text. */
  method PutFraction(target: array<char>, at: nat, fraction: nat, v: nat, rest: nat)
    requires at + fraction + PointLen(fraction) <= target.Length
    requires rest == DecVal(Digits(v, fraction)) && rest <= INT64_MAX
    modifies target
    ensures target[at..at + fraction + PointLen(fraction)] == FracChars(v, fraction)
    ensures forall k :: 0 <= k < at || at + fraction + PointLen(fraction) <= k < target.Length ==>
              target[k] == old(target[k])
  {
    hide DecVal, Digits, ToChars, Pow10, FracChars;
    FracParts(v, fraction);
    if fraction > 0 {
      DecValBound(Digits(v, fraction));
      DigitsOfVal(Digits(v, fraction));
      var ok := PutPadded(target, at + 1, fraction, rest);
      PutChar(target, at, '.', fraction);
    } else {
      assert target[at..at] == "";
    }
  }

  /** Writes one later field with its delimiter in front of what is already there. */
  method PutLater(target: array<char>, at: nat, field: int, value: nat) returns (value': nat)
    requires 1 <= field <= 6 && at + 3 <= target.Length && value <= INT64_MAX
    modifies target
    ensures value' == Carry(value, field) <= value
    ensures target[at..at + 3] == FieldChars(value, field)
    ensures forall k :: 0 <= k < at || at + 3 <= k < target.Length ==> target[k] == old(target[k])
  {
    var factor := Radix(field);
    CarryAndShare(value, field);
    DivUnique(value, Carry(value, field), factor, Share(value, field));
    value' := value / factor;
    var fieldVal := value - value' * factor;
    HundredIs();
    var ok := PutPadded(target, at + 1, 2, fieldVal);
    PutChar(target, at, DELIMITER[field - 1], 2);
  }

  lemma LaterNone(start: int)
    requires 1 <= start <= 6
    ensures forall v: nat :: LeadingValue(v, start, start) == v && LaterFields(v, start, start) == ""
  {
  }

  /** One later field in front of the text that already stands behind it. */
  method PrependField(target: array<char>, at: nat, field: int, value: nat, ghost start: int, ghost stop: nat)
    returns (value': nat)
    requires 1 <= start < field <= 6 && at + 3 <= stop <= target.Length && value <= INT64_MAX
    modifies target
    ensures value' <= INT64_MAX && LeadingValue(value', field - 1, start) == LeadingValue(value, field, start)
    ensures LaterFields(value', field - 1, start) + target[at..stop] ==
            LaterFields(value, field, start) + old(target[at + 3..stop])
    ensures forall k :: 0 <= k < at || stop <= k < target.Length ==> target[k] == old(target[k])
  {
    hide LaterFields, LeadingValue, FieldChars, Carry;
    LaterStep(value, field, start);
    ghost var tail := target[at + 3..stop];
    value' := PutLater(target, at, field, value);
    assert target[at + 3..stop] == tail;
    assert target[at..stop] == target[at..at + 3] + target[at + 3..stop];
    Regroup(LaterFields(value', field - 1, start), FieldChars(value, field), tail);
  }

  /** All later fields, from the last to the one after the leading field. */
  method PutAllLater(target: array<char>, at: nat, whole: nat, start: int, end: int) returns (leading: nat)
    requires 1 <= start <= end <= 6 && at + 3 * (end - start) <= target.Length && whole <= INT64_MAX
    modifies target
    ensures leading == LeadingValue(whole, end, start) <= INT64_MAX
    ensures target[at..at + 3 * (end - start)] == LaterFields(whole, end, start)
    ensures forall k :: 0 <= k < at || at + 3 * (end - start) <= k < target.Length ==> target[k] == old(target[k])
  {
    hide LaterFields, LeadingValue, Carry, FieldChars;
    ghost var later := LaterFields(whole, end, start);
    LaterNone(start);
    leading := whole;
    var field, index := end, at + 3 * (end - start);
    while field > start
      invariant start <= field <= end && index == at + 3 * (field - start)
      invariant leading <= INT64_MAX
      invariant LeadingValue(leading, field, start) == LeadingValue(whole, end, start)
      invariant LaterFields(leading, field, start) + target[index..at + 3 * (end - start)] == later
      invariant forall k :: 0 <= k < at || at + 3 * (end - start) <= k < target.Length ==> target[k] == old(target[k])
    {
      index := index - 3;
      leading := PrependField(target, index, field, leading, start, at + 3 * (end - start));
      field := field - 1;
    }
    assert target[at..at + 3 * (end - start)] == "" + target[at..at + 3 * (end - start)];
  }

  datatype IntervalStatus = IntervalOk | IntervalBadLength | IntervalOverflow

  /** The later fields in front of the text that already stands behind them. */
  method PrependLater(target: array<char>, at: nat, whole: nat, start: int, end: int, ghost stop: nat)
    returns (leading: nat)
    requires 1 <= start <= end <= 6 && at + 3 * (end - start) <= stop <= target.Length && whole <= INT64_MAX
    modifies target
    ensures leading == LeadingValue(whole, end, start) <= INT64_MAX
    ensures target[at..stop] == LaterFields(whole, end, start) + old(target[at + 3 * (end - start)..stop])
    ensures forall k :: 0 <= k < at || stop <= k < target.Length ==> target[k] == old(target[k])
  {
    ghost var mid := at + 3 * (end - start);
    ghost var tail := target[mid..stop];
    leading := PutAllLater(target, at, whole, start, end);
    assert target[mid..stop] == tail;
    assert target[at..stop] == target[at..mid] + target[mid..stop];
  }

  /** The leading field in front of the text that already stands behind it. */
  method PrependLeading(target: array<char>, at: nat, precision: nat, leading: nat, ghost stop: nat) returns (ok: bool)
    requires at + precision <= stop <= target.Length && leading <= INT64_MAX
    modifies target
    ensures ok <==> NumDigits(leading) <= precision
    ensures ok ==> target[at..stop] == LeadingChars(leading, precision) + old(target[at + precision..stop])
    ensures forall k :: 0 <= k < at || stop <= k < target.Length ==> target[k] == old(target[k])
  {
    ghost var mid := at + precision;
    ghost var tail := target[mid..stop];
    ok := PutNumber(target, at, precision, leading, ' ');
    assert target[mid..stop] == tail;
    assert target[at..stop] == target[at..mid] + target[mid..stop];
  }

  /** Leading field, later fields and fraction at `at`; fails when the leading field is too long. */
  method PutBody(target: array<char>, at: nat, v: nat, precision: nat, fraction: nat, start: int, end: int)
    returns (ok: bool)
    requires 1 <= start <= end <= 6 && fraction <= 18 && v <= INT64_MAX
    requires at + TextLength(0, precision, fraction, start, end) <= target.Length
    modifies target
    ensures ok <==> NumDigits(LeadingValue(DropDigits(v, fraction), end, start)) <= precision
    ensures ok ==> target[at..at + TextLength(0, precision, fraction, start, end)] ==
                   UnsignedChars(v, precision, fraction, start, end)
    ensures forall k :: 0 <= k < at || at + TextLength(0, precision, fraction, start, end) <= k < target.Length
                    ==> target[k] == old(target[k])
  {
    hide LeadingChars, LaterFields, FracChars, LeadingValue, DropDigits, NumDigits;
    ghost var stop := at + TextLength(0, precision, fraction, start, end);
    var leading := PutTail(target, at + precision, v, fraction, start, end);
    ok := PrependLeading(target, at, precision, leading, stop);
    if ok {
      ghost var whole := DropDigits(v, fraction);
      Regroup(LeadingChars(leading, precision), LaterFields(whole, end, start), FracChars(v, fraction));
    }
  }

  /** Everything behind the leading field. */
  method PutTail(target: array<char>, at: nat, v: nat, fraction: nat, start: int, end: int) returns (leading: nat)
    requires 1 <= start <= end <= 6 && fraction <= 18 && v <= INT64_MAX
    requires at + 3 * (end - start) + fraction + PointLen(fraction) <= target.Length
    modifies target
    ensures leading == LeadingValue(DropDigits(v, fraction), end, start) <= INT64_MAX
    ensures target[at..at + 3 * (end - start) + fraction + PointLen(fraction)] ==
            LaterFields(DropDigits(v, fraction), end, start) + FracChars(v, fraction)
    ensures forall k :: 0 <= k < at || at + 3 * (end - start) + fraction + PointLen(fraction) <= k < target.Length
                    ==> target[k] == old(target[k])
  {
    hide LaterFields, LeadingValue, FracChars, DropDigits, DecVal, Digits;
    var whole, rest := SplitFraction(v, fraction);
    var fracAt := at + 3 * (end - start);
    ghost var stop := fracAt + fraction + PointLen(fraction);
    PutFraction(target, fracAt, fraction, v, rest);
    assert target[fracAt..stop] == FracChars(v, fraction);
    leading := PrependLater(target, at, whole, start, end, stop);
  }

  method PutText(target: array<char>, t0: nat, value: int, precision: nat, fraction: nat, start: int, end: int)
    returns (ok: bool)
    requires 1 <= start <= end <= 6 && fraction <= 18 && -INT64_MAX <= value <= INT64_MAX
    requires t0 + TextLength(value, precision, fraction, start, end) <= target.Length
    modifies target
    ensures ok <==> NumDigits(LeadingValue(DropDigits(Abs(value), fraction), end, start)) <= precision
    ensures ok ==> target[t0..t0 + TextLength(value, precision, fraction, start, end)] ==
                   IntervalChars(value, precision, fraction, start, end)
    ensures forall k :: 0 <= k < t0 || t0 + TextLength(value, precision, fraction, start, end) <= k < target.Length
                    ==> target[k] == old(target[k])
  {
    hide LeadingValue, DropDigits, NumDigits, UnsignedChars;
    ghost var stop := t0 + TextLength(value, precision, fraction, start, end);
    ok := PutBody(target, t0 + MinusWidth(value), Abs(value), precision, fraction, start, end);
    if ok && value < 0 {
      PutChar(target, t0, '-', stop - t0 - 1);
    }
  }

  method ConvIntervalToAscii(source: seq<Byte>, precision: nat, fraction: nat, sourceType: int,
                             target: array<char>, targetLen: nat, leftPad: bool)
    returns (status: IntervalStatus)
    requires targetLen <= target.Length && fraction <= 18 && precision + 17 <= 0x7fff
    requires SignedLE(source) != -0x8000_0000_0000_0000
    modifies target
    ensures status == IntervalBadLength <==> |source| != 2 && |source| != 4 && |source| != 8
    ensures var start, end := StartField(sourceType), EndField(sourceType);
            var need := TextLength(SignedLE(source), precision, fraction, start, end);
            status != IntervalBadLength ==>
              && (status == IntervalOk <==>
                    need <= targetLen
                    && NumDigits(LeadingValue(DropDigits(Abs(SignedLE(source)), fraction), end, start)) <= precision)
              && (status == IntervalOk ==>
                    target[..targetLen] == Fillers(' ', targetLen - need)
                                           + IntervalChars(SignedLE(source), precision, fraction, start, end))
    ensures forall k :: targetLen <= k < target.Length ==> target[k] == old(target[k])
  {
    hide SignedLE, NumDigits, LeadingValue, DropDigits, IntervalChars;
    if |source| != 2 && |source| != 4 && |source| != 8 {
      return IntervalBadLength;
    }
    SignedLERange(source);
    var value := SignedLE(source);
    var start, end := StartField(sourceType), EndField(sourceType);
    var need := TextLength(value, precision, fraction, start, end);
    if targetLen < need {
      return IntervalOverflow;
    }
    // Left padding and flushing right come to the same blanks, so `leftPad` does not show in the
    // text; and as the text is known to fit, the loop that would cut the fraction never runs.
    var t0, room := 0, targetLen;
    if leftPad && room > need {
      Fill(target, 0, room - need, ' ');
      t0, room := room - need, need;
    }
    Fill(target, t0, room - need, ' ');
    t0 := t0 + (room - need);
    assert target[..t0] == Fillers(' ', t0);
    ghost var blanks := target[..t0];
    var ok := PutText(target, t0, value, precision, fraction, start, end);
    if !ok {
      return IntervalOverflow;
    }
    assert target[..t0] == blanks;
    assert target[..targetLen] == target[..t0] + target[t0..targetLen];
    status := IntervalOk;
  }
}
