/**
 64-bit integers to text: digit counting by table and the converter with sign, filler, padding side
 and scale.
 */
module Int64Text {
  import opened Arithmetic
  import opened Positional
  import opened DecimalText

  const INT64_MAX: int := 0x7fff_ffff_ffff_ffff
  type Int64 = x: int | -0x8000_0000_0000_0000 <= x <= 0x7fff_ffff_ffff_ffff

  const DEC_VALUE: seq<int> := [
    0, 9, 99, 999, 9999, 99999, 999999, 9999999, 99999999, 999999999, 9999999999, 99999999999,
    999999999999, 9999999999999, 99999999999999, 999999999999999, 9999999999999999,
    99999999999999999, 999999999999999999]

  /** `n` is the number of decimal digits of `v`; zero has one. */
  ghost predicate HasDigits(v: nat, n: nat) {
    1 <= n && v < Pow10(n) && (n > 1 ==> v >= Pow10(n - 1))
  }

  lemma TableIsPowers()
    ensures |DEC_VALUE| == 19
    ensures forall i :: 1 <= i <= 18 ==> DEC_VALUE[i] == Pow10(i) - 1
    ensures INT64_MAX < Pow10(19)
  {
    assert Pow10(1) == 10;
    assert Pow10(2) == 100;
    assert Pow10(3) == 1000;
    assert Pow10(4) == 10000;
    assert Pow10(5) == 100000;
    assert Pow10(6) == 1000000;
    assert Pow10(7) == 10000000;
    assert Pow10(8) == 100000000;
    assert Pow10(9) == 1000000000;
    assert Pow10(10) == 10000000000;
    assert Pow10(11) == 100000000000;
    assert Pow10(12) == 1000000000000;
    assert Pow10(13) == 10000000000000;
    assert Pow10(14) == 100000000000000;
    assert Pow10(15) == 1000000000000000;
    assert Pow10(16) == 10000000000000000;
    assert Pow10(17) == 100000000000000000;
    assert Pow10(18) == 1000000000000000000;
    assert Pow10(19) == 10000000000000000000;
  }

  method GetDigitCount(value: nat) returns (n: nat)
    requires value <= INT64_MAX
    ensures HasDigits(value, n)
  {
    TableIsPowers();
    var i := 4;
    while i <= 16
      invariant i == 4 || i == 8 || i == 12 || i == 16 || i == 20
      invariant i > 4 ==> value > DEC_VALUE[i - 4]
    {
      if value <= DEC_VALUE[i] {
        if value <= DEC_VALUE[i - 3] {
          return i - 3;
        }
        if value <= DEC_VALUE[i - 2] {
          return i - 2;
        }
        if value <= DEC_VALUE[i - 1] {
          return i - 1;
        } else {
          return i;
        }
      }
      i := i + 4;
    }
    if value <= DEC_VALUE[17] {
      return 17;
    }
    if value <= DEC_VALUE[18] {
      return 18;
    }
    n := 19;
  }

  lemma NextDigit(v: nat, n: nat)
    ensures Digits(v, n + 1) == [DropDigits(v, n) % 10] + Digits(v, n)
    ensures DropDigits(v, n + 1) == DropDigits(v, n) / 10
    ensures ToChars(Digits(v, n + 1)) == [CharOf(DropDigits(v, n) % 10)] + ToChars(Digits(v, n))
  {
    var rest := DropDigits(v, n);
    DigitsSplit(v, 1, n);
    DropDigitsAdd(v, n, 1);
    assert Digits(rest, 1) == [rest % 10] by { assert Digits(rest / 10, 0) == []; }
    assert Digits(v, n + 1) == Digits(v, 1 + n);
    assert DropDigits(rest, 1) == rest / 10 by { assert DropDigits(rest / 10, 0) == rest / 10; }
  }

  /** Writes `count` digits of `v` ending at position `hi`, from the right. */
  method WriteDigits(target: array<char>, hi: int, count: nat, v: nat) returns (rest: nat)
    requires 0 <= hi - count + 1 && hi < target.Length
    modifies target
    ensures target[hi - count + 1..hi + 1] == ToChars(Digits(v, count))
    ensures rest == DropDigits(v, count)
    ensures forall k :: 0 <= k <= hi - count || hi < k < target.Length ==> target[k] == old(target[k])
  {
    rest := v;
    var pos := hi;
    while pos > hi - count
      invariant hi - count <= pos <= hi
      invariant rest == DropDigits(v, hi - pos)
      invariant target[pos + 1..hi + 1] == ToChars(Digits(v, hi - pos))
      invariant forall k :: 0 <= k <= hi - count || hi < k < target.Length ==> target[k] == old(target[k])
    {
      ghost var tail := target[pos + 1..hi + 1];
      NextDigit(v, hi - pos);
      target[pos] := CharOf(rest % 10);
      assert target[pos..hi + 1] == [target[pos]] + tail;
      rest := rest / 10;
      pos := pos - 1;
    }
  }

  /** The digits of `v` in `n` places with a point before the last `scale` of them. */
  function PointedChars(v: nat, n: nat, scale: nat): (s: string)
    requires scale <= n
    ensures |s| == n + if scale > 0 then 1 else 0
  {
    var ds := Digits(v, n);
    ToChars(ds[..n - scale]) + if scale > 0 then "." + ToChars(ds[n - scale..]) else ""
  }

  function Abs(x: int): nat {
    if x < 0 then -x else x
  }

  function PointLen(scale: nat): nat {
    if scale > 0 then 1 else 0
  }

  /** The smallest negative number is printed through its neighbour, whose last digit is then raised. */
  lemma NeighbourDigits(v: nat, n: nat, scale: nat)
    requires 1 <= n && scale <= n && v % 10 == 7
    ensures PointedChars(v + 1, n, scale) == PointedChars(v, n, scale)[n + PointLen(scale) - 1 := '8']
    ensures PointedChars(v, n, scale)[n + PointLen(scale) - 1] == '7'
  {
    var a, b := Digits(v, n), Digits(v + 1, n);
    var head := Digits(v / 10, n - 1);
    assert a == head + [7] && b == head + [8];
    assert ToChars([8]) == "8" && ToChars([7]) == "7";
    if scale == 0 {
      assert a[..n] == a && b[..n] == b;
    } else {
      assert a[..n - scale] == b[..n - scale];
    }
  }

  function FracChars(v: nat, scale: nat): (s: string)
    ensures |s| == scale + PointLen(scale)
  {
    if scale > 0 then "." + ToChars(Digits(v, scale)) else ""
  }

  lemma PointedSplit(v: nat, n: nat, scale: nat)
    requires scale <= n
    ensures PointedChars(v, n, scale) == ToChars(Digits(DropDigits(v, scale), n - scale)) + FracChars(v, scale)
    ensures DropDigits(DropDigits(v, scale), n - scale) == DropDigits(v, n)
  {
    DigitsSplit(v, n - scale, scale);
    DropDigitsAdd(v, scale, n - scale);
    assert Digits(v, n)[..n - scale] == Digits(DropDigits(v, scale), n - scale);
    assert Digits(v, n)[n - scale..] == Digits(v, scale);
  }

  method WriteFraction(target: array<char>, hi: int, scale: nat, v: nat) returns (currPos: int, rest: nat)
    requires 0 <= hi - scale - PointLen(scale) + 1 && hi < target.Length
    modifies target
    ensures currPos == hi - scale - PointLen(scale)
    ensures target[currPos + 1..hi + 1] == FracChars(v, scale)
    ensures rest == DropDigits(v, scale)
    ensures forall k :: 0 <= k <= currPos || hi < k < target.Length ==> target[k] == old(target[k])
  {
    rest, currPos := v, hi;
    if scale > 0 {
      rest := WriteDigits(target, currPos, scale, rest);
      currPos := currPos - scale;
      ghost var digits := target[currPos + 1..hi + 1];
      target[currPos] := '.';
      assert target[currPos..hi + 1] == "." + digits;
      currPos := currPos - 1;
    }
  }

  /** Writes fraction, point and whole digits so that they end at `hi`. */
  method WriteNumber(target: array<char>, hi: int, v: nat, n: nat, scale: nat) returns (rest: nat)
    requires scale <= n && 0 <= hi - n - PointLen(scale) + 1 && hi < target.Length
    modifies target
    ensures target[hi - n - PointLen(scale) + 1..hi + 1] == PointedChars(v, n, scale)
    ensures rest == DropDigits(v, n)
    ensures forall k :: 0 <= k <= hi - n - PointLen(scale) || hi < k < target.Length ==> target[k] == old(target[k])
  {
    ghost var high := DropDigits(v, scale);
    ghost var whole, frac := ToChars(Digits(high, n - scale)), FracChars(v, scale);
    var currPos;
    currPos, rest := WriteFraction(target, hi, scale, v);
    rest := WriteDigits(target, currPos, n - scale, rest);
    assert target[currPos + 1..hi + 1] == frac;
    ghost var low := currPos + 1 - (n - scale);
    assert target[low..hi + 1] == target[low..currPos + 1] + target[currPos + 1..hi + 1] == whole + frac;
    PointedSplit(v, n, scale);
  }

  datatype Int64Status = Int64Ok | Int64Overflow

  function Fillers(filler: char, n: nat): string {
    seq(n, _ => filler)
  }

  function SignText(source: int, leadingSign: bool): string {
    if source < 0 then "-" else if leadingSign then "+" else ""
  }

  /**
   What stands in front of a number of `width` characters, `was` being what the field held before.
   A negative number that is left-padded without a leading sign gets its sign next to the digits, and
   the first character of the field is then not written at all.
   */
  function FieldFront(was: string, source: int, width: nat, filler: char, leadingSign: bool, leftPad: bool): (s: string)
    requires |SignText(source, leadingSign)| + width <= |was|
    ensures |s| == if leftPad then |was| - width else |SignText(source, leadingSign)|
  {
    var sign := SignText(source, leadingSign);
    var pad := |was| - |sign| - width;
    if !leftPad then sign
    else if leadingSign || pad == 0 || source >= 0 then sign + Fillers(filler, pad)
    else was[..1] + Fillers(filler, pad - 1) + "-"
  }

  /** The field as the converter leaves it. */
  function Int64Field(was: string, source: int, number: string, filler: char, leadingSign: bool, leftPad: bool):
    (f: string)
    requires |SignText(source, leadingSign)| + |number| <= |was|
    ensures |f| == |was|
  {
    var front := FieldFront(was, source, |number|, filler, leadingSign, leftPad);
    front + number + Fillers(filler, |was| - |front| - |number|)
  }

  /**
   Where the parts of a field stand: the number at its right or left end, a leading sign first, and
   everything else filler but for the sign and the one character that is not written.
   */
  lemma FieldLayout(was: string, source: int, number: string, filler: char, leadingSign: bool, leftPad: bool, k: nat)
    requires |SignText(source, leadingSign)| + |number| <= |was| && k < |was|
    ensures var f := Int64Field(was, source, number, filler, leadingSign, leftPad);
            var at := if leftPad then |was| - |number| else |SignText(source, leadingSign)|;
            && f[at..at + |number|] == number
            && (leadingSign ==> f[0] == if source < 0 then '-' else '+')
            && (source < 0 && !leadingSign ==> f[at - 1] == '-')
            && (at <= k < at + |number| || f[k] == filler || (k == 0 && (leadingSign || source < 0)) ||
                (source < 0 && k == at - 1))
  {
  }

  /** No narrower number has the digits and the scale. */
  lemma WidthIsLeast(v: nat, n: nat, scale: nat, m: nat)
    requires HasDigits(v, n) && 1 <= m && scale <= m && v < Pow10(m)
    ensures Larger(n, scale) <= m && v < Pow10(Larger(n, scale))
  {
    if m < n { Pow10Monotone(m, n - 1); }
    Pow10Monotone(n, Larger(n, scale));
  }

  method Fill(target: array<char>, start: nat, count: nat, filler: char)
    requires start + count <= target.Length
    modifies target
    ensures forall k :: start <= k < start + count ==> target[k] == filler
    ensures forall k :: 0 <= k < start || start + count <= k < target.Length ==> target[k] == old(target[k])
  {
    var i := 0;
    while i < count
      invariant 0 <= i <= count
      invariant forall k :: start <= k < start + i ==> target[k] == filler
      invariant forall k :: 0 <= k < start || start + count <= k < target.Length ==> target[k] == old(target[k])
    {
      target[start + i] := filler;
      i := i + 1;
    }
  }

  /** The field character by character: number at `left`, filler from `padAt` on, sign at `signAt`. */
  ghost predicate Laid(f: string, was: string, number: string, filler: char, sign: string,
                       left: nat, padAt: nat, pad: nat, signAt: nat) {
    && |f| == |was| && left + |number| <= |f| && padAt + pad <= |f|
    && (forall k :: 0 <= k < |number| ==> f[left + k] == number[k])
    && (forall k :: padAt <= k < padAt + pad ==> f[k] == filler || (sign != "" && k == signAt))
    && (sign != "" ==> signAt < |f| && f[signAt] == sign[0])
    && (0 < |f| && 0 < padAt && 0 < left && signAt != 0 ==> f[0] == was[0])
  }

  lemma LaidLeft(f: string, was: string, source: int, number: string, filler: char, leadingSign: bool)
    requires |SignText(source, leadingSign)| + |number| <= |was|
    requires var sign := SignText(source, leadingSign);
             var pad := |was| - |sign| - |number|;
             Laid(f, was, number, filler, sign, |sign|, |was| - pad, pad, 0)
    ensures f == Int64Field(was, source, number, filler, leadingSign, false)
  {
    var sign, g := SignText(source, leadingSign), Int64Field(was, source, number, filler, leadingSign, false);
    assert |g| == |f|;
    assert forall k :: 0 <= k < |number| ==> g[|sign| + k] == number[k];
    forall k | 0 <= k < |f| ensures f[k] == g[k] {
      if |sign| <= k < |sign| + |number| { assert f[|sign| + (k - |sign|)] == number[k - |sign|]; }
    }
  }

  lemma LaidRight(f: string, was: string, source: int, number: string, filler: char, leadingSign: bool)
    requires |SignText(source, leadingSign)| + |number| <= |was|
    requires var sign := SignText(source, leadingSign);
             var pad := |was| - |sign| - |number|;
             Laid(f, was, number, filler, sign, pad + |sign|, |sign|, pad, if leadingSign then 0 else pad)
    ensures f == Int64Field(was, source, number, filler, leadingSign, true)
  {
    var sign, g := SignText(source, leadingSign), Int64Field(was, source, number, filler, leadingSign, true);
    var pad := |was| - |sign| - |number|;
    assert |g| == |f|;
    forall k | 0 <= k < |f| ensures f[k] == g[k] {
      if pad + |sign| <= k { assert f[pad + |sign| + (k - pad - |sign|)] == number[k - pad - |sign|]; }
    }
  }

  lemma LaidIsField(f: string, was: string, source: int, number: string, filler: char, leadingSign: bool, leftPad: bool)
    requires |SignText(source, leadingSign)| + |number| <= |was|
    requires var sign := SignText(source, leadingSign);
             var pad := |was| - |sign| - |number|;
             var left := if leftPad then pad + |sign| else |sign|;
             Laid(f, was, number, filler, sign, left, if leftPad then |sign| else |was| - pad, pad,
                  if leadingSign || !leftPad then 0 else pad)
    ensures f == Int64Field(was, source, number, filler, leadingSign, leftPad)
  {
    hide Laid, Int64Field, SignText;
    if leftPad {
      LaidRight(f, was, source, number, filler, leadingSign);
    } else {
      LaidLeft(f, was, source, number, filler, leadingSign);
    }
  }

  /** Writes filler, then the digits, then the sign, each at its place in the field. */
  method Assemble(target: array<char>, base: nat, targetLen: nat, v: nat, n: nat, scale: nat,
                  left: nat, padAt: nat, pad: nat, filler: char, sign: string, signAt: nat)
    returns (rest: nat)
    requires base + targetLen <= target.Length && 1 <= n && scale <= n && |sign| <= 1
    requires left + n + PointLen(scale) <= targetLen && padAt + pad <= targetLen && signAt < targetLen
    requires left + n + PointLen(scale) <= padAt || padAt + pad <= left
    requires signAt < left || sign == ""
    modifies target
    ensures Laid(target[base..base + targetLen], old(target[base..base + targetLen]), PointedChars(v, n, scale), filler,
                 sign, left, padAt, pad, signAt)
    ensures rest == DropDigits(v, n)
    ensures forall k :: 0 <= k < base || base + targetLen <= k < target.Length ==> target[k] == old(target[k])
  {
    hide PointedChars, DropDigits, PointLen;
    ghost var number := PointedChars(v, n, scale);
    ghost var width := n + PointLen(scale);
    Fill(target, base + padAt, pad, filler);
    rest := WriteNumber(target, base + left + n + PointLen(scale) - 1, v, n, scale);
    assert forall k :: 0 <= k < width ==> target[base + left + k] == number[k] by {
      ghost var t := target[base + left..base + left + width];
      assert forall k :: 0 <= k < width ==> t[k] == target[base + left + k];
    }
    if sign != "" {
      target[base + signAt] := sign[0];
    }
    ghost var f := target[base..base + targetLen];
    assert forall k :: 0 <= k < targetLen ==> f[k] == target[base + k];
    assert forall k :: 0 <= k < width ==> f[left + k] == number[k];
  }

  lemma LastOfMiddle(front: string, number: string, back: string, c: char)
    requires number != ""
    ensures var s, r := front + number + back, |front| + |number| - 1;
            && s[r] == number[|number| - 1]
            && s[r := c] == front + number[|number| - 1 := c] + back
  {
  }

  /** Lays a number out in a field that has room for it. */
  method PlaceNumber(target: array<char>, base: nat, targetLen: nat, v: nat, n: nat, scale: nat, source: int,
                     filler: char, leadingSign: bool, leftPad: bool)
    returns (rest: nat)
    requires base + targetLen <= target.Length && 1 <= n && scale <= n
    requires |SignText(source, leadingSign)| + n + PointLen(scale) <= targetLen
    modifies target
    ensures target[base..base + targetLen] ==
            Int64Field(old(target[base..base + targetLen]), source, PointedChars(v, n, scale), filler,
                       leadingSign, leftPad)
    ensures rest == DropDigits(v, n)
    ensures forall k :: 0 <= k < base || base + targetLen <= k < target.Length ==> target[k] == old(target[k])
  {
    ghost var was := target[base..base + targetLen];
    var signText := SignText(source, leadingSign);
    var sign := |signText|;
    var padLen := targetLen - sign - n - PointLen(scale);
    var leftMost := if leftPad then padLen + sign else sign;
    var start := if leftPad then sign else targetLen - padLen;
    var signAt := if leadingSign || !leftPad then 0 else padLen;
    rest := Assemble(target, base, targetLen, v, n, scale, leftMost, start, padLen, filler, signText, signAt);
    LaidIsField(target[base..base + targetLen], was, source, PointedChars(v, n, scale), filler, leadingSign, leftPad);
  }

  /** The absolute value, or for the smallest number its neighbour, and how many digits it has. */
  method Magnitude64(source: Int64) returns (newSource: nat, digitCnt: nat, fixRightMost: bool)
    ensures fixRightMost <==> source == -0x8000_0000_0000_0000
    ensures newSource == if fixRightMost then INT64_MAX else Abs(source)
    ensures HasDigits(newSource, digitCnt) && HasDigits(Abs(source), digitCnt)
  {
    if source == -0x8000_0000_0000_0000 {
      TableIsPowers();
      newSource, digitCnt, fixRightMost := INT64_MAX, 19, true;
    } else {
      newSource, fixRightMost := Abs(source), false;
      digitCnt := GetDigitCount(newSource);
    }
  }

  /** Converts a 64-bit integer; `base` is where the field starts in the buffer. */
  method ConvInt64ToAscii(target: array<char>, base: nat, targetLen: nat, source: Int64, scale: nat,
                          filler: char, leadingSign: bool, leftPad: bool)
    returns (status: Int64Status, ghost n: nat)
    requires base + targetLen <= target.Length
    modifies target
    ensures HasDigits(Abs(source), n)
    ensures status == Int64Ok <==>
            |SignText(source, leadingSign)| + Larger(n, scale) + PointLen(scale) <= targetLen
    ensures status == Int64Ok ==>
              target[base..base + targetLen] ==
              Int64Field(old(target[base..base + targetLen]), source,
                         PointedChars(Abs(source), Larger(n, scale), scale),
                         filler, leadingSign, leftPad)
    ensures forall k :: 0 <= k < base || base + targetLen <= k < target.Length ==> target[k] == old(target[k])
  {
    var newSource, digitCnt, fixRightMost := Magnitude64(source);
    n := digitCnt;
    var requiredDigits := if scale > digitCnt then digitCnt + (scale - digitCnt) else digitCnt;
    var padLen := targetLen - |SignText(source, leadingSign)| - requiredDigits - PointLen(scale);
    if padLen < 0 {
      return Int64Overflow, n;
    }
    assert INT64_MAX % 10 == 7;
    var rest := PlaceAndFix(target, base, targetLen, newSource, requiredDigits, scale, source, filler, leadingSign,
                           leftPad, fixRightMost);
    Pow10Monotone(digitCnt, requiredDigits);
    DropDigitsAll(newSource, requiredDigits);
    status := if rest != 0 then Int64Overflow else Int64Ok;
  }

  /** Lays the number out and raises its last digit when it stands for its neighbour. */
  method PlaceAndFix(target: array<char>, base: nat, targetLen: nat, v: nat, n: nat, scale: nat, source: int,
                     filler: char, leadingSign: bool, leftPad: bool, fixRightMost: bool)
    returns (rest: nat)
    requires base + targetLen <= target.Length && 1 <= n && scale <= n
    requires |SignText(source, leadingSign)| + n + PointLen(scale) <= targetLen
    requires fixRightMost ==> v % 10 == 7
    modifies target
    ensures var shown := if fixRightMost then v + 1 else v;
            target[base..base + targetLen] ==
            Int64Field(old(target[base..base + targetLen]), source, PointedChars(shown, n, scale), filler,
                       leadingSign, leftPad)
    ensures rest == DropDigits(v, n)
    ensures forall k :: 0 <= k < base || base + targetLen <= k < target.Length ==> target[k] == old(target[k])
  {
    ghost var was := target[base..base + targetLen];
    rest := PlaceNumber(target, base, targetLen, v, n, scale, source, filler, leadingSign, leftPad);
    if fixRightMost {
      FieldOfNeighbour(was, v, n, scale, source, filler, leadingSign, leftPad);
      var rightMost := if leftPad then targetLen - 1 else |SignText(source, leadingSign)| + n + PointLen(scale) - 1;
      FixRightMost(target, base, targetLen, rightMost, target[base..base + targetLen]);
    }
  }

  /** Raising the last digit in the field of the neighbour gives the field of the next number. */
  lemma FieldOfNeighbour(was: string, v: nat, n: nat, scale: nat, source: int, filler: char,
                         leadingSign: bool, leftPad: bool)
    requires 1 <= n && scale <= n && |SignText(source, leadingSign)| + n + PointLen(scale) <= |was|
    requires v % 10 == 7
    ensures var f := Int64Field(was, source, PointedChars(v, n, scale), filler, leadingSign, leftPad);
            var r := if leftPad then |was| - 1 else |SignText(source, leadingSign)| + n + PointLen(scale) - 1;
            && f[r] == '7'
            && f[r := '8'] == Int64Field(was, source, PointedChars(v + 1, n, scale), filler, leadingSign, leftPad)
  {
    hide PointedChars, Fillers, SignText;
    var number := PointedChars(v, n, scale);
    var front := FieldFront(was, source, |number|, filler, leadingSign, leftPad);
    var back := Fillers(filler, |was| - |front| - |number|);
    NeighbourDigits(v, n, scale);
    LastOfMiddle(front, number, back, '8');
  }

  method FixRightMost(target: array<char>, base: nat, targetLen: nat, rightMost: nat, ghost f: string)
    requires base + targetLen <= target.Length && rightMost < targetLen
    requires target[base..base + targetLen] == f && f[rightMost] == '7'
    modifies target
    ensures target[base..base + targetLen] == f[rightMost := '8']
    ensures forall k :: 0 <= k < base || base + targetLen <= k < target.Length ==> target[k] == old(target[k])
  {
    assert f[rightMost] == target[base + rightMost];
    if target[base + rightMost] == '7' {
      target[base + rightMost] := '8';
    }
  }
}
