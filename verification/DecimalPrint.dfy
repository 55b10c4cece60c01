/**
 Decimal digits to text, as the LARGEDEC-to-ASCII conversion does it for a fixed-length target with
 left padding switched on (the mode the BigNum printer uses, in which no blanks are written).
 */
module DecimalPrint {
  import opened Arithmetic
  import opened Positional
  import opened BcdToBigNum
  import opened BigNumToBcd
  import opened DecimalText
  import opened DecimalMeaning

  /** Leading zeros, looking at no more than the first `limit` digits. */
  function ZerosBefore(ds: seq<Digit>, limit: int): (z: nat)
    requires limit <= |ds|
    ensures z == 0 || z <= limit
    ensures forall i :: 0 <= i < z ==> ds[i] == 0
    ensures z < limit ==> ds[z] != 0
  {
    if limit <= 0 || ds[0] != 0 then 0 else 1 + ZerosBefore(ds[1..], limit - 1)
  }

  /** The whole digits that are printed: at least one of them, when there is any. */
  function WholeDigits(ds: seq<Digit>, scale: nat): (w: seq<Digit>)
    requires scale <= |ds|
    ensures |w| <= |ds| - scale
  {
    ds[ZerosBefore(ds, |ds| - scale - 1)..|ds| - scale]
  }

  function FracDigits(ds: seq<Digit>, scale: nat): seq<Digit>
    requires scale <= |ds|
  {
    ds[|ds| - scale..]
  }

  function SignWidth(negative: bool): nat {
    if negative then 1 else 0
  }

  /** The room the converter works with: it silently widens a target shorter than digits plus sign. */
  function Room(targetLen: nat, digits: nat): nat {
    if targetLen < digits + 1 then digits + 1 else targetLen
  }

  /** How many fraction digits fit behind sign, whole digits and point. */
  function FracThatFits(room: int, negative: bool, whole: nat, scale: nat): (s: nat)
    ensures s <= scale
  {
    var pad := room - SignWidth(negative) - whole;
    if scale == 0 || pad <= 1 then 0 else if scale < pad - 1 then scale else pad - 1
  }

  function PrintDec(negative: bool, ds: seq<Digit>, scale: nat, room: nat): string
    requires scale <= |ds|
  {
    var w := WholeDigits(ds, scale);
    var s := FracThatFits(room, negative, |w|, scale);
    (if negative then "-" else "") + Number(w, s > 0, FracDigits(ds, scale)[..s])
  }

  /** The complete text of the number, as long as it needs to be. */
  function FullText(negative: bool, ds: seq<Digit>, scale: nat): DecText
    requires scale <= |ds|
  {
    DecText(0, if negative then Minus else NoSign, WholeDigits(ds, scale), scale > 0, FracDigits(ds, scale), 0)
  }

  /** The printer never runs short: sign, whole digits and what is kept of the fraction always fit. */
  lemma PrintFits(negative: bool, ds: seq<Digit>, scale: nat, targetLen: nat)
    requires scale <= |ds|
    ensures Room(targetLen, |ds|) - SignWidth(negative) - |WholeDigits(ds, scale)| >= 0
    ensures |PrintDec(negative, ds, scale, Room(targetLen, |ds|))| <= Room(targetLen, |ds|)
  {
  }

  /** Exactly when the whole fraction is printed. */
  lemma PrintComplete(negative: bool, ds: seq<Digit>, scale: nat, room: nat)
    requires scale <= |ds|
    ensures PrintDec(negative, ds, scale, room) == Render(FullText(negative, ds, scale))
            <==> scale == 0 || SignWidth(negative) + |WholeDigits(ds, scale)| + 1 + scale <= room
  {
    var w, f := WholeDigits(ds, scale), FracDigits(ds, scale);
    var s := FracThatFits(room, negative, |w|, scale);
    var text, full := PrintDec(negative, ds, scale, room), Render(FullText(negative, ds, scale));
    if s == scale {
      assert f[..s] == f;
      assert text == full;
    } else {
      assert |text| == SignWidth(negative) + |w| + if s > 0 then 1 + s else 0;
      assert |full| == SignWidth(negative) + |w| + 1 + scale;
    }
  }

  /** The text without its fraction, and with `s` digits of it, as fronts of the complete text. */
  lemma TextIsFront(negative: bool, ds: seq<Digit>, scale: nat, room: nat)
    requires scale <= |ds|
    ensures var text, full := PrintDec(negative, ds, scale, room), Render(FullText(negative, ds, scale));
            var s := FracThatFits(room, negative, |WholeDigits(ds, scale)|, scale);
            && |text| == SignWidth(negative) + |WholeDigits(ds, scale)| + (if s > 0 then 1 + s else 0)
            && |full| == SignWidth(negative) + |WholeDigits(ds, scale)| + (if scale > 0 then 1 + scale else 0)
            && text <= full && (s == 0 < scale ==> full[|text|] == '.')
  {
    hide WholeDigits, FracDigits, FracThatFits;
    var w, f := WholeDigits(ds, scale), FracDigits(ds, scale);
    var s := FracThatFits(room, negative, |w|, scale);
    FracLength(ds, scale);
    var sign := if negative then "-" else "";
    var text, full := PrintDec(negative, ds, scale, room), Render(FullText(negative, ds, scale));
    assert text == sign + (ToChars(w) + if s > 0 then "." + ToChars(f[..s]) else "");
    assert full == sign + (ToChars(w) + if scale > 0 then "." + ToChars(f) else "");
    assert ToChars(f)[..s] == ToChars(f[..s]);
  }

  lemma FracLength(ds: seq<Digit>, scale: nat)
    requires scale <= |ds|
    ensures |FracDigits(ds, scale)| == scale
  {
  }

  /**
   What is printed is the complete text, or the longest front of it that has room and does not end in
   the point.
   */
  lemma PrintLongest(negative: bool, ds: seq<Digit>, scale: nat, targetLen: nat)
    requires scale <= |ds|
    ensures var room := Room(targetLen, |ds|);
            var text, full := PrintDec(negative, ds, scale, room), Render(FullText(negative, ds, scale));
            && text <= full
            && (text == full || |text| == room || (|text| == room - 1 && full[|text|] == '.'))
  {
    hide PrintDec, Render, FullText;
    var room := Room(targetLen, |ds|);
    TextIsFront(negative, ds, scale, room);
    PrintFits(negative, ds, scale, targetLen);
  }

  /** At least one whole digit when the precision leaves room for one, and no zero in front of another digit. */
  lemma NoLeadingZeros(ds: seq<Digit>, scale: nat)
    requires scale <= |ds|
    ensures var w := WholeDigits(ds, scale);
            && (w == [] <==> scale == |ds|) && (|w| > 1 ==> w[0] != 0)
            && forall i :: 0 <= i < |ds| - scale - |w| ==> ds[i] == 0
  {
  }

  /** -123.456 in seven characters loses its last digit and nothing else. */
  lemma CutAtRoom()
    ensures PrintDec(true, [1, 2, 3, 4, 5, 6], 3, Room(7, 6)) == "-123.45"
  {
    var ds: seq<Digit> := [1, 2, 3, 4, 5, 6];
    assert ZerosBefore(ds, 2) == 0;
    assert WholeDigits(ds, 3) == [1, 2, 3] && FracDigits(ds, 3) == [4, 5, 6];
    assert ToChars([1, 2, 3]) == "123" && ToChars([4, 5]) == "45";
    assert FracDigits(ds, 3)[..2] == [4, 5];
    assert PrintDec(true, ds, 3, 7) == "-" + Number([1, 2, 3], true, [4, 5]);
  }

  /** Two characters beyond the precision are always enough. */
  lemma PrecisionPlusTwoSuffices(negative: bool, ds: seq<Digit>, scale: nat, targetLen: nat)
    requires scale <= |ds| && targetLen >= |ds| + 2
    ensures PrintDec(negative, ds, scale, Room(targetLen, |ds|)) == Render(FullText(negative, ds, scale))
  {
    PrintComplete(negative, ds, scale, targetLen);
  }

  /**
   One character beyond the precision, which the interface comment asks for, is not: -12.3 with
   precision 3 and scale 1 comes out as -12.
   */
  lemma PrecisionPlusOneLoses()
    ensures PrintDec(true, [1, 2, 3], 1, Room(4, 3)) == "-12"
    ensures Render(FullText(true, [1, 2, 3], 1)) == "-12.3"
  {
    var ds: seq<Digit> := [1, 2, 3];
    assert ZerosBefore(ds, 1) == 0;
    assert WholeDigits(ds, 1) == [1, 2] && FracDigits(ds, 1) == [3];
    assert ToChars([1, 2]) == "12" && ToChars([3]) == "3";
    assert FracDigits(ds, 1)[..0] == [];
    assert PrintDec(true, ds, 1, 4) == "-" + Number([1, 2], false, []);
    assert Number([1, 2], true, [3]) == "12.3";
  }

  lemma TimesOverItself(v: nat, p: nat)
    requires p >= 1
    ensures v * p / p == v && v * p % p == 0
  {
    assert v * p >= 0;
    DivUnique(v * p, v, p, 0);
  }

  lemma ScaledAtOwnScale(t: DecText)
    ensures Scaled(t, |t.frac|) == DecVal(t.whole + t.frac)
    ensures Exact(t, |t.frac|)
  {
    TimesOverItself(DecVal(t.whole + t.frac), Pow10(|t.frac|));
  }

  /** Dropping the leading zeros keeps the number. */
  lemma {:induction false} FullTextValue(negative: bool, ds: seq<Digit>, scale: nat)
    requires scale <= |ds| && ds != []
    ensures WellFormed(FullText(negative, ds, scale))
    ensures Scaled(FullText(negative, ds, scale), scale) == DecVal(ds)
    ensures Exact(FullText(negative, ds, scale), scale)
  {
    hide DecVal, Pow10, Scaled, Exact, WellFormed;
    var z := ZerosBefore(ds, |ds| - scale - 1);
    var w, f := WholeDigits(ds, scale), FracDigits(ds, scale);
    assert ds == Zeros(z) + (w + f);
    DecValLeadingZeros(z, w + f);
    var t := FullText(negative, ds, scale);
    assert t.whole + t.frac == w + f && |t.frac| == scale;
    ScaledAtOwnScale(t);
    FullTextWellFormed(negative, ds, scale);
  }

  lemma FullTextWellFormed(negative: bool, ds: seq<Digit>, scale: nat)
    requires scale <= |ds| && ds != []
    ensures WellFormed(FullText(negative, ds, scale))
  {
    assert scale == 0 ==> |WholeDigits(ds, scale)| >= 1;
    assert |Core(FullText(negative, ds, scale))| >= 1;
  }

  const PLUS: Byte := 43
  const MINUS: Byte := 45

  lemma {:induction false} ZerosBeforeAt(ds: seq<Digit>, limit: int, z: nat)
    requires limit <= |ds|
    requires z == 0 || z <= limit
    requires forall i :: 0 <= i < z ==> ds[i] == 0
    requires z < limit ==> ds[z] != 0
    ensures ZerosBefore(ds, limit) == z
  {
    if z > 0 { ZerosBeforeAt(ds[1..], limit - 1, z - 1); }
  }

  /** The digits `ds` stand in the buffer from `pos` on. */
  ghost predicate StoredAt(source: array<Byte>, pos: nat, ds: seq<Digit>)
    reads source
  {
    pos + |ds| <= source.Length && forall i :: 0 <= i < |ds| ==> source[pos + i] == ds[i]
  }

  method CopyChars(target: array<char>, targetPos: nat, source: array<Byte>, currPos: nat, count: nat,
                   ghost ds: seq<Digit>)
    requires StoredAt(source, currPos, ds) && |ds| == count
    requires targetPos + count <= target.Length
    modifies target
    ensures target[..targetPos + count] == old(target[..targetPos]) + ToChars(ds)
    ensures forall k :: targetPos + count <= k < target.Length ==> target[k] == old(target[k])
  {
    ghost var text, before := ToChars(ds), target[..targetPos];
    var i := 0;
    while i < count
      invariant 0 <= i <= count
      invariant StoredAt(source, currPos, ds)
      invariant target[..targetPos + i] == before + text[..i]
      invariant forall k :: targetPos + count <= k < target.Length ==> target[k] == old(target[k])
    {
      ghost var done := target[..targetPos + i];
      assert source[currPos + i] == ds[i];
      target[targetPos + i] := CharOf(source[currPos + i]);
      assert target[..targetPos + i + 1] == done + [text[i]];
      i := i + 1;
    }
    assert text[..count] == text;
  }

  /** Decides which digits are printed and how many fraction digits fit. */
  method Layout(source: array<Byte>, sourceLen: nat, sourceScale: nat, targetLen: nat)
    returns (currPos: nat, requiredDigits: int, scale: nat, padLen: int)
    requires 1 <= sourceLen <= source.Length && sourceScale < sourceLen
    requires AllDigits(source, 1, sourceLen)
    ensures currPos == 1 + ZerosBefore(DigitsAt(source, 1, sourceLen - 1), sourceLen - sourceScale - 2)
    ensures requiredDigits == sourceLen - currPos - sourceScale >= 0
    ensures scale == FracThatFits(Room(targetLen, sourceLen - 1), source[0] == MINUS, requiredDigits, sourceScale)
    ensures padLen >= 0
  {
    ghost var ds := DigitsAt(source, 1, sourceLen - 1);
    var room := if targetLen < sourceLen then sourceLen else targetLen;
    currPos := 1;
    while currPos < sourceLen - sourceScale - 1 && source[currPos] == 0
      invariant 1 <= currPos <= sourceLen
      invariant currPos > 1 ==> currPos <= sourceLen - sourceScale - 1
      invariant forall i :: 1 <= i < currPos ==> source[i] == 0
    {
      currPos := currPos + 1;
    }
    ZerosBeforeAt(ds, sourceLen - sourceScale - 2, currPos - 1);
    padLen := if source[0] == MINUS then room - 1 else room;
    requiredDigits := sourceLen - currPos - sourceScale;
    padLen := padLen - requiredDigits;
    if padLen < 0 {
      requiredDigits := requiredDigits - padLen;
    }
    scale := sourceScale;
    if scale != 0 {
      if padLen > 1 {
        padLen := padLen - 1;
        scale := if scale < padLen then scale else padLen;
        padLen := padLen - scale;
      } else {
        scale := 0;
      }
    }
  }

  method EmitFraction(target: array<char>, targetPos: nat, source: array<Byte>, currPos: nat, scale: nat,
                      ghost b: seq<Digit>)
    requires StoredAt(source, currPos, b) && |b| == scale
    requires targetPos + 1 + scale <= target.Length
    modifies target
    ensures target[..targetPos + 1 + scale] == old(target[..targetPos]) + ("." + ToChars(b))
    ensures forall k :: targetPos + 1 + scale <= k < target.Length ==> target[k] == old(target[k])
  {
    ghost var before := target[..targetPos];
    target[targetPos] := '.';
    assert target[..targetPos + 1] == before + ".";
    CopyChars(target, targetPos + 1, source, currPos, scale, b);
    assert before + "." + ToChars(b) == before + ("." + ToChars(b));
  }

  /** Writes sign, whole digits, point and fraction digits. */
  method Emit(target: array<char>, source: array<Byte>, currPos: nat, whole: nat, scale: nat, negative: bool,
              ghost a: seq<Digit>, ghost b: seq<Digit>)
    returns (length: nat)
    requires StoredAt(source, currPos, a) && |a| == whole
    requires StoredAt(source, currPos + whole, b) && |b| == scale
    requires SignWidth(negative) + whole + (if scale > 0 then 1 + scale else 0) < target.Length
    modifies target
    ensures length < target.Length && target[length] == '\0'
    ensures target[..length] == (if negative then "-" else "") + Number(a, scale > 0, b)
    ensures forall k :: length < k < target.Length ==> target[k] == old(target[k])
  {
    hide StoredAt, ToChars;
    ghost var sign := if negative then "-" else "";
    var targetPos := 0;
    if negative {
      target[0] := '-';
      targetPos := 1;
    }
    assert target[..targetPos] == sign;
    CopyChars(target, targetPos, source, currPos, whole, a);
    targetPos := targetPos + whole;
    if scale != 0 {
      EmitFraction(target, targetPos, source, currPos + whole, scale, b);
      targetPos := targetPos + 1 + scale;
    }
    assert target[..targetPos] == sign + Number(a, scale > 0, b);
    ghost var text := target[..targetPos];
    target[targetPos] := '\0';
    assert target[..targetPos] == text;
    length := targetPos;
  }

  /** The parts `Layout` chose stand in the buffer and fit into the room. */
  lemma PartsFit(source: array<Byte>, sourceLen: nat, sourceScale: nat, targetLen: nat, negative: bool, currPos: nat,
                 scale: nat)
    requires 1 <= sourceLen <= source.Length && sourceScale < sourceLen && AllDigits(source, 1, sourceLen)
    requires currPos == 1 + ZerosBefore(DigitsAt(source, 1, sourceLen - 1), sourceLen - sourceScale - 2)
    requires scale ==
             FracThatFits(Room(targetLen, sourceLen - 1), negative, sourceLen - currPos - sourceScale, sourceScale)
    ensures var ds, whole := DigitsAt(source, 1, sourceLen - 1), sourceLen - currPos - sourceScale;
            && |ds| == sourceLen - 1 && whole >= 0
            && |WholeDigits(ds, sourceScale)| == whole && StoredAt(source, currPos, WholeDigits(ds, sourceScale))
            && |FracDigits(ds, sourceScale)| == sourceScale
            && StoredAt(source, currPos + whole, FracDigits(ds, sourceScale)[..scale])
            && SignWidth(negative) + whole + (if scale > 0 then 1 + scale else 0) <= Room(targetLen, sourceLen - 1)
  {
    hide StoredAt, FracThatFits, Room, DigitsAt, ZerosBefore, WholeDigits, FracDigits, SignWidth, AllDigits;
    assert forall i :: 1 <= i < sourceLen ==> source[i] < 10 by { DigitsBelowTen(source, 1, sourceLen); }
    var ds, n := DigitsAt(source, 1, sourceLen - 1), sourceLen - 1 - sourceScale;
    PartsAre(ds, sourceScale, scale);
    var whole := sourceLen - currPos - sourceScale;
    SliceStored(source, sourceLen, currPos - 1, n);
    SliceStored(source, sourceLen, n, n + scale);
    FitsRoom(targetLen, negative, whole, sourceScale, sourceLen - 1);
  }

  lemma DigitsBelowTen(source: array<Byte>, lo: nat, hi: nat)
    requires lo <= hi <= source.Length && AllDigits(source, lo, hi)
    ensures forall i :: lo <= i < hi ==> source[i] < 10
  {
  }

  /** Whole and fraction digits as slices. */
  lemma PartsAre(ds: seq<Digit>, scale: nat, s: nat)
    requires s <= scale <= |ds|
    ensures var z, n := ZerosBefore(ds, |ds| - scale - 1), |ds| - scale;
            && z <= n && WholeDigits(ds, scale) == ds[z..n]
            && |FracDigits(ds, scale)| == scale && FracDigits(ds, scale)[..s] == ds[n..n + s]
  {
  }

  lemma SliceStored(source: array<Byte>, sourceLen: nat, i: nat, j: nat)
    requires 1 <= sourceLen <= source.Length && AllDigits(source, 1, sourceLen) && i <= j <= sourceLen - 1
    ensures |DigitsAt(source, 1, sourceLen - 1)| == sourceLen - 1
    ensures StoredAt(source, 1 + i, DigitsAt(source, 1, sourceLen - 1)[i..j])
  {
  }

  lemma FitsRoom(targetLen: nat, negative: bool, whole: nat, scale: nat, digits: nat)
    requires whole + scale <= digits
    ensures var s := FracThatFits(Room(targetLen, digits), negative, whole, scale);
            SignWidth(negative) + whole + (if s > 0 then 1 + s else 0) <= Room(targetLen, digits)
  {
  }

  method ConvLargeDecToAscii(target: array<char>, targetLen: nat, source: array<Byte>, sourceLen: nat, sourceScale: nat)
    returns (overflow: bool, length: nat)
    requires 1 <= sourceLen <= source.Length && sourceScale < sourceLen
    requires source[0] == PLUS || source[0] == MINUS
    requires AllDigits(source, 1, sourceLen)
    requires Room(targetLen, sourceLen - 1) < target.Length
    modifies target
    ensures !overflow
    ensures length < target.Length && target[length] == '\0'
    ensures target[..length] ==
            PrintDec(source[0] == MINUS, DigitsAt(source, 1, sourceLen - 1), sourceScale,
                     Room(targetLen, sourceLen - 1))
    ensures forall k :: length < k < target.Length ==> target[k] == old(target[k])
  {
    hide WholeDigits, FracDigits, FracThatFits, ZerosBefore, Room, DigitsAt, StoredAt;
    ghost var ds := DigitsAt(source, 1, sourceLen - 1);
    var currPos, whole, scale, padLen := Layout(source, sourceLen, sourceScale, targetLen);
    PartsFit(source, sourceLen, sourceScale, targetLen, source[0] == MINUS, currPos, scale);
    length := Emit(target, source, currPos, whole, scale, source[0] == MINUS,
                   WholeDigits(ds, sourceScale), FracDigits(ds, sourceScale)[..scale]);
    overflow := padLen < 0;
  }
}
