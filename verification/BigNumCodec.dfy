/**
 The conversions that callers use: BigNum to text and text to BigNum, working in place on limb,
 digit and character buffers.
 */
module BigNumCodec {
  import opened Positional
  import opened BcdToBigNum
  import opened BigNumToBcd
  import opened DecimalText
  import opened DecimalPrint
  import opened BigNumText

  /** Prints the sign, hides it from the magnitude conversion, and puts it back. */
  method ConvBigNumWithSignToBcd(source: array<Limb>, target: array<Byte>, targetLength: nat) returns (rc: int)
    requires source.Length >= 1 && 1 <= targetLength <= target.Length
    modifies source, target
    ensures source[..] == old(source[..])
    ensures rc == 0 || rc == -1
    ensures rc == -1 <==> Magnitude(source[..]) >= Pow10(targetLength - 1)
    ensures target[0] == if Negative(source[..]) then MINUS else PLUS
    ensures rc == 0 ==> AllDigits(target, 1, targetLength)
                        && DecVal(DigitsAt(target, 1, targetLength - 1)) == Magnitude(source[..])
  {
    ghost var was := source[..];
    var top := source.Length - 1;
    var sign := source[top] >= 0x8000;
    target[0] := if sign then MINUS else PLUS;
    if source[top] >= 0x8000 {
      source[top] := source[top] - 0x8000;
    }
    assert source[..] == ClearSign(was);
    rc := ConvBigNumToBcd(source, target, 1, targetLength - 1);
    if sign {
      source[top] := source[top] + 0x8000;
    }
    assert source[..] == was;
  }

  method ConvBcdToBigNumWithSign(source: array<Byte>, sourceLength: nat, target: array<Limb>) returns (rc: int)
    requires 1 <= sourceLength <= source.Length && AllDigits(source, 1, sourceLength)
    requires target.Length >= 1
    modifies target
    ensures rc == 0 || rc == -1
    ensures rc == -1 <==> DecVal(DigitsAt(source, 1, sourceLength - 1)) >= PowLimb(target.Length)
    ensures rc == 0 ==> var ls := Limbs(DecVal(DigitsAt(source, 1, sourceLength - 1)), target.Length);
                        target[..] == if source[0] == MINUS then SetSign(ls) else ls
  {
    rc := ConvBcdToBigNum(source, 1, sourceLength - 1, target);
    ghost var ls := target[..];
    if rc == 0 { LimbsOfVal(ls); }
    if source[0] == MINUS {
      var top := target.Length - 1;
      if target[top] < 0x8000 {
        target[top] := target[top] + 0x8000;
      }
      assert target[..] == SetSign(ls);
    }
  }

  /** Moves the sign flag of the parsed digits into the sign byte in front of them. */
  method SplitSign(dec: array<Byte>, precision: nat, ghost r: DecResult)
    requires dec.Length == precision + 1 && 1 <= precision
    requires Holds(dec, 1, r) && |r.digits| == precision
    modifies dec
    ensures AllDigits(dec, 1, precision + 1)
    ensures DigitsAt(dec, 1, precision) == r.digits
    ensures dec[0] == if r.negative then MINUS else PLUS
  {
    assert forall i :: 1 <= i <= precision ==> dec[i] == SignFlag(i == 1 && r.negative) + r.digits[i - 1] by {
      forall i | 1 <= i <= precision ensures dec[i] == SignFlag(i == 1 && r.negative) + r.digits[i - 1] {
        assert dec[1 + (i - 1)] == SignFlag(i - 1 == 0 && r.negative) + r.digits[i - 1];
      }
    }
    if dec[1] >= 128 {
      dec[1] := dec[1] - 128;
      dec[0] := MINUS;
    } else {
      dec[0] := PLUS;
    }
  }

  method ConvAsciiToBigNum(target: array<Limb>, precision: nat, scale: nat, source: string)
    returns (status: Status, truncated: bool)
    requires target.Length >= 1 && 1 <= precision && scale <= precision
    modifies target
    ensures status == ParseBigNum(source, target.Length, precision, scale).status
    ensures truncated == ParseBigNum(source, target.Length, precision, scale).truncated
    ensures status == Ok ==> target[..] == ParseBigNum(source, target.Length, precision, scale).limbs
  {
    ghost var r := ParseDec(source, precision, scale);
    var dec := new Byte[precision + 1];
    status, truncated := ConvAsciiToDec(dec, 1, precision, scale, source);
    if status != Ok {
      return;
    }
    SplitSign(dec, precision, r);
    var rc := ConvBcdToBigNumWithSign(dec, precision + 1, target);
    if rc == -1 {
      status := NumericOverflow;
    }
  }

  datatype PrintStatus = PrintOk | PrintNumericOverflow | PrintStringOverflow

  method ConvBigNumToAscii(target: array<char>, targetLen: nat, source: array<Limb>, precision: nat, scale: nat)
    returns (status: PrintStatus, length: nat)
    requires source.Length >= 1 && scale <= precision
    requires Room(targetLen, precision) < target.Length
    modifies source, target
    ensures source[..] == old(source[..])
    ensures status == PrintNumericOverflow <==> PrintBigNum(source[..], precision, scale, targetLen).TooLarge?
    ensures status != PrintNumericOverflow ==>
              && status == PrintOk
              && length < target.Length && target[length] == '\0'
              && Printed(target[..length]) == PrintBigNum(source[..], precision, scale, targetLen)
    ensures status == PrintNumericOverflow ==> target[..] == old(target[..])
    ensures forall k :: length < k < target.Length ==> target[k] == old(target[k])
  {
    hide PrintDec, Digits, DecVal, Pow10, Magnitude, Negative, Room;
    var dec := new Byte[precision + 1];
    var rc := ConvBigNumWithSignToBcd(source, dec, precision + 1);
    if rc == -1 {
      return PrintNumericOverflow, 0;
    }
    ghost var ds := DigitsAt(dec, 1, precision);
    DigitsOfVal(ds);
    var overflow;
    overflow, length := ConvLargeDecToAscii(target, targetLen, dec, precision + 1, scale);
    status := if overflow then PrintStringOverflow else PrintOk;
  }
}
