/**
 Sign-magnitude BigNums and their text form: the top bit of the highest limb is the sign, the other
 bits are the magnitude. Printing and parsing go through decimal digits.
 */
module BigNumText {
  import opened Positional
  import opened DecimalText
  import opened DecimalMeaning
  import opened DecimalPrint

  predicate Negative(ls: seq<Limb>)
    requires ls != []
  {
    ls[|ls| - 1] >= 0x8000
  }

  function ClearSign(ls: seq<Limb>): (r: seq<Limb>)
    requires ls != []
    ensures |r| == |ls| && !Negative(r)
  {
    if Negative(ls) then ls[|ls| - 1 := ls[|ls| - 1] - 0x8000] else ls
  }

  function SetSign(ls: seq<Limb>): (r: seq<Limb>)
    requires ls != []
    ensures |r| == |ls| && Negative(r)
  {
    if Negative(ls) then ls else ls[|ls| - 1 := ls[|ls| - 1] + 0x8000]
  }

  function Magnitude(ls: seq<Limb>): nat
    requires ls != []
  {
    LimbVal(ClearSign(ls))
  }

  function Value(ls: seq<Limb>): int
    requires ls != []
  {
    if Negative(ls) then 0 - Magnitude(ls) else Magnitude(ls)
  }

  /** The weight of the sign bit: 2^(16 n - 1). */
  function SignWeight(n: nat): nat
    requires n >= 1
  {
    0x8000 * PowLimb(n - 1)
  }

  lemma {:induction false} MagnitudeBySign(ls: seq<Limb>)
    requires ls != []
    ensures Magnitude(ls) == LimbVal(ls) - if Negative(ls) then SignWeight(|ls|) else 0
    ensures Magnitude(ls) < SignWeight(|ls|)
    ensures Negative(ls) <==> LimbVal(ls) >= SignWeight(|ls|)
  {
    var c, n, p := ClearSign(ls), |ls|, PowLimb(|ls| - 1);
    LimbValTop(ls);
    LimbValTop(c);
    assert ls[..n - 1] == c[..n - 1];
    LimbValBound(c[..n - 1]);
    TopWeight(c[n - 1], p);
  }

  lemma TopWeight(x: nat, p: nat)
    requires x < 0x8000
    ensures x * p + p <= 0x8000 * p
    ensures (x + 0x8000) * p == x * p + 0x8000 * p
  {
    assert x * p + p == (x + 1) * p;
  }

  lemma SetSignMagnitude(ls: seq<Limb>)
    requires ls != [] && !Negative(ls)
    ensures Magnitude(SetSign(ls)) == LimbVal(ls)
  {
    hide LimbVal;
    assert ClearSign(SetSign(ls)) == ls;
  }

  // --- parsing ---

  datatype BigResult = BigResult(status: Status, limbs: seq<Limb>, truncated: bool)

  function ParseBigNum(text: string, n: nat, precision: nat, scale: nat): (r: BigResult)
    ensures r.status == Ok ==> |r.limbs| == n
  {
    var d := ParseDec(text, precision, scale);
    if d.status != Ok then BigResult(d.status, [], d.truncated)
    else if DecVal(d.digits) >= PowLimb(n) then BigResult(NumericOverflow, [], d.truncated)
    else
      var ls := Limbs(DecVal(d.digits), n);
      BigResult(Ok, if d.negative && n > 0 then SetSign(ls) else ls, d.truncated)
  }

  /** Success and failure of parsing, for every well-formed text. */
  lemma {:induction false} ParseBigNumStatus(t: DecText, n: nat, precision: nat, scale: nat)
    requires WellFormed(t) && n >= 1 && 1 <= precision && scale <= precision
    ensures ParseBigNum(Render(t), n, precision, scale).status ==
            if Scaled(t, scale) >= Pow10(precision) || Scaled(t, scale) >= PowLimb(n) then NumericOverflow else Ok
    ensures ParseBigNum(Render(t), n, precision, scale).truncated <==> !Exact(t, scale)
  {
    ParseMeaning(t, precision, scale);
  }

  function Signed(t: DecText, scale: nat): int {
    if t.sign == Minus then -Scaled(t, scale) else Scaled(t, scale)
  }

  /**
   A magnitude that reaches the sign bit is accepted and silently changes its meaning: the parsed
   BigNum denotes the number in the text exactly when the magnitude is below the sign bit.
   */
  lemma {:induction false} ParsedValue(t: DecText, n: nat, precision: nat, scale: nat)
    requires WellFormed(t) && n >= 1 && 1 <= precision && scale <= precision
    requires Scaled(t, scale) < Pow10(precision) && Scaled(t, scale) < PowLimb(n)
    ensures ParseBigNum(Render(t), n, precision, scale).status == Ok
    ensures Value(ParseBigNum(Render(t), n, precision, scale).limbs) == Signed(t, scale)
            <==> Scaled(t, scale) < SignWeight(n)
  {
    ParseMeaning(t, precision, scale);
    ParseBigNumStatus(t, n, precision, scale);
    var d := ParseDec(Render(t), precision, scale);
    var v := DecVal(d.digits);
    var ls := Limbs(v, n);
    assert v == Scaled(t, scale);
    ValOfLimbs(v, n);
    MagnitudeBySign(ls);
    if !Negative(ls) { SetSignMagnitude(ls); }
    PowLimbPositiveHalf(n);
  }

  const SIGN_BIT: seq<Digit> := [3, 2, 7, 6, 8]

  lemma SignBitText()
    ensures ToChars(SIGN_BIT) == "32768" && DecVal(SIGN_BIT) == 32768
  {
    assert DecVal([3, 2, 7, 6]) == 3276 by {
      assert DecVal([3, 2]) == 32 by { assert [3, 2][..1] == [3]; }
      assert [3, 2, 7, 6][..3] == [3, 2, 7] && [3, 2, 7][..2] == [3, 2];
    }
    assert SIGN_BIT[..4] == [3, 2, 7, 6];
    assert ToChars(SIGN_BIT) == "32768";
  }

  /** "32768" is read into one limb without an error, as zero. */
  lemma SignBitLost()
    ensures var r := ParseBigNum("32768", 1, 5, 0); r.status == Ok && !r.truncated && Value(r.limbs) == 0
  {
    hide ParseDec, DecVal, ToChars;
    var t := DecText(0, NoSign, SIGN_BIT, false, [], 0);
    SignBitText();
    assert Render(t) == "32768";
    assert Pow10(5) == 100000 by { assert Pow10(3) == 1000 by { assert Pow10(1) == 10; } }
    assert PowLimb(1) == 0x1_0000;
    assert SIGN_BIT + [] == SIGN_BIT;
    assert Scaled(t, 0) == 32768;
    ParseMeaning(t, 5, 0);
    assert ParseDec("32768", 5, 0).negative == false;
    assert Limbs(32768, 1) == [0x8000];
    assert ClearSign([0x8000]) == [0];
    assert LimbVal([0]) == 0;
  }

  lemma PowLimbPositiveHalf(n: nat)
    requires n >= 1
    ensures SignWeight(n) > 0
  {
  }

  // --- printing ---

  datatype PrintResult = Printed(text: string) | TooLarge

  function PrintBigNum(ls: seq<Limb>, precision: nat, scale: nat, targetLen: nat): PrintResult
    requires ls != [] && scale <= precision
  {
    if Magnitude(ls) >= Pow10(precision) then TooLarge
    else Printed(PrintDec(Negative(ls), Digits(Magnitude(ls), precision), scale, Room(targetLen, precision)))
  }

  /** What is printed parses back to the same BigNum; only negative zero loses its sign. */
  lemma {:induction false} PrintParseRoundTrip(ls: seq<Limb>, precision: nat, scale: nat, targetLen: nat)
    requires ls != [] && 1 <= precision && scale <= precision && targetLen >= precision + 2
    requires Magnitude(ls) < Pow10(precision)
    ensures var text := PrintBigNum(ls, precision, scale, targetLen).text;
            var r := ParseBigNum(text, |ls|, precision, scale);
            && r.status == Ok && !r.truncated
            && Value(r.limbs) == Value(ls)
            && (Value(ls) != 0 || !Negative(ls) ==> r.limbs == ls)
  {
    var v, n := Magnitude(ls), |ls|;
    var ds := Digits(v, precision);
    var t := FullText(Negative(ls), ds, scale);
    ValOfDigits(v, precision);
    PrecisionPlusTwoSuffices(Negative(ls), ds, scale, targetLen);
    FullTextValue(Negative(ls), ds, scale);
    MagnitudeBySign(ls);
    ReadBack(ls, t, precision, scale);
  }

  /** A text with the sign and the magnitude of a BigNum parses to that BigNum. */
  lemma {:induction false} ReadBack(ls: seq<Limb>, t: DecText, precision: nat, scale: nat)
    requires ls != [] && 1 <= precision && scale <= precision
    requires WellFormed(t) && Exact(t, scale) && Scaled(t, scale) == Magnitude(ls) < Pow10(precision)
    requires t.sign == if Negative(ls) then Minus else NoSign
    ensures var r := ParseBigNum(Render(t), |ls|, precision, scale);
            && r.status == Ok && !r.truncated
            && Value(r.limbs) == Value(ls)
            && (Value(ls) != 0 || !Negative(ls) ==> r.limbs == ls)
  {
    hide ParseDec, Render, WellFormed, Exact, Scaled, Pow10, DecVal, LimbVal, Limbs, SignWeight;
    var v, n, c := Magnitude(ls), |ls|, ClearSign(ls);
    MagnitudeBySign(ls);
    LimbValBound(c);
    ParseMeaning(t, precision, scale);
    ParseBigNumStatus(t, n, precision, scale);
    assert Limbs(v, n) == c by { LimbsOfVal(c); }
    SetSignMagnitude(c);
    if Negative(ls) { assert SetSign(c) == ls; }
  }
}
