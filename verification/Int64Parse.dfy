/** When the text parser reads a printed 64-bit number back, for every filler and every way of padding. */
module Int64Parse {
  import opened Arithmetic
  import opened Positional
  import opened DecimalText
  import opened DecimalMeaning
  import opened DecimalAccept
  import DecimalPrint
  import opened Int64Text

  function SignOf(source: int, leadingSign: bool): Sign {
    if source < 0 then Minus else if leadingSign then Plus else NoSign
  }

  lemma PointedIsNumber(v: nat, n: nat, scale: nat)
    requires scale <= n
    ensures PointedChars(v, n, scale) == Number(Digits(v, n)[..n - scale], scale > 0, Digits(v, n)[n - scale..])
  {
  }

  /** Parsing the field gives the number: accepted, nothing cut off, its digits and its sign. */
  ghost predicate Reads(f: string, source: int, len: nat, scale: nat) {
    var r := ParseDec(f, len, scale);
    r.status == Ok && !r.truncated && DecVal(r.digits) == Abs(source) && (r.negative <==> source < 0)
  }

  /** For a decimal text that is a question of its value and its sign. */
  lemma ReadsIff(t: DecText, source: int, len: nat, scale: nat)
    requires WellFormed(t) && 1 <= len && scale <= len && Abs(source) < Pow10(len)
    requires t.sign == Minus ==> source != 0
    ensures Reads(Render(t), source, len, scale) <==>
            Scaled(t, scale) == Abs(source) && Exact(t, scale) && (t.sign == Minus <==> source < 0)
  {
    hide ParseDec, WellFormed, Render, Scaled, Exact, Pow10, DecVal;
    ParseMeaning(t, len, scale);
  }

  // --- where characters can stand in a decimal text ---

  lemma RenderAt(t: DecText, k: nat)
    requires k < |Render(t)|
    ensures var b := t.lead + |Core(t)|;
            Render(t)[k] == if t.lead <= k < b then Core(t)[k - t.lead] else ' '
  {
  }

  lemma CoreAt(t: DecText, k: nat)
    requires k < |Core(t)|
    ensures var s, c := |SignChars(t.sign)|, Core(t)[k];
            && (c == '+' || c == '-' <==> k < s) && (c == '.' <==> t.point && k == s + |t.whole|)
            && (c == '+' || c == '-' || c == '.' || IsDigit(c)) && c != ' '
  {
    var s := |SignChars(t.sign)|;
    if k >= s { assert Core(t)[k] == Number(t.whole, t.point, t.frac)[k - s]; }
  }

  /** Nothing but blanks, signs, points and digits; one point; a sign only in front; blanks only outside. */
  ghost predicate Shaped(f: string) {
    && (forall i :: 0 <= i < |f| ==> f[i] == ' ' || f[i] == '+' || f[i] == '-' || f[i] == '.' || IsDigit(f[i]))
    && (forall i, j :: 0 <= i < j < |f| ==> f[i] != '.' || f[j] != '.')
    && (forall i, j :: 0 <= i < j < |f| && (f[j] == '+' || f[j] == '-') ==> f[i] == ' ')
    && (forall i, j, k :: 0 <= i < j < k < |f| && f[j] == ' ' ==> f[i] == ' ' || f[k] == ' ')
  }

  lemma RenderShaped(t: DecText)
    ensures Shaped(Render(t))
  {
    hide Render, Core;
    var f := Render(t);
    forall k | 0 <= k < |f|
      ensures f[k] == if t.lead <= k < t.lead + |Core(t)| then Core(t)[k - t.lead] else ' '
    {
      RenderAt(t, k);
    }
    forall k | 0 <= k < |Core(t)|
      ensures var s, c := |SignChars(t.sign)|, Core(t)[k];
              && (c == '+' || c == '-' <==> k < s) && (c == '.' <==> t.point && k == s + |t.whole|)
              && (c == '+' || c == '-' || c == '.' || IsDigit(c)) && c != ' '
    {
      CoreAt(t, k);
    }
  }

  /** A field of another shape does not read back. */
  lemma ReadsShaped(f: string, source: int, len: nat, scale: nat)
    requires 1 <= len && scale <= len && Reads(f, source, len, scale)
    ensures Shaped(f)
  {
    hide Shaped, ParseDec, Render, WellFormed, Exact, Scaled, DecVal;
    var t := UntruncatedIsDecimal(f, len, scale);
    RenderShaped(t);
  }

  // --- fillers that are digits ---

  function Repeat(d: Digit, n: nat): (ds: seq<Digit>)
    ensures |ds| == n && forall i :: 0 <= i < n ==> ds[i] == d
  {
    seq(n, _ => d)
  }

  lemma RepeatValue(d: Digit, n: nat)
    requires n > 0
    ensures DecVal(Repeat(d, n)) == 0 <==> d == 0
  {
    if d == 0 {
      assert Repeat(d, n) == Zeros(n);
      DecValZeros(n);
    } else {
      DecValLeading(Repeat(d, n));
    }
  }

  lemma FillersAreDigits(d: Digit, n: nat)
    ensures Fillers(CharOf(d), n) == ToChars(Repeat(d, n))
  {
  }

  /** Digits behind a whole number: they keep it only if all of it is zero. */
  lemma DigitsBehindWhole(ds: seq<Digit>, d: Digit, pad: nat)
    requires pad > 0
    ensures DecVal(ds + Repeat(d, pad)) == DecVal(ds) <==> d == 0 && DecVal(ds) == 0
  {
    hide DecVal, Pow10;
    DecValAppend(ds, Repeat(d, pad));
    RepeatValue(d, pad);
    TenTimes(DecVal(ds), pad, DecVal(Repeat(d, pad)));
  }

  lemma TenTimes(v: nat, pad: nat, low: nat)
    requires pad > 0
    ensures v * Pow10(pad) + low == v <==> v == 0 && low == 0
  {
    assert Pow10(pad) == 10 * Pow10(pad - 1);
    TimesAtLeast(v, Pow10(pad));
    if v > 0 {
      assert v * Pow10(pad) == v * (Pow10(pad) - 1) + v;
      TimesAtLeast(v, Pow10(pad) - 1);
    }
  }

  /** Digits behind a fraction: they are cut off, and no loss only if they are zeros. */
  lemma DigitsBehindFraction(w: seq<Digit>, frac: seq<Digit>, d: Digit, pad: nat)
    requires pad > 0
    ensures var all := frac + Repeat(d, pad);
            && DecVal(w + all) * Pow10(|frac|) / Pow10(|all|) == DecVal(w + frac)
            && (DecVal(w + all) * Pow10(|frac|) % Pow10(|all|) == 0 <==> d == 0)
  {
    hide DecVal, Pow10;
    var all := frac + Repeat(d, pad);
    assert Fit(all, |frac|) == frac;
    KeptValue(w, all, |frac|);
    NonZeroFromIff(all, |frac|);
    assert all[|frac|..] == Repeat(d, pad);
    RepeatValue(d, pad);
  }

  /** Digits in front of a number: they keep it only if they are zeros. */
  lemma DigitsInFront(ds: seq<Digit>, d: Digit, pad: nat)
    requires pad > 0
    ensures DecVal(Repeat(d, pad) + ds) == DecVal(ds) <==> d == 0
  {
    hide DecVal, Pow10;
    DecValAppend(Repeat(d, pad), ds);
    RepeatValue(d, pad);
    TimesAtLeast(DecVal(Repeat(d, pad)), Pow10(|ds|));
  }

  // --- the ways to pad ---

  /** Behind the number: blanks, zeros of a fraction or of zero, one point of a whole number. */
  predicate RightReads(source: int, pad: nat, scale: nat, filler: char) {
    || filler == ' '
    || (filler == '0' && (scale > 0 || source == 0))
    || (filler == '.' && scale == 0 && pad == 1)
  }

  /** In front of it: zeros, one point of a zero; without a sign also blanks or one character that is a sign. */
  predicate LeftReads(source: int, pad: nat, scale: nat, filler: char, sign: Sign) {
    || filler == '0'
    || (filler == '.' && scale == 0 && pad == 1 && source == 0)
    || (sign == NoSign && filler == ' ')
    || (sign == NoSign && pad == 1 && (filler == '+' || (filler == '-' && source == 0 && scale == 0)))
  }

  /** Whether the field reads back, for `pad` characters of padding and the old contents `was`. */
  predicate ReadsBack(was: string, source: int, pad: nat, scale: nat, filler: char, leadingSign: bool, leftPad: bool)
    requires pad > 0 ==> was != ""
  {
    if pad == 0 then true
    else if !leftPad then RightReads(source, pad, scale, filler)
    else if source < 0 && !leadingSign then was[0] == ' ' && (pad == 1 || filler == ' ')
    else LeftReads(source, pad, scale, filler, SignOf(source, leadingSign))
  }

  lemma SignIs(source: int, leadingSign: bool)
    ensures SignText(source, leadingSign) == SignChars(SignOf(source, leadingSign))
    ensures SignOf(source, leadingSign) == Minus <==> source < 0
    ensures source < 0 ==> SignText(source, leadingSign) == "-"
  {
  }

  /** The number as it is printed, with the digits of the source. */
  ghost predicate Printed(number: string, w: seq<Digit>, frac: seq<Digit>, source: int, n: nat, scale: nat) {
    && number == Number(w, scale > 0, frac) && |frac| == scale && |w| + scale == n >= 1
    && DecVal(w + frac) == Abs(source) < Pow10(n)
  }

  lemma PrintedNumber(source: int, n: nat, scale: nat) returns (w: seq<Digit>, frac: seq<Digit>)
    requires 1 <= n && scale <= n && Abs(source) < Pow10(n)
    ensures Printed(PointedChars(Abs(source), n, scale), w, frac, source, n, scale)
  {
    var ds := Digits(Abs(source), n);
    w, frac := ds[..n - scale], ds[n - scale..];
    PointedIsNumber(Abs(source), n, scale);
    ValOfDigits(Abs(source), n);
    assert w + frac == ds;
  }

  /** The printed number as a text of its own, between blanks. */
  lemma PlainReads(w: seq<Digit>, frac: seq<Digit>, source: int, n: nat, scale: nat, len: nat, sign: Sign,
                   lead: nat, trail: nat)
    requires Printed(Number(w, scale > 0, frac), w, frac, source, n, scale) && n <= len
    requires sign == Minus ==> source != 0
    ensures Reads(Render(DecText(lead, sign, w, scale > 0, frac, trail)), source, len, scale) <==>
            (sign == Minus <==> source < 0)
  {
    hide Reads, Scaled, Exact, Pow10, DecVal, Render;
    var t := DecText(lead, sign, w, scale > 0, frac, trail);
    assert |Core(t)| >= 1;
    DecimalPrint.ScaledAtOwnScale(t);
    Pow10Monotone(n, len);
    ReadsIff(t, source, len, scale);
  }

  // --- behind the number ---

  lemma RightDigits(w: seq<Digit>, frac: seq<Digit>, source: int, n: nat, scale: nat, len: nat, sign: Sign,
                    d: Digit, pad: nat)
    requires Printed(Number(w, scale > 0, frac), w, frac, source, n, scale) && n <= len && pad > 0
    requires sign == Minus <==> source < 0
    ensures Reads(SignChars(sign) + Number(w, scale > 0, frac) + Fillers(CharOf(d), pad), source, len, scale) <==>
            d == 0 && (scale > 0 || source == 0)
  {
    hide Reads, Pow10, DecVal, SignChars;
    var more := Repeat(d, pad);
    var t := if scale > 0 then DecText(0, sign, w, true, frac + more, 0) else DecText(0, sign, w + more, false, [], 0);
    FillersAreDigits(d, pad);
    RightText(w, frac, more, scale, sign);
    assert |Core(t)| >= 1;
    Pow10Monotone(n, len);
    ReadsIff(t, source, len, scale);
    hide Number, Render, Core;
    if scale > 0 {
      DigitsBehindFraction(w, frac, d, pad);
    } else {
      DigitsBehindWhole(w, d, pad);
      DecimalPrint.ScaledAtOwnScale(t);
      assert w + frac == w && w + more + [] == w + more;
    }
  }

  lemma RightText(w: seq<Digit>, frac: seq<Digit>, more: seq<Digit>, scale: nat, sign: Sign)
    requires |frac| == scale
    ensures var f := SignChars(sign) + Number(w, scale > 0, frac) + ToChars(more);
            f == Render(if scale > 0 then DecText(0, sign, w, true, frac + more, 0)
                        else DecText(0, sign, w + more, false, [], 0))
  {
    CharsAppend(frac, more);
    CharsAppend(w, more);
    assert Blanks(0) == "";
  }

  lemma RightIff(w: seq<Digit>, frac: seq<Digit>, source: int, n: nat, scale: nat, len: nat, sign: Sign,
                 filler: char, pad: nat)
    requires Printed(Number(w, scale > 0, frac), w, frac, source, n, scale) && n <= len && pad > 0
    requires sign == Minus <==> source < 0
    ensures Reads(SignChars(sign) + Number(w, scale > 0, frac) + Fillers(filler, pad), source, len, scale) <==>
            RightReads(source, pad, scale, filler)
  {
    hide Reads, DecVal, Pow10;
    var number := Number(w, scale > 0, frac);
    var f := SignChars(sign) + number + Fillers(filler, pad);
    if IsDigit(filler) {
      RightDigits(w, frac, source, n, scale, len, sign, DigitOf(filler), pad);
    } else if filler == ' ' {
      PlainReads(w, frac, source, n, scale, len, sign, 0, pad);
      assert f == Render(DecText(0, sign, w, scale > 0, frac, pad));
    } else if filler == '.' && scale == 0 && pad == 1 {
      RightPoint(w, frac, source, n, len, sign);
    } else {
      RightBad(w, frac, scale, sign, filler, pad);
      if Reads(f, source, len, scale) { ReadsShaped(f, source, len, scale); }
    }
  }

  lemma RightBad(w: seq<Digit>, frac: seq<Digit>, scale: nat, sign: Sign, filler: char, pad: nat)
    requires pad > 0 && !IsDigit(filler) && filler != ' ' && |frac| == scale && |w| + scale >= 1
    requires filler == '.' ==> scale > 0 || pad > 1
    ensures !Shaped(SignChars(sign) + Number(w, scale > 0, frac) + Fillers(filler, pad))
  {
    var number := Number(w, scale > 0, frac);
    var f := SignChars(sign) + number + Fillers(filler, pad);
    var s, a := |SignChars(sign)|, |SignChars(sign)| + |number|;
    assert f[a] == filler && (pad > 1 ==> f[a + 1] == filler);
    assert f[a - 1] == number[|number| - 1] && number[|number| - 1] != ' ';
    if scale > 0 { assert f[s + |w|] == '.'; }
  }

  lemma RightPoint(w: seq<Digit>, frac: seq<Digit>, source: int, n: nat, len: nat, sign: Sign)
    requires Printed(Number(w, false, frac), w, frac, source, n, 0) && n <= len && (sign == Minus <==> source < 0)
    ensures Reads(SignChars(sign) + Number(w, false, frac) + Fillers('.', 1), source, len, 0)
  {
    hide Reads, DecVal, Pow10;
    var t := DecText(0, sign, w, true, [], 0);
    assert |Core(t)| >= 1;
    assert SignChars(sign) + Number(w, false, frac) + Fillers('.', 1) == Render(t);
    DecimalPrint.ScaledAtOwnScale(t);
    assert w + [] == w + frac;
    Pow10Monotone(n, len);
    ReadsIff(t, source, len, 0);
  }

  // --- in front of the number ---

  lemma LeftDigits(w: seq<Digit>, frac: seq<Digit>, source: int, n: nat, scale: nat, len: nat, sign: Sign,
                   d: Digit, pad: nat)
    requires Printed(Number(w, scale > 0, frac), w, frac, source, n, scale) && n <= len && pad > 0
    requires sign == Minus <==> source < 0
    ensures Reads(SignChars(sign) + Fillers(CharOf(d), pad) + Number(w, scale > 0, frac), source, len, scale) <==>
            d == 0
  {
    hide Reads, Pow10, DecVal, SignChars;
    var more := Repeat(d, pad);
    var t := DecText(0, sign, more + w, scale > 0, frac, 0);
    FillersAreDigits(d, pad);
    LeftText(w, frac, more, scale, sign);
    assert |Core(t)| >= 1;
    Pow10Monotone(n, len);
    ReadsIff(t, source, len, scale);
    hide Number, Render, Core;
    DecimalPrint.ScaledAtOwnScale(t);
    assert more + w + frac == more + (w + frac);
    DigitsInFront(w + frac, d, pad);
  }

  lemma LeftText(w: seq<Digit>, frac: seq<Digit>, more: seq<Digit>, scale: nat, sign: Sign)
    ensures SignChars(sign) + ToChars(more) + Number(w, scale > 0, frac) ==
            Render(DecText(0, sign, more + w, scale > 0, frac, 0))
  {
    hide SignChars;
    CharsAppend(more, w);
    assert Blanks(0) == "";
  }

  lemma LeftPoint(w: seq<Digit>, frac: seq<Digit>, source: int, n: nat, len: nat, sign: Sign)
    requires Printed(Number(w, false, frac), w, frac, source, n, 0) && n <= len && (sign == Minus <==> source < 0)
    ensures Reads(SignChars(sign) + Fillers('.', 1) + Number(w, false, frac), source, len, 0) <==> source == 0
  {
    hide Reads, DecVal, Pow10;
    var t := DecText(0, sign, [], true, w, 0);
    assert |Core(t)| >= 1;
    assert SignChars(sign) + Fillers('.', 1) + Number(w, false, frac) == Render(t);
    assert [] + w == w + frac;
    Pow10Monotone(n, len);
    ReadsIff(t, source, len, 0);
    UnitIs();
    if source == 0 {
      DivUnique(0, 0, Pow10(n), 0);
    } else {
      DivUnique(Abs(source), 0, Pow10(n), Abs(source));
    }
  }

  lemma UnitIs()
    ensures Pow10(0) == 1
  {
  }

  /** A sign as the only filler in front of a number without one. */
  lemma LeftSign(w: seq<Digit>, frac: seq<Digit>, source: nat, n: nat, scale: nat, len: nat, sign: Sign)
    requires Printed(Number(w, scale > 0, frac), w, frac, source, n, scale) && n <= len && sign != NoSign
    ensures Reads(SignChars(sign) + Number(w, scale > 0, frac), source, len, scale) <==>
            sign == Plus || (source == 0 && scale == 0)
  {
    hide Reads, DecVal, Pow10;
    var t := DecText(0, sign, w, scale > 0, frac, 0);
    assert SignChars(sign) + Number(w, scale > 0, frac) == Render(t);
    if sign == Plus || source > 0 {
      PlainReads(w, frac, source, n, scale, len, sign, 0, 0);
    } else {
      MinusZero(w, frac, n, scale, len);
    }
  }

  lemma MinusZero(w: seq<Digit>, frac: seq<Digit>, n: nat, scale: nat, len: nat)
    requires Printed(Number(w, scale > 0, frac), w, frac, 0, n, scale) && n <= len
    ensures Reads(Render(DecText(0, Minus, w, scale > 0, frac, 0)), 0, len, scale) <==> scale == 0
  {
    hide DecVal, Pow10, ParseDec, Render, Kept, Fraction, PointIndex;
    var t := DecText(0, Minus, w, scale > 0, frac, 0);
    assert |Core(t)| >= 1;
    Pow10Monotone(n, len);
    ParseMeaning(t, len, scale);
    DecimalPrint.ScaledAtOwnScale(t);
    AllZero(w, frac);
    ParseRender(t, len, scale, |w|);
    assert w[|w|..] == [];
    if scale == 0 {
      assert Number([], false, frac) == "";
    } else {
      assert |Number([], true, frac)| >= 1;
    }
  }

  lemma AllZero(w: seq<Digit>, frac: seq<Digit>)
    requires DecVal(w + frac) == 0
    ensures w[..|w|] == Zeros(|w|)
  {
    hide DecVal, Pow10;
    DigitsOfVal(w + frac);
    ZeroDigits(|w + frac|);
    forall i | 0 <= i < |w| ensures w[i] == 0 {
      assert w[i] == (w + frac)[i];
    }
  }

  lemma ZeroDigits(n: nat)
    ensures Digits(0, n) == Zeros(n)
  {
    hide DecVal;
    DecValZeros(n);
    DigitsOfVal(Zeros(n));
  }

  lemma LeftIff(w: seq<Digit>, frac: seq<Digit>, source: int, n: nat, scale: nat, len: nat, sign: Sign,
                filler: char, pad: nat)
    requires Printed(Number(w, scale > 0, frac), w, frac, source, n, scale) && n <= len && pad > 0
    requires sign == Minus <==> source < 0
    ensures Reads(SignChars(sign) + Fillers(filler, pad) + Number(w, scale > 0, frac), source, len, scale) <==>
            LeftReads(source, pad, scale, filler, sign)
  {
    hide Reads, DecVal, Pow10;
    var number := Number(w, scale > 0, frac);
    var f := SignChars(sign) + Fillers(filler, pad) + number;
    if IsDigit(filler) {
      LeftDigits(w, frac, source, n, scale, len, sign, DigitOf(filler), pad);
    } else if filler == ' ' && sign == NoSign {
      PlainReads(w, frac, source, n, scale, len, sign, pad, 0);
      assert f == Render(DecText(pad, sign, w, scale > 0, frac, 0));
    } else if filler == '.' && scale == 0 && pad == 1 {
      LeftPoint(w, frac, source, n, len, sign);
    } else if (filler == '+' || filler == '-') && sign == NoSign && pad == 1 {
      var s := if filler == '+' then Plus else Minus;
      LeftSign(w, frac, source, n, scale, len, s);
      assert f == SignChars(s) + number;
    } else {
      LeftBad(w, frac, scale, sign, filler, pad);
      if Reads(f, source, len, scale) { ReadsShaped(f, source, len, scale); }
    }
  }

  lemma LeftBad(w: seq<Digit>, frac: seq<Digit>, scale: nat, sign: Sign, filler: char, pad: nat)
    requires pad > 0 && !IsDigit(filler) && |frac| == scale && |w| + scale >= 1
    requires filler == ' ' ==> sign != NoSign
    requires filler == '.' ==> scale > 0 || pad > 1
    requires filler == '+' || filler == '-' ==> sign != NoSign || pad > 1
    ensures !Shaped(SignChars(sign) + Fillers(filler, pad) + Number(w, scale > 0, frac))
  {
    var number := Number(w, scale > 0, frac);
    var f := SignChars(sign) + Fillers(filler, pad) + number;
    var s := |SignChars(sign)|;
    assert f[s] == filler && (pad > 1 ==> f[s + 1] == filler);
    assert f[s + pad] == number[0] && number[0] != ' ';
    if sign != NoSign { assert f[0] != ' '; }
    if scale > 0 { assert f[s + pad + |w|] == '.'; }
  }

  /** The minus next to the digits, behind what the field held and the other fillers. */
  lemma MovedIff(w: seq<Digit>, frac: seq<Digit>, source: int, n: nat, scale: nat, len: nat,
                 first: string, filler: char, pad: nat)
    requires Printed(Number(w, scale > 0, frac), w, frac, source, n, scale) && n <= len && pad > 0 && source < 0
    requires |first| == 1
    ensures Reads(first + Fillers(filler, pad - 1) + "-" + Number(w, scale > 0, frac), source, len, scale) <==>
            first[0] == ' ' && (pad == 1 || filler == ' ')
  {
    hide Reads, DecVal, Pow10;
    var number := Number(w, scale > 0, frac);
    var f := first + Fillers(filler, pad - 1) + "-" + number;
    if first[0] == ' ' && (pad == 1 || filler == ' ') {
      PlainReads(w, frac, source, n, scale, len, Minus, pad, 0);
      assert first + Fillers(filler, pad - 1) == Blanks(pad);
      assert f == Render(DecText(pad, Minus, w, scale > 0, frac, 0));
    } else {
      assert f[pad] == '-' && f[0] == first[0] && (pad > 1 ==> f[1] == filler);
      hide Number;
      assert !Shaped(f);
      if Reads(f, source, len, scale) { ReadsShaped(f, source, len, scale); }
    }
  }

  /**
   Printing a 64-bit number and parsing the field with the same scale gives the number back exactly as
   `ReadsBack` says, for every filler, sign and padding and whatever the field held before.
   */
  lemma Int64RoundTrip(was: string, source: int, n: nat, scale: nat, filler: char, leadingSign: bool, leftPad: bool,
                       len: nat)
    requires 1 <= n && scale <= n <= len && Abs(source) < Pow10(n)
    requires |SignText(source, leadingSign)| + n + PointLen(scale) <= |was|
    ensures var f := Int64Field(was, source, PointedChars(Abs(source), n, scale), filler, leadingSign, leftPad);
            var pad := |was| - |SignText(source, leadingSign)| - n - PointLen(scale);
            Reads(f, source, len, scale) <==> ReadsBack(was, source, pad, scale, filler, leadingSign, leftPad)
  {
    hide Reads, DecVal, Pow10, PointedChars, Number, SignOf, SignText, SignChars, RightReads, LeftReads;
    var number, sign := PointedChars(Abs(source), n, scale), SignOf(source, leadingSign);
    var pad := |was| - |SignText(source, leadingSign)| - n - PointLen(scale);
    var w, frac := PrintedNumber(source, n, scale);
    SignIs(source, leadingSign);
    if pad == 0 {
      PlainReads(w, frac, source, n, scale, len, sign, 0, 0);
      NoPadding(was, source, number, filler, leadingSign, leftPad, w, frac, scale);
    } else if !leftPad {
      RightIff(w, frac, source, n, scale, len, sign, filler, pad);
    } else if source < 0 && !leadingSign {
      MovedIff(w, frac, source, n, scale, len, was[..1], filler, pad);
      MovedField(was, source, number, filler, pad);
    } else {
      LeftIff(w, frac, source, n, scale, len, sign, filler, pad);
      LeftField(was, source, number, filler, leadingSign, pad);
    }
  }

  lemma NoPadding(was: string, source: int, number: string, filler: char, leadingSign: bool, leftPad: bool,
                  w: seq<Digit>, frac: seq<Digit>, scale: nat)
    requires |SignText(source, leadingSign)| + |number| == |was| && number == Number(w, scale > 0, frac)
    ensures Int64Field(was, source, number, filler, leadingSign, leftPad) ==
            Render(DecText(0, SignOf(source, leadingSign), w, scale > 0, frac, 0))
  {
    SignIs(source, leadingSign);
    hide Number, SignText, SignOf, SignChars;
    assert Blanks(0) == "" && Fillers(filler, 0) == "";
  }

  lemma LeftField(was: string, source: int, number: string, filler: char, leadingSign: bool, pad: nat)
    requires |SignText(source, leadingSign)| + |number| + pad == |was| && (leadingSign || source >= 0)
    ensures Int64Field(was, source, number, filler, leadingSign, true) ==
            SignText(source, leadingSign) + Fillers(filler, pad) + number
  {
    assert Fillers(filler, 0) == "";
  }

  lemma MovedField(was: string, source: int, number: string, filler: char, pad: nat)
    requires 1 + |number| + pad == |was| && source < 0 && pad > 0
    ensures Int64Field(was, source, number, filler, false, true) ==
            was[..1] + Fillers(filler, pad - 1) + "-" + number
  {
    assert Fillers(filler, 0) == "";
  }

  /** 5 padded to two characters with zeros behind it is not read as 5; -5 with zeros behind its sign is -5. */
  lemma ZeroFilled()
    ensures Int64Field("  ", 5, "5", '0', false, false) == "50" && !Reads("50", 5, 3, 0)
    ensures Int64Field("   ", -5, "5", '0', true, true) == "-05" && Reads("-05", -5, 3, 0)
  {
    hide Reads;
    assert Digits(5, 1) == [5] && Pow10(1) == 10;
    assert PointedChars(5, 1, 0) == "5";
    Int64RoundTrip("  ", 5, 1, 0, '0', false, false, 3);
    Int64RoundTrip("   ", -5, 1, 0, '0', true, true, 3);
    assert Int64Field("  ", 5, "5", '0', false, false) == "50";
    assert Int64Field("   ", -5, "5", '0', true, true) == "-05";
  }

  /** -5 left-padded behind its sign to three characters is not a number. */
  lemma PaddedSign()
    ensures ParseDec(Int64Field("   ", -5, "5", ' ', true, true), 3, 0).status == StringError
  {
    var f := Int64Field("   ", -5, "5", ' ', true, true);
    assert f == "- 5";
    BodyBetween(0, f, 0);
    assert Blanks(0) + f + Blanks(0) == f;
    assert Unsigned(f) == " 5" && SkipZeros(" 5") == " 5";
    assert PointIndex(" 5") == 2 by { PointIndexAt(" 5", 2); }
    assert Kept(" 5", 0) == " 5";
    assert !IsDigit(Kept(" 5", 0)[0]);
    assert forall i :: 0 <= i < 3 ==> "- 5"[i] != 'E' && "- 5"[i] != 'e';
  }
}
