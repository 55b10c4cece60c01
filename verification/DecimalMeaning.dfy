/**
 What the parser's result means. `DecText` is every decimal text without an exponent: blanks, an
 optional sign, digits, an optional point with more digits, blanks.
 */
module DecimalMeaning {
  import opened Arithmetic
  import opened Positional
  import opened DecimalText

  datatype Sign = NoSign | Plus | Minus
  datatype DecText = DecText(lead: nat, sign: Sign, whole: seq<Digit>, point: bool, frac: seq<Digit>, trail: nat)

  function Blanks(n: nat): string {
    seq(n, _ => ' ')
  }

  function SignChars(s: Sign): string {
    match s case NoSign => "" case Plus => "+" case Minus => "-"
  }

  function Number(whole: seq<Digit>, point: bool, frac: seq<Digit>): string {
    ToChars(whole) + if point then "." + ToChars(frac) else ""
  }

  function Core(t: DecText): string {
    SignChars(t.sign) + Number(t.whole, t.point, t.frac)
  }

  function Render(t: DecText): string {
    Blanks(t.lead) + Core(t) + Blanks(t.trail)
  }

  predicate WellFormed(t: DecText) {
    (t.point || t.frac == []) && Core(t) != ""
  }

  /** The magnitude in units of 10^-scale, rounded towards zero. */
  function Scaled(t: DecText, scale: nat): int {
    DecVal(t.whole + t.frac) * Pow10(scale) / Pow10(|t.frac|)
  }

  /** Whether the magnitude is a whole number of units of 10^-scale. */
  predicate Exact(t: DecText, scale: nat) {
    DecVal(t.whole + t.frac) * Pow10(scale) % Pow10(|t.frac|) == 0
  }

  /** The fraction cut or zero-extended to `scale` digits. */
  function Fit(frac: seq<Digit>, scale: nat): (r: seq<Digit>)
    ensures |r| == scale
  {
    if |frac| >= scale then frac[..scale] else frac + Zeros(scale - |frac|)
  }

  lemma CoreIsPlain(t: DecText)
    requires WellFormed(t)
    ensures forall i :: 0 <= i < |Core(t)| ==> Core(t)[i] != ' ' && Core(t)[i] != 'e' && Core(t)[i] != 'E'
    ensures !HasExponent(Core(t))
  {
  }

  lemma BodyBetween(lead: nat, body: string, trail: nat)
    requires body != "" && body[0] != ' ' && body[|body| - 1] != ' '
    ensures Body(Blanks(lead) + body + Blanks(trail)) == body
  {
    var r := Blanks(lead) + body + Blanks(trail);
    assert r[lead] == body[0];
    SkipBlanksAt(r, lead);
    var s := r[lead..];
    assert s == body + Blanks(trail);
    DropBlanksAt(s, |body|);
    assert s[..|body|] == body;
  }

  lemma BodyOfRender(t: DecText)
    requires WellFormed(t)
    ensures Body(Render(t)) == Core(t)
  {
    CoreIsPlain(t);
    BodyBetween(t.lead, Core(t), t.trail);
  }

  lemma UnsignedOfCore(t: DecText)
    requires WellFormed(t)
    ensures Unsigned(Core(t)) == Number(t.whole, t.point, t.frac)
    ensures Core(t)[0] == '-' <==> t.sign == Minus
  {
    var c, n := Core(t), Number(t.whole, t.point, t.frac);
    if t.sign == NoSign {
      assert c == n;
      assert c[0] == if t.whole != [] then CharOf(t.whole[0]) else '.';
    } else {
      assert c[1..] == n;
    }
  }

  /** Splits a digit string after its leading zeros. */
  lemma {:induction false} LeadingZeros(ds: seq<Digit>) returns (z: nat)
    ensures z <= |ds|
    ensures ds[..z] == Zeros(z)
    ensures z < |ds| ==> ds[z] != 0
  {
    z := 0;
    while z < |ds| && ds[z] == 0
      invariant z <= |ds|
      invariant forall i :: 0 <= i < z ==> ds[i] == 0
    {
      z := z + 1;
    }
  }

  lemma SignificantOfNumber(whole: seq<Digit>, point: bool, frac: seq<Digit>, z: nat)
    requires z <= |whole| && whole[..z] == Zeros(z)
    requires z < |whole| ==> whole[z] != 0
    ensures SkipZeros(Number(whole, point, frac)) == Number(whole[z..], point, frac)
  {
    var n := Number(whole, point, frac);
    forall i | 0 <= i < z ensures n[i] == '0' {
      assert whole[i] == whole[..z][i] == 0;
    }
    assert z < |whole| ==> n[z] == CharOf(whole[z]);
    SkipZerosAt(n, z);
    assert n[z..] == Number(whole[z..], point, frac);
  }

  lemma NumberParts(w: seq<Digit>, point: bool, frac: seq<Digit>)
    requires point || frac == []
    ensures var n := Number(w, point, frac);
            PointIndex(n) == |w| && n[..|w|] == ToChars(w) && Fraction(n) == ToChars(frac)
  {
    hide PointIndex;
    var n := Number(w, point, frac);
    assert point ==> n[|w|] == '.';
    PointIndexAt(n, |w|);
    assert n[..|w|] == ToChars(w);
  }

  lemma FitChars(frac: seq<Digit>, scale: nat)
    ensures var f := ToChars(frac);
            (if |f| >= scale then f[..scale] else f + seq(scale - |f|, _ => '0')) == ToChars(Fit(frac, scale))
  {
  }

  lemma CharsAppend(a: seq<Digit>, b: seq<Digit>)
    ensures ToChars(a + b) == ToChars(a) + ToChars(b)
  {
  }

  lemma KeptOfNumber(w: seq<Digit>, point: bool, frac: seq<Digit>, scale: nat)
    requires point || frac == []
    ensures Fraction(Number(w, point, frac)) == ToChars(frac)
    ensures Kept(Number(w, point, frac), scale) == ToChars(w + Fit(frac, scale))
  {
    hide Number, PointIndex, Fraction, ToChars, Fit;
    NumberParts(w, point, frac);
    FitChars(frac, scale);
    CharsAppend(w, Fit(frac, scale));
  }

  lemma {:induction false} NonZeroFromIff(frac: seq<Digit>, n: nat)
    requires n <= |frac|
    ensures NonZeroFrom(ToChars(frac), n) <==> DecVal(frac[n..]) != 0
    decreases |frac| - n
  {
    hide DecVal, Pow10;
    if n < |frac| {
      NonZeroFromIff(frac, n + 1);
      FirstDigit(frac[n], frac[n + 1..]);
      assert frac[n..] == [frac[n]] + frac[n + 1..];
    } else {
      assert frac[n..] == Zeros(0);
      DecValZeros(0);
    }
  }

  lemma FirstDigit(d: Digit, rest: seq<Digit>)
    ensures DecVal([d] + rest) != 0 <==> d != 0 || DecVal(rest) != 0
  {
    DecValAppend([d], rest);
    assert DecVal([d]) == d by { assert [d][..0] == []; }
    TimesAtLeast(d, Pow10(|rest|));
  }

  /** Cutting low digits off is rounding towards zero at the target scale. */
  lemma CutIsFloor(a: nat, b: nat, p: nat, s: nat)
    requires b < p && s >= 1
    ensures p * s >= 1
    ensures (a * p + b) * s / (p * s) == a
    ensures (a * p + b) * s % (p * s) == 0 <==> b == 0
  {
    assert (a * p + b) * s == a * (p * s) + b * s;
    assert b * s < p * s by {
      TimesAtLeast(p - b, s);
      assert (p - b) * s == p * s - b * s;
    }
    TimesAtLeast(b, s);
    DivUnique((a * p + b) * s, a, p * s, b * s);
  }

  lemma {:induction false} CutValue(w: seq<Digit>, frac: seq<Digit>, scale: nat)
    requires |frac| >= scale
    ensures DecVal(w + Fit(frac, scale)) == DecVal(w + frac) * Pow10(scale) / Pow10(|frac|)
    ensures NonZeroFrom(ToChars(frac), scale) <==> DecVal(w + frac) * Pow10(scale) % Pow10(|frac|) != 0
  {
    var kept, cut := frac[..scale], frac[scale..];
    assert w + frac == (w + kept) + cut;
    DecValAppend(w + kept, cut);
    DecValBound(cut);
    NonZeroFromIff(frac, scale);
    assert Pow10(|frac|) == Pow10(|cut|) * Pow10(scale) by { Pow10Add(|cut|, scale); }
    CutIsFloor(DecVal(w + kept), DecVal(cut), Pow10(|cut|), Pow10(scale));
  }

  lemma PaddingIsExact(x: nat, y: nat, z: nat)
    requires z >= 1
    ensures x * (y * z) / z == x * y && x * (y * z) % z == 0
  {
    assert x * (y * z) == (x * y) * z;
    DivUnique(x * (y * z), x * y, z, 0);
  }

  lemma {:induction false} PadValue(w: seq<Digit>, frac: seq<Digit>, scale: nat)
    requires |frac| < scale
    ensures DecVal(w + Fit(frac, scale)) == DecVal(w + frac) * Pow10(scale) / Pow10(|frac|)
    ensures DecVal(w + frac) * Pow10(scale) % Pow10(|frac|) == 0
  {
    var pad := scale - |frac|;
    assert w + Fit(frac, scale) == (w + frac) + Zeros(pad);
    DecValAppend(w + frac, Zeros(pad));
    DecValZeros(pad);
    assert Pow10(scale) == Pow10(pad) * Pow10(|frac|) by { Pow10Add(pad, |frac|); }
    PaddingIsExact(DecVal(w + frac), Pow10(pad), Pow10(|frac|));
  }

  /** The kept digits denote the scaled magnitude, and a lost nonzero digit is exactly inexactness. */
  lemma KeptValue(w: seq<Digit>, frac: seq<Digit>, scale: nat)
    ensures DecVal(w + Fit(frac, scale)) == DecVal(w + frac) * Pow10(scale) / Pow10(|frac|)
    ensures NonZeroFrom(ToChars(frac), scale) <==> DecVal(w + frac) * Pow10(scale) % Pow10(|frac|) != 0
  {
    if |frac| >= scale {
      CutValue(w, frac, scale);
    } else {
      PadValue(w, frac, scale);
    }
  }

  /** Kept digits overflow the field exactly when their number does. */
  lemma KeptOverflows(w: seq<Digit>, k: seq<Digit>, scale: nat, len: nat)
    requires |k| == scale && scale <= len
    requires w != [] ==> w[0] != 0
    ensures |w + k| > len <==> DecVal(w + k) >= Pow10(len)
  {
    DecValBound(w + k);
    if |w + k| > len {
      DecValLeading(w + k);
      Pow10Monotone(len, |w + k| - 1);
    } else {
      Pow10Monotone(|w + k|, len);
    }
  }

  /** The parser sees the digits after the leading zeros, whatever surrounds them. */
  lemma ParseRender(t: DecText, len: nat, scale: nat, z: nat)
    requires WellFormed(t) && 1 <= len && scale <= len
    requires z <= |t.whole| && t.whole[..z] == Zeros(z) && (z < |t.whole| ==> t.whole[z] != 0)
    ensures ParseDec(Render(t), len, scale) ==
            ParseSignificant(Number(t.whole[z..], t.point, t.frac), t.sign == Minus, len, scale)
  {
    hide Render, Core, WellFormed, Unsigned, Number, HasExponent, Body, SkipZeros, ParseSignificant;
    BodyOfRender(t);
    CoreIsPlain(t);
    UnsignedOfCore(t);
    CoreNotEmpty(t);
    SignificantOfNumber(t.whole, t.point, t.frac, z);
  }

  lemma CoreNotEmpty(t: DecText)
    requires WellFormed(t)
    ensures Core(t) != ""
  {
  }

  lemma PointOrNone(t: DecText)
    requires WellFormed(t)
    ensures t.point || t.frac == []
  {
  }

  /**
   Every well-formed text: overflow exactly when the scaled magnitude needs more than `len` digits,
   otherwise the digits of that magnitude, with truncation raised exactly when it was not exact.
   */
  lemma {:induction false} ParseMeaning(t: DecText, len: nat, scale: nat)
    requires WellFormed(t) && 1 <= len && scale <= len
    ensures ParseDec(Render(t), len, scale).status == if Scaled(t, scale) >= Pow10(len) then NumericOverflow else Ok
    ensures ParseDec(Render(t), len, scale).truncated <==> !Exact(t, scale)
    ensures Scaled(t, scale) < Pow10(len) ==>
              DecVal(ParseDec(Render(t), len, scale).digits) == Scaled(t, scale)
    ensures ParseDec(Render(t), len, scale).negative ==> t.sign == Minus
    ensures 0 < Scaled(t, scale) < Pow10(len) && t.sign == Minus ==> ParseDec(Render(t), len, scale).negative
  {
    hide Render, Core, WellFormed, Number, ParseDec, ParseSignificant, NonZeroFrom, DecVal, Pow10;
    var z := LeadingZeros(t.whole);
    var w := t.whole[z..];
    ParseRender(t, len, scale, z);
    assert DecVal(t.whole + t.frac) == DecVal(w + t.frac) by {
      assert t.whole + t.frac == Zeros(z) + (w + t.frac);
      DecValLeadingZeros(z, w + t.frac);
    }
    KeptValue(w, t.frac, scale);
    PointOrNone(t);
    SignificantMeaning(w, t.point, t.frac, t.sign == Minus, len, scale);
  }

  lemma {:induction false} SignificantMeaning(w: seq<Digit>, point: bool, frac: seq<Digit>, negative: bool, len: nat,
                                              scale: nat)
    requires (point || frac == []) && scale <= len && (w != [] ==> w[0] != 0)
    ensures var r, v := ParseSignificant(Number(w, point, frac), negative, len, scale), DecVal(w + Fit(frac, scale));
            && r.status == (if v >= Pow10(len) then NumericOverflow else Ok)
            && (r.truncated <==> NonZeroFrom(ToChars(frac), scale))
            && (v < Pow10(len) ==> DecVal(r.digits) == v)
            && (r.negative ==> negative)
            && (0 < v < Pow10(len) && negative ==> r.negative)
  {
    var m, k := Number(w, point, frac), w + Fit(frac, scale);
    KeptOfNumber(w, point, frac, scale);
    KeptOverflows(w, Fit(frac, scale), scale, len);
    if m == "" {
      DecValZeros(scale);
      DecValZeros(len);
      assert k == Zeros(scale);
    } else {
      assert ToDigits(ToChars(k)) == k;
      if |k| <= len { DecValLeadingZeros(len - |k|, k); }
    }
  }
}
