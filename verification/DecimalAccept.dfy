/**
 Which texts the parser accepts. Fraction characters behind the target scale are dropped without being
 looked at, except that one other than '0' counts as truncation: a decimal text that has as many
 fraction digits as the target may be followed by any characters but an exponent's.
 */
module DecimalAccept {
  import opened Positional
  import opened DecimalText
  import opened DecimalMeaning

  /** A text with something else directly behind its number. */
  function RenderWith(t: DecText, rest: string): string {
    Blanks(t.lead) + (Core(t) + rest) + Blanks(t.trail)
  }

  /** `rest` stands where the parser no longer looks. */
  predicate Unread(t: DecText, rest: string, scale: nat) {
    rest == "" || (t.point && |t.frac| == scale && !HasExponent(rest) && rest[|rest| - 1] != ' ')
  }

  predicate OnlyZeros(rest: string) {
    forall i :: 0 <= i < |rest| ==> rest[i] == '0'
  }

  // --- what is unread makes no difference ---

  lemma PlainWith(t: DecText, rest: string, scale: nat)
    requires WellFormed(t) && Unread(t, rest, scale)
    ensures var c := Core(t) + rest; c != "" && c[0] != ' ' && c[|c| - 1] != ' ' && !HasExponent(c)
  {
    CoreIsPlain(t);
    var core := Core(t);
    hide Core;
    var c := core + rest;
    assert c[0] == core[0];
    assert c[|c| - 1] == if rest == "" then core[|core| - 1] else rest[|rest| - 1];
    forall i | 0 <= i < |c| ensures c[i] != 'E' && c[i] != 'e' {
      assert c[i] == if i < |core| then core[i] else rest[i - |core|];
    }
  }

  lemma UnsignedWith(t: DecText, rest: string)
    requires WellFormed(t)
    ensures var c := Core(t) + rest;
            Unsigned(c) == Number(t.whole, t.point, t.frac) + rest && (c[0] == '-' <==> t.sign == Minus)
  {
    UnsignedOfCore(t);
    var core, n := Core(t), Number(t.whole, t.point, t.frac);
    assert core != "";
    hide Core, Number;
    var c := core + rest;
    assert c[0] == core[0];
    if c[0] == '+' || c[0] == '-' { assert c[1..] == core[1..] + rest; }
  }

  lemma SignificantWith(whole: seq<Digit>, frac: seq<Digit>, z: nat, rest: string)
    requires z <= |whole| && whole[..z] == Zeros(z) && (z < |whole| ==> whole[z] != 0)
    ensures SkipZeros(Number(whole, true, frac) + rest) == Number(whole[z..], true, frac) + rest
  {
    var n := Number(whole, true, frac);
    forall i | 0 <= i < z ensures n[i] == '0' {
      assert whole[i] == whole[..z][i] == 0;
    }
    assert n[z] == if z < |whole| then CharOf(whole[z]) else '.';
    SkipZerosAt(n + rest, z);
    assert n[z..] == Number(whole[z..], true, frac);
    assert (n + rest)[z..] == n[z..] + rest;
  }

  lemma {:induction false} NonZeroBehind(f: string, rest: string, k: nat)
    requires k <= |rest|
    ensures NonZeroFrom(f + rest, |f| + k) <==> !OnlyZeros(rest[k..])
    decreases |rest| - k
  {
    if k < |rest| {
      NonZeroBehind(f, rest, k + 1);
      assert rest[k..] == [rest[k]] + rest[k + 1..];
      assert OnlyZeros(rest[k..]) <==> rest[k] == '0' && OnlyZeros(rest[k + 1..]);
    }
  }

  /** The number with unread characters behind it: the same point, the same kept digits. */
  lemma PartsWith(w: seq<Digit>, frac: seq<Digit>, rest: string)
    ensures var m := Number(w, true, frac) + rest;
            && PointIndex(m) == |w| && m[..|w|] == ToChars(w) && Fraction(m) == ToChars(frac) + rest
            && Kept(m, |frac|) == ToChars(w) + ToChars(frac)
  {
    hide PointIndex;
    var m := Number(w, true, frac) + rest;
    assert m[|w|] == '.';
    PointIndexAt(m, |w|);
    assert m[..|w|] == ToChars(w);
    assert Fraction(m) == ToChars(frac) + rest;
    assert (ToChars(frac) + rest)[..|frac|] == ToChars(frac);
  }

  lemma ParsedWith(w: seq<Digit>, frac: seq<Digit>, rest: string, negative: bool, len: nat)
    ensures ParseSignificant(Number(w, true, frac) + rest, negative, len, |frac|) ==
            ParseSignificant(Number(w, true, frac), negative, len, |frac|).(truncated := !OnlyZeros(rest))
  {
    PartsWith(w, frac, rest);
    PartsWith(w, frac, "");
    hide Kept, Fraction, PointIndex;
    assert Number(w, true, frac) + "" == Number(w, true, frac);
    NonZeroBehind(ToChars(frac), rest, 0);
    assert rest[0..] == rest;
    assert !NonZeroFrom(ToChars(frac) + "", |frac|);
    assert |Number(w, true, frac)| >= 1;
    hide Number, NonZeroFrom, OnlyZeros;
  }

  /** Unread characters change nothing but the truncation flag. */
  lemma UnreadIgnored(t: DecText, rest: string, len: nat, scale: nat)
    requires WellFormed(t) && Unread(t, rest, scale) && rest != "" && 1 <= len && scale <= len
    ensures ParseDec(RenderWith(t, rest), len, scale) ==
            ParseDec(Render(t), len, scale).(truncated := !OnlyZeros(rest))
  {
    hide Core, Number, WellFormed, HasExponent, Unsigned, Body, SkipZeros, ParseSignificant, Render, OnlyZeros;
    var z := LeadingZeros(t.whole);
    ParseRender(t, len, scale, z);
    PlainWith(t, rest, scale);
    BodyBetween(t.lead, Core(t) + rest, t.trail);
    UnsignedWith(t, rest);
    SignificantWith(t.whole, t.frac, z, rest);
    ParsedWith(t.whole[z..], t.frac, rest, t.sign == Minus, len);
  }

  // --- what is accepted is such a text ---

  /** A text that is accepted: a decimal number that fits, and behind it what is not read. */
  ghost predicate AcceptedAs(text: string, t: DecText, rest: string, len: nat, scale: nat) {
    WellFormed(t) && Unread(t, rest, scale) && text == RenderWith(t, rest) && Scaled(t, scale) < Pow10(len)
  }

  /** The result for an accepted text. */
  lemma AcceptedMeaning(text: string, t: DecText, rest: string, len: nat, scale: nat)
    requires AcceptedAs(text, t, rest, len, scale) && 1 <= len && scale <= len
    ensures var r := ParseDec(text, len, scale);
            && r.status == Ok && DecVal(r.digits) == Scaled(t, scale)
            && (r.truncated <==> !OnlyZeros(rest) || !Exact(t, scale))
  {
    hide ParseDec, WellFormed, Scaled, Exact, Pow10, DecVal, Core, Blanks;
    ParseMeaning(t, len, scale);
    if rest == "" {
      assert Core(t) + rest == Core(t);
    } else {
      UnreadIgnored(t, rest, len, scale);
      OwnScale(t);
    }
  }

  lemma OwnScale(t: DecText)
    ensures Exact(t, |t.frac|)
  {
    PaddingIsExact(DecVal(t.whole + t.frac), 1, Pow10(|t.frac|));
  }

  lemma {:induction false} BlanksInFront(s: string) returns (n: nat)
    ensures n <= |s| && s[..n] == Blanks(n) && SkipBlanks(s) == s[n..] && (n < |s| ==> s[n] != ' ')
  {
    n := 0;
    while n < |s| && s[n] == ' '
      invariant n <= |s| && forall i :: 0 <= i < n ==> s[i] == ' '
    {
      n := n + 1;
    }
    SkipBlanksAt(s, n);
  }

  lemma {:induction false} BlanksBehind(s: string) returns (n: nat)
    ensures n <= |s| && s[n..] == Blanks(|s| - n) && DropBlanks(s) == s[..n] && (n > 0 ==> s[n - 1] != ' ')
  {
    n := |s|;
    while n > 0 && s[n - 1] == ' '
      invariant n <= |s| && forall i :: n <= i < |s| ==> s[i] == ' '
    {
      n := n - 1;
    }
    DropBlanksAt(s, n);
  }

  /** Every text is its body between blanks. */
  lemma BodyOf(text: string) returns (lead: nat, trail: nat)
    ensures text == Blanks(lead) + Body(text) + Blanks(trail)
    ensures Body(text) != "" ==> Body(text)[|Body(text)| - 1] != ' '
  {
    lead := BlanksInFront(text);
    var s := text[lead..];
    var n := BlanksBehind(s);
    trail := |s| - n;
    assert text == text[..lead] + (s[..n] + s[n..]);
  }

  lemma {:induction false} ZerosInFront(s: string) returns (z: nat)
    ensures z <= |s| && s == ToChars(Zeros(z)) + SkipZeros(s) && |SkipZeros(s)| == |s| - z
  {
    z := 0;
    while z < |s| && s[z] == '0'
      invariant z <= |s| && forall i :: 0 <= i < z ==> s[i] == '0'
    {
      z := z + 1;
    }
    SkipZerosAt(s, z);
    assert s[..z] == ToChars(Zeros(z));
    assert s == s[..z] + s[z..];
  }

  function SignIn(body: string): Sign
    requires body != ""
  {
    if body[0] == '+' then Plus else if body[0] == '-' then Minus else NoSign
  }

  lemma SignedAgain(body: string)
    requires body != ""
    ensures body == SignChars(SignIn(body)) + Unsigned(body)
  {
    assert body == [body[0]] + body[1..];
  }

  lemma CharsOfDigits(s: string)
    requires forall i :: 0 <= i < |s| ==> IsDigit(s[i])
    ensures ToChars(ToDigits(s)) == s
  {
  }

  /** The kept characters of a significant part are its whole part and the front of its fraction. */
  lemma KeptParts(m: string, scale: nat)
    ensures var p, f, k := PointIndex(m), Fraction(m), Kept(m, scale);
            && (forall i :: 0 <= i < p ==> k[i] == m[i])
            && (forall i :: 0 <= i < |f| && i < scale ==> k[p + i] == f[i])
  {
    hide Kept, Fraction, PointIndex;
    KeptShape(m, scale);
  }

  lemma PointSplits(m: string)
    ensures PointIndex(m) < |m| ==> m == m[..PointIndex(m)] + ("." + Fraction(m))
    ensures PointIndex(m) == |m| ==> m == m[..PointIndex(m)] && Fraction(m) == ""
  {
    hide PointIndex;
    if PointIndex(m) < |m| { SplitAt(m, PointIndex(m)); }
  }

  lemma SplitAt(m: string, p: nat)
    requires p < |m| && m[p] == '.'
    ensures m == m[..p] + ("." + m[p + 1..])
  {
    assert "." == [m[p]];
    assert m == m[..p] + ([m[p]] + m[p + 1..]);
  }

  /** How far the fraction is read. */
  function ReadLength(m: string, scale: nat): nat {
    if |Fraction(m)| < scale then |Fraction(m)| else scale
  }

  /** The significant part of an accepted text as digits and what is not read. */
  lemma SignificantSplit(m: string, negative: bool, len: nat, scale: nat, cut: nat)
    returns (w: seq<Digit>, point: bool, frac: seq<Digit>)
    requires m != "" && ParseSignificant(m, negative, len, scale).status == Ok
    requires ReadLength(m, scale) <= cut <= |Fraction(m)|
    requires forall i :: scale <= i < cut ==> IsDigit(Fraction(m)[i])
    ensures (point || frac == []) && |frac| == cut
    ensures m == Number(w, point, frac) + Fraction(m)[cut..]
    ensures point <==> PointIndex(m) < |m|
  {
    var p, f, k := PointIndex(m), Fraction(m), Kept(m, scale);
    hide Kept, Fraction, PointIndex, ToDigits, IsDigit;
    KeptParts(m, scale);
    PointSplits(m);
    assert forall i :: 0 <= i < |k| ==> IsDigit(k[i]);
    assert forall i :: 0 <= i < p ==> IsDigit(m[i]);
    forall i | 0 <= i < cut ensures IsDigit(f[i]) {
      if i < scale { assert k[p + i] == f[i]; }
    }
    w, point, frac := ToDigits(m[..p]), p < |m|, ToDigits(f[..cut]);
    CharsOfDigits(m[..p]);
    CharsOfDigits(f[..cut]);
    JoinNumber(w, point, frac, f[cut..]);
    assert f == f[..cut] + f[cut..];
  }

  lemma JoinNumber(w: seq<Digit>, point: bool, frac: seq<Digit>, rest: string)
    ensures point ==> Number(w, point, frac) + rest == ToChars(w) + ("." + (ToChars(frac) + rest))
    ensures !point ==> Number(w, point, frac) + "" == ToChars(w)
  {
  }

  /** The characters of a text behind its point and its target scale. */
  function Dropped(text: string, scale: nat): string {
    if Body(text) == "" then ""
    else
      var f := Fraction(SkipZeros(Unsigned(Body(text))));
      if |f| <= scale then "" else f[scale..]
  }

  predicate AllDigits(s: string) {
    forall i :: 0 <= i < |s| ==> IsDigit(s[i])
  }

  lemma LastOfRest(body: string, front: string, rest: string)
    requires body == front + rest
    ensures rest != "" ==> rest[|rest| - 1] == body[|body| - 1]
    ensures HasExponent(rest) ==> HasExponent(body)
  {
    if HasExponent(rest) {
      var i :| 0 <= i < |rest| && (rest[i] == 'E' || rest[i] == 'e');
      assert body[|front| + i] == rest[i];
    }
  }

  lemma Assembled(text: string, lead: nat, trail: nat, z: nat, m: string, w: seq<Digit>, point: bool, frac: seq<Digit>,
                  rest: string)
    requires var body := Body(text);
             body != "" && text == Blanks(lead) + body + Blanks(trail) &&
             Unsigned(body) == ToChars(Zeros(z)) + m && m == Number(w, point, frac) + rest
    ensures var t := DecText(lead, SignIn(Body(text)), Zeros(z) + w, point, frac, trail);
            Body(text) == Core(t) + rest && text == RenderWith(t, rest)
  {
    hide Body, Unsigned, Blanks, SignIn, SignChars;
    SignedAgain(Body(text));
    CharsAppend(Zeros(z), w);
  }

  /** An accepted text is a decimal text, up to the fraction length `cut` behind which nothing is read. */
  lemma AcceptedSplit(text: string, len: nat, scale: nat, whole: bool) returns (t: DecText, rest: string)
    requires ParseDec(text, len, scale).status == Ok && (whole ==> AllDigits(Dropped(text, scale)))
    ensures WellFormed(t) && Unread(t, rest, scale) && text == RenderWith(t, rest) && (whole ==> rest == "")
    ensures !whole ==> rest == Dropped(text, scale)
  {
    hide Unsigned, SkipZeros, ParseSignificant, HasExponent, Blanks, Fraction, PointIndex, Core, Number;
    var body := Body(text);
    var lead, trail := BodyOf(text);
    hide Body;
    var u := Unsigned(body);
    var z := ZerosInFront(u);
    var m := SkipZeros(u);
    var w, point, frac := [], false, [];
    if m == "" {
      rest := "";
      FractionOfNothing();
      NumberOfNothing();
    } else {
      var f := Fraction(m);
      var cut := if whole || |f| < scale then |f| else scale;
      rest := f[cut..];
      assert whole ==> forall i :: scale <= i < |f| ==> f[i] == Dropped(text, scale)[i - scale];
      w, point, frac := SignificantSplit(m, body[0] == '-', len, scale, cut);
      PointSplits(m);
      LastOfRest(m, Number(w, point, frac), rest);
      LastOfRest(u, ToChars(Zeros(z)), m);
      SignedAgain(body);
      LastOfRest(body, SignChars(SignIn(body)), u);
    }
    t := DecText(lead, SignIn(body), Zeros(z) + w, point, frac, trail);
    Assembled(text, lead, trail, z, m, w, point, frac, rest);
    NotEmpty(t, rest, body);
  }

  lemma FractionOfNothing()
    ensures Fraction("") == ""
  {
  }

  lemma NumberOfNothing()
    ensures Number([], false, []) + "" == ""
  {
  }

  lemma NotEmpty(t: DecText, rest: string, body: string)
    requires body != "" && body == Core(t) + rest && (rest == "" || t.point) && (t.point || t.frac == [])
    ensures WellFormed(t)
  {
  }

  /**
   For every text: the parser accepts it exactly when it is a decimal text whose number fits, or such a
   text with exactly the target's fraction digits and, behind them, any characters but an exponent's.
   */
  lemma AcceptedIff(text: string, len: nat, scale: nat)
    requires 1 <= len && scale <= len
    ensures ParseDec(text, len, scale).status == Ok <==> exists t, rest :: AcceptedAs(text, t, rest, len, scale)
  {
    hide ParseDec, WellFormed, Unread, Scaled, Pow10, RenderWith, DecVal;
    if ParseDec(text, len, scale).status == Ok {
      var t, rest := AcceptedSplit(text, len, scale, false);
      SplitFits(text, t, rest, len, scale);
      assert AcceptedAs(text, t, rest, len, scale);
    }
    if t, rest :| AcceptedAs(text, t, rest, len, scale) {
      AcceptedMeaning(text, t, rest, len, scale);
    }
  }

  lemma SplitFits(text: string, t: DecText, rest: string, len: nat, scale: nat)
    requires 1 <= len && scale <= len && ParseDec(text, len, scale).status == Ok
    requires WellFormed(t) && Unread(t, rest, scale) && text == RenderWith(t, rest)
    ensures Scaled(t, scale) < Pow10(len)
  {
    hide ParseDec, WellFormed, Scaled, Pow10, Core, Blanks;
    ParseMeaning(t, len, scale);
    if rest == "" {
      assert Core(t) + rest == Core(t);
    } else {
      UnreadIgnored(t, rest, len, scale);
    }
  }

  // --- decimal texts ---

  ghost predicate IsDecimal(text: string) {
    exists t :: WellFormed(t) && Render(t) == text
  }

  lemma {:induction false} DroppedOfDecimal(t: DecText, scale: nat)
    requires WellFormed(t)
    ensures AllDigits(Dropped(Render(t), scale))
  {
    hide Render, Core, WellFormed, Unsigned, Number, Body, SkipZeros, Fraction, ToChars;
    var z := LeadingZeros(t.whole);
    BodyOfRender(t);
    UnsignedOfCore(t);
    CoreNotEmpty(t);
    PointOrNone(t);
    SignificantOfNumber(t.whole, t.point, t.frac, z);
    NumberParts(t.whole[z..], t.point, t.frac);
    assert forall i :: 0 <= i < |t.frac| ==> IsDigit(ToChars(t.frac)[i]);
  }

  /** An accepted text is a decimal text exactly when the characters that were dropped are digits. */
  lemma DecimalIff(text: string, len: nat, scale: nat)
    requires ParseDec(text, len, scale).status == Ok
    ensures IsDecimal(text) <==> AllDigits(Dropped(text, scale))
  {
    hide ParseDec, WellFormed, Dropped, AllDigits, Core, Blanks;
    if AllDigits(Dropped(text, scale)) {
      var t, rest := AcceptedSplit(text, len, scale, true);
      assert Core(t) + rest == Core(t);
      assert Render(t) == text;
    }
    if IsDecimal(text) {
      var t :| WellFormed(t) && Render(t) == text;
      DroppedOfDecimal(t, scale);
    }
  }

  /** What is accepted without truncation is a decimal text, and has its value. */
  lemma UntruncatedIsDecimal(text: string, len: nat, scale: nat) returns (t: DecText)
    requires 1 <= len && scale <= len
    requires ParseDec(text, len, scale).status == Ok && !ParseDec(text, len, scale).truncated
    ensures WellFormed(t) && Render(t) == text && Exact(t, scale)
    ensures DecVal(ParseDec(text, len, scale).digits) == Scaled(t, scale)
  {
    hide ParseDec, WellFormed, Dropped, Core, Blanks, Scaled, Exact, Pow10, DecVal;
    var s, rest := AcceptedSplit(text, len, scale, false);
    SplitFits(text, s, rest, len, scale);
    AcceptedMeaning(text, s, rest, len, scale);
    assert AllDigits(rest);
    var u, none := AcceptedSplit(text, len, scale, true);
    t := u;
    assert Core(t) + none == Core(t);
    SplitFits(text, t, none, len, scale);
    ParseMeaning(t, len, scale);
  }

  // --- two texts that are not decimal ---

  const TWELVE_TENTHS := DecText(0, NoSign, [1], true, [2], 0)

  /** "1.2x" is read with one fraction digit as 1.2, as if digits had been cut off. */
  lemma TailNotRead()
    ensures var r := ParseDec("1.2x", 3, 1); r.status == Ok && r.truncated && DecVal(r.digits) == 12
    ensures !IsDecimal("1.2x")
  {
    hide ParseDec, Dropped, AllDigits, Scaled, Exact, IsDecimal;
    var t := TWELVE_TENTHS;
    assert Core(t) == "1.2";
    assert RenderWith(t, "x") == "1.2x";
    TwelveTenths();
    AcceptedMeaning("1.2x", t, "x", 3, 1);
    assert !OnlyZeros("x") by { assert "x"[0] == 'x'; }
    DecimalIff("1.2x", 3, 1);
    DroppedTail();
  }

  lemma TwelveTenths()
    ensures Scaled(TWELVE_TENTHS, 1) == 12 && Pow10(3) == 1000
  {
    assert [1] + [2] == [1, 2];
    assert DecVal([1, 2]) == 12 by { assert [1, 2][..1] == [1]; }
    assert Pow10(2) == 100 && Pow10(1) == 10;
  }

  lemma DroppedTail()
    ensures !AllDigits(Dropped("1.2x", 1))
  {
    BodyBetween(0, "1.2x", 0);
    assert Blanks(0) + "1.2x" + Blanks(0) == "1.2x";
    assert SkipZeros("1.2x") == "1.2x";
    PointIndexAt("1.2x", 1);
    assert Fraction("1.2x") == "2x";
    assert "2x"[1..] == "x" && !IsDigit("x"[0]);
  }

  /** A character that is no digit in front of the last kept ones is an overflow, not an error in the text. */
  lemma FrontNotRead()
    ensures ParseDec("x123", 3, 0).status == NumericOverflow
  {
    BodyBetween(0, "x123", 0);
    assert Blanks(0) + "x123" + Blanks(0) == "x123";
    assert forall i :: 0 <= i < 4 ==> "x123"[i] != 'E' && "x123"[i] != 'e';
    assert SkipZeros("x123") == "x123";
    PointIndexAt("x123", 4);
    assert Kept("x123", 0) == "x123";
    assert TailIsDigits("x123", 3);
  }
}
