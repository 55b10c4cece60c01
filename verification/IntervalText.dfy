/**
 SQL intervals to text: a count of the smallest unit is printed as a leading field and two-digit
 fields in mixed radix, with an optional decimal fraction.
 */
module IntervalText {
  import opened Positional
  import opened DecimalText
  import opened Int64Text

  function StartField(datatypeCode: int): int {
    match datatypeCode
    case 196 => 2
    case 198 => 3
    case 199 => 4
    case 200 => 3
    case 201 => 5
    case 202 => 4
    case 203 => 3
    case 204 => 6
    case 205 => 5
    case 206 => 4
    case 207 => 3
    case _ => 1
  }

  function EndField(datatypeCode: int): int {
    match datatypeCode
    case 196 => 2
    case 197 => 2
    case 198 => 3
    case 199 => 4
    case 200 => 4
    case 201 => 5
    case 202 => 5
    case 203 => 5
    case 204 => 6
    case 205 => 6
    case 206 => 6
    case 207 => 6
    case _ => 1
  }

  /** Year and month, or any two of day, hour, minute and second, the leading field first. */
  predicate FieldRange(start: int, end: int) {
    1 <= start <= end <= 2 || 3 <= start <= end <= 6
  }

  /** The type codes count through the fields: by last field, and for each from the shortest interval to the longest. */
  function TypeCode(start: int, end: int): int
    requires FieldRange(start, end)
  {
    if end <= 2 then 195 + end * (end - 1) / 2 + (end - start) else 198 + (end - 3) * (end - 2) / 2 + (end - start)
  }

  /** Each type code stands for one range of fields, and the tables say which. */
  lemma FieldsOfType(code: int, start: int, end: int)
    requires FieldRange(start, end)
    ensures 195 <= TypeCode(start, end) <= 207
    ensures 195 <= code <= 207 ==>
              (code == TypeCode(start, end) <==> StartField(code) == start && EndField(code) == end)
    ensures 195 <= code <= 207 ==> FieldRange(StartField(code), EndField(code))
  {
  }

  const DELIMITER: string := "^-^ ::"

  /** One more than a field's largest value: how many of its units make one of the field before it. */
  function Radix(field: int): (r: nat)
    requires 1 <= field <= 6
    ensures 1 <= r <= 60
  {
    if field == 2 then 12 else if field == 4 then 24 else if field >= 5 then 60 else 1
  }

  /** What a field passes on to the field before it. */
  function Carry(whole: nat, field: int): nat
    requires 1 <= field <= 6
  {
    if field == 2 then whole / 12 else if field == 4 then whole / 24 else if field >= 5 then whole / 60 else whole
  }

  /** What a field keeps for itself. */
  function Share(whole: nat, field: int): (r: nat)
    requires 1 <= field <= 6
    ensures r < 60
  {
    if field == 2 then whole % 12 else if field == 4 then whole % 24 else if field >= 5 then whole % 60 else 0
  }

  /** `x` units of the field before, counted in units of this field. */
  function Weigh(x: int, field: int): int
    requires 1 <= field <= 6
  {
    if field == 2 then 12 * x else if field == 4 then 24 * x else if field >= 5 then 60 * x else x
  }

  lemma CarryAndShare(whole: nat, field: int)
    requires 1 <= field <= 6
    ensures Weigh(Carry(whole, field), field) + Share(whole, field) == whole
    ensures Share(whole, field) < Radix(field)
  {
  }

  /** A field's unit in months or in seconds. */
  function Unit(field: int): nat
    requires 1 <= field <= 6
  {
    match field
    case 1 => 12
    case 2 => 1
    case 3 => 86400
    case 4 => 3600
    case 5 => 60
    case _ => 1
  }

  lemma UnitCarries(x: int, field: int)
    requires 1 <= field <= 6 && field != 1 && field != 3
    ensures Weigh(x, field) * Unit(field) == x * Unit(field - 1)
  {
  }

  /** The fields that are printed, each in its unit. */
  function InUnits(whole: nat, field: int, start: int): int
    requires 1 <= start && field <= 6
    decreases field - start
  {
    if field <= start then whole * Unit(if field < 1 then 1 else field)
    else InUnits(Carry(whole, field), field - 1, start) + Share(whole, field) * Unit(field)
  }

  /** They add up to the count in the unit of the last field. */
  lemma {:induction false} FieldsAddUp(whole: nat, field: int, start: int)
    requires FieldRange(start, field)
    ensures InUnits(whole, field, start) == whole * Unit(field)
    decreases field - start
  {
    if field > start {
      FieldsAddUp(Carry(whole, field), field - 1, start);
      UnitCarries(Carry(whole, field), field);
      CarryAndShare(whole, field);
      var a, b, u := Weigh(Carry(whole, field), field), Share(whole, field), Unit(field);
      assert (a + b) * u == a * u + b * u;
    }
  }

  /** What is left for the leading field after the later fields took their share. */
  function LeadingValue(whole: nat, field: int, start: int): nat
    requires 1 <= start && field <= 6
    decreases field - start
  {
    if field <= start then whole else LeadingValue(Carry(whole, field), field - 1, start)
  }

  /** The later fields, each with its delimiter in front. */
  function LaterFields(whole: nat, field: int, start: int): (s: string)
    requires 1 <= start && field <= 6
    ensures |s| == if field <= start then 0 else 3 * (field - start)
    decreases field - start
  {
    if field <= start then ""
    else LaterFields(Carry(whole, field), field - 1, start) + FieldChars(whole, field)
  }

  function FieldChars(whole: nat, field: int): (s: string)
    requires 1 <= field <= 6
    ensures |s| == 3
  {
    [DELIMITER[field - 1]] + ToChars(Digits(Share(whole, field), 2))
  }

  function NumDigits(v: nat): (n: nat)
    ensures 1 <= n && v < Pow10(n) && (n > 1 ==> v >= Pow10(n - 1))
  {
    if v < 10 then assert Pow10(1) == 10; 1 else 1 + NumDigits(v / 10)
  }

  lemma DigitCountUnique(v: nat, n: nat)
    requires HasDigits(v, n)
    ensures n == NumDigits(v)
  {
    var m := NumDigits(v);
    if m < n {
      Pow10Monotone(m, n - 1);
    } else if n < m {
      Pow10Monotone(n, m - 1);
    }
  }

  /** The leading field, blank-padded to its precision. */
  function LeadingChars(v: nat, precision: nat): (s: string)
    requires NumDigits(v) <= precision
    ensures |s| == precision
  {
    Fillers(' ', precision - NumDigits(v)) + ToChars(Digits(v, NumDigits(v)))
  }

  function MinusWidth(value: int): nat {
    if value < 0 then 1 else 0
  }

  function TextLength(value: int, precision: nat, fraction: nat, start: int, end: int): nat
    requires start <= end
  {
    MinusWidth(value) + precision + (end - start) * 3 + fraction + PointLen(fraction)
  }

  function UnsignedChars(v: nat, precision: nat, fraction: nat, start: int, end: int): (s: string)
    requires 1 <= start <= end <= 6
    requires NumDigits(LeadingValue(DropDigits(v, fraction), end, start)) <= precision
    ensures |s| == precision + (end - start) * 3 + fraction + PointLen(fraction)
  {
    var whole := DropDigits(v, fraction);
    LeadingChars(LeadingValue(whole, end, start), precision) + LaterFields(whole, end, start) + FracChars(v, fraction)
  }

  function IntervalChars(value: int, precision: nat, fraction: nat, start: int, end: int): (s: string)
    requires 1 <= start <= end <= 6
    requires NumDigits(LeadingValue(DropDigits(Abs(value), fraction), end, start)) <= precision
    ensures |s| == TextLength(value, precision, fraction, start, end)
  {
    (if value < 0 then "-" else "") + UnsignedChars(Abs(value), precision, fraction, start, end)
  }

  // --- reading the text back ---

  predicate AllDigitChars(s: string) {
    forall i :: 0 <= i < |s| ==> IsDigit(s[i])
  }

  function ReadDigits(s: string): nat
  {
    if AllDigitChars(s) then DecVal(ToDigits(s)) else 0
  }

  /** Mixed-radix value of the later fields on top of the leading one. */
  function ReadLater(s: string, leading: nat, field: int, start: int): int
    requires 1 <= start && field <= 6
    decreases field - start
  {
    if field <= start || |s| < 3 then leading
    else Weigh(ReadLater(s[..|s| - 3], leading, field - 1, start), field) + ReadDigits(s[|s| - 2..])
  }

  /** Every later field has its delimiter and two digits below its radix. */
  predicate LaterWellFormed(s: string, field: int, start: int)
    requires 1 <= start && field <= 6
    decreases field - start
  {
    if field <= start then s == ""
    else
      && |s| >= 3
      && s[|s| - 3] == DELIMITER[field - 1]
      && AllDigitChars(s[|s| - 2..]) && ReadDigits(s[|s| - 2..]) < Radix(field)
      && LaterWellFormed(s[..|s| - 3], field - 1, start)
  }

  function ReadBody(body: string, precision: nat, fraction: nat, start: int, end: int): int
    requires 1 <= start <= end <= 6
    requires |body| >= precision + (end - start) * 3 + PointLen(fraction)
  {
    var later := (end - start) * 3;
    var whole := ReadLater(body[precision..precision + later], ReadDigits(SkipBlanks(body[..precision])), end, start);
    whole * Pow10(fraction) + ReadDigits(body[precision + later + PointLen(fraction)..])
  }

  function ReadInterval(s: string, precision: nat, fraction: nat, start: int, end: int): int
    requires 1 <= start <= end <= 6
    requires |s| >= 1 && |s| >= (if s[0] == '-' then 1 else 0) + precision + (end - start) * 3 + PointLen(fraction)
  {
    if s[0] == '-' then -ReadBody(s[1..], precision, fraction, start, end)
    else ReadBody(s, precision, fraction, start, end)
  }

  lemma ReadDigitsOf(v: nat, n: nat)
    requires v < Pow10(n)
    ensures AllDigitChars(ToChars(Digits(v, n))) && ReadDigits(ToChars(Digits(v, n))) == v
  {
    assert ToDigits(ToChars(Digits(v, n))) == Digits(v, n);
    ValOfDigits(v, n);
  }

  lemma LastThree(front: string, c: char, two: string)
    requires |two| == 2
    ensures var s := front + ([c] + two);
            |s| == |front| + 3 && s[..|s| - 3] == front && s[|s| - 3] == c && s[|s| - 2..] == two
  {
  }

  lemma LaterStep(value: nat, field: int, start: int)
    requires 1 <= start < field <= 6
    ensures LaterFields(value, field, start) ==
            LaterFields(Carry(value, field), field - 1, start) + FieldChars(value, field)
    ensures LeadingValue(value, field, start) == LeadingValue(Carry(value, field), field - 1, start)
  {
  }

  lemma FieldReads(whole: nat, field: int)
    requires 1 <= field <= 6
    ensures var two := FieldChars(whole, field)[1..];
            && FieldChars(whole, field) == [DELIMITER[field - 1]] + two
            && AllDigitChars(two) && ReadDigits(two) == Share(whole, field)
  {
    hide Digits, ToChars, ReadDigits, AllDigitChars, Pow10, Share;
    HundredIs();
    ReadDigitsOf(Share(whole, field), 2);
    assert FieldChars(whole, field)[1..] == ToChars(Digits(Share(whole, field), 2));
  }

  lemma HundredIs()
    ensures Pow10(2) == 100
  {
    assert Pow10(1) == 10;
  }

  lemma LaterSplit(whole: nat, field: int, start: int)
    requires 1 <= start < field <= 6
    ensures var s := LaterFields(whole, field, start);
            && |s| >= 3 && s[..|s| - 3] == LaterFields(Carry(whole, field), field - 1, start)
            && s[|s| - 3] == DELIMITER[field - 1]
            && AllDigitChars(s[|s| - 2..]) && ReadDigits(s[|s| - 2..]) == Share(whole, field)
  {
    hide LaterFields, FieldChars, Carry, Share, ReadDigits, AllDigitChars;
    LaterStep(whole, field, start);
    FieldReads(whole, field);
    LastThree(LaterFields(Carry(whole, field), field - 1, start), DELIMITER[field - 1], FieldChars(whole, field)[1..]);
  }

  lemma {:induction false} LaterReadBack(whole: nat, field: int, start: int)
    requires 1 <= start && field <= 6
    ensures ReadLater(LaterFields(whole, field, start), LeadingValue(whole, field, start), field, start) == whole
    decreases field - start
  {
    hide LaterFields, Carry, Share, Weigh, ReadDigits, AllDigitChars;
    if field > start {
      var s, w, lead := LaterFields(whole, field, start), Carry(whole, field), LeadingValue(whole, field, start);
      LaterSplit(whole, field, start);
      assert lead == LeadingValue(w, field - 1, start);
      assert ReadLater(s[..|s| - 3], lead, field - 1, start) == w by { LaterReadBack(w, field - 1, start); }
      assert ReadLater(s, lead, field, start) == Weigh(w, field) + Share(whole, field);
      CarryAndShare(whole, field);
    }
  }

  /** Every later field is delimited and below its radix. */
  lemma {:induction false} LaterInRange(whole: nat, field: int, start: int)
    requires 1 <= start && field <= 6
    ensures LaterWellFormed(LaterFields(whole, field, start), field, start)
    decreases field - start
  {
    hide LaterFields, Carry, Share, Weigh, ReadDigits, AllDigitChars, Radix;
    if field > start {
      LaterSplit(whole, field, start);
      LaterInRange(Carry(whole, field), field - 1, start);
      CarryAndShare(whole, field);
    }
  }

  /** A number is its high part shifted plus its last digits. */
  lemma {:induction false} DropAndKeep(v: nat, b: nat)
    ensures v == DropDigits(v, b) * Pow10(b) + DecVal(Digits(v, b))
  {
    if b > 0 {
      DropAndKeep(v / 10, b - 1);
      assert Digits(v, b)[..b - 1] == Digits(v / 10, b - 1);
      ShiftedOnce(DropDigits(v / 10, b - 1), Pow10(b - 1), DecVal(Digits(v / 10, b - 1)), v / 10, v % 10);
    }
  }

  lemma LeadingReadBack(v: nat, precision: nat)
    requires NumDigits(v) <= precision
    ensures ReadDigits(SkipBlanks(LeadingChars(v, precision))) == v
    ensures LeadingChars(v, precision)[0] != '-'
  {
    var n := NumDigits(v);
    var s := LeadingChars(v, precision);
    assert s[precision - n] == CharOf(Digits(v, n)[0]);
    SkipBlanksAt(s, precision - n);
    assert s[precision - n..] == ToChars(Digits(v, n));
    ReadDigitsOf(v, n);
  }

  /** How the text behind the sign splits into its parts. */
  lemma SplitText(lead: string, later: string, frac: string, point: nat)
    requires point <= |frac|
    ensures var s := lead + later + frac;
            && s[..|lead|] == lead
            && s[|lead|..|lead| + |later|] == later
            && s[|lead| + |later| + point..] == frac[point..]
  {
  }

  lemma FractionReadBack(v: nat, fraction: nat)
    ensures FracChars(v, fraction)[PointLen(fraction)..] == ToChars(Digits(v, fraction))
    ensures ReadDigits(ToChars(Digits(v, fraction))) == DecVal(Digits(v, fraction))
  {
    assert ToDigits(ToChars(Digits(v, fraction))) == Digits(v, fraction);
  }

  lemma {:induction false} BodyParts(v: nat, precision: nat, fraction: nat, start: int, end: int)
    requires 1 <= start <= end <= 6
    requires NumDigits(LeadingValue(DropDigits(v, fraction), end, start)) <= precision
    ensures var body := UnsignedChars(v, precision, fraction, start, end);
            var whole, later := DropDigits(v, fraction), (end - start) * 3;
            && body[..precision] == LeadingChars(LeadingValue(whole, end, start), precision)
            && body[precision..precision + later] == LaterFields(whole, end, start)
            && body[precision + later + PointLen(fraction)..] == ToChars(Digits(v, fraction))
  {
    var whole := DropDigits(v, fraction);
    SplitText(LeadingChars(LeadingValue(whole, end, start), precision), LaterFields(whole, end, start),
              FracChars(v, fraction), PointLen(fraction));
    FractionReadBack(v, fraction);
  }

  lemma {:induction false} PartsReadBack(leading: string, later: string, digits: string, v: nat, precision: nat,
                                        fraction: nat,
                                        start: int, end: int)
    requires 1 <= start <= end <= 6
    requires NumDigits(LeadingValue(DropDigits(v, fraction), end, start)) <= precision
    requires leading == LeadingChars(LeadingValue(DropDigits(v, fraction), end, start), precision)
    requires later == LaterFields(DropDigits(v, fraction), end, start)
    requires digits == ToChars(Digits(v, fraction))
    ensures ReadLater(later, ReadDigits(SkipBlanks(leading)), end, start) * Pow10(fraction) + ReadDigits(digits) == v
  {
    var whole := DropDigits(v, fraction);
    LeadingReadBack(LeadingValue(whole, end, start), precision);
    LaterReadBack(whole, end, start);
    FractionReadBack(v, fraction);
    DropAndKeep(v, fraction);
  }

  lemma {:induction false} BodyReadBack(v: nat, precision: nat, fraction: nat, start: int, end: int)
    requires 1 <= start <= end <= 6
    requires NumDigits(LeadingValue(DropDigits(v, fraction), end, start)) <= precision
    ensures ReadBody(UnsignedChars(v, precision, fraction, start, end), precision, fraction, start, end) == v
  {
    var body := UnsignedChars(v, precision, fraction, start, end);
    var later := (end - start) * 3;
    BodyParts(v, precision, fraction, start, end);
    PartsReadBack(body[..precision], body[precision..precision + later], body[precision + later + PointLen(fraction)..],
                  v, precision, fraction, start, end);
  }

  lemma BodyHasNoSign(v: nat, precision: nat, fraction: nat, start: int, end: int)
    requires 1 <= start <= end <= 6
    requires NumDigits(LeadingValue(DropDigits(v, fraction), end, start)) <= precision
    ensures UnsignedChars(v, precision, fraction, start, end)[0] != '-'
  {
    var lead := LeadingValue(DropDigits(v, fraction), end, start);
    LeadingReadBack(lead, precision);
    assert UnsignedChars(v, precision, fraction, start, end)[0] == LeadingChars(lead, precision)[0];
  }

  /** The printed text reads back to the interval's value. */
  lemma {:induction false} IntervalReadBack(value: int, precision: nat, fraction: nat, start: int, end: int)
    requires 1 <= start <= end <= 6
    requires NumDigits(LeadingValue(DropDigits(Abs(value), fraction), end, start)) <= precision
    ensures ReadInterval(IntervalChars(value, precision, fraction, start, end), precision, fraction, start, end) ==
            value
  {
    var body := UnsignedChars(Abs(value), precision, fraction, start, end);
    BodyReadBack(Abs(value), precision, fraction, start, end);
    BodyHasNoSign(Abs(value), precision, fraction, start, end);
    if value < 0 {
      assert ("-" + body)[1..] == body;
    } else {
      assert "" + body == body;
    }
  }

  /** The text of an interval type reads back as the fields of that type. */
  lemma TypedReadBack(value: int, precision: nat, fraction: nat, start: int, end: int)
    requires FieldRange(start, end)
    requires NumDigits(LeadingValue(DropDigits(Abs(value), fraction), end, start)) <= precision
    ensures var code := TypeCode(start, end);
            && StartField(code) == start && EndField(code) == end
            && ReadInterval(IntervalChars(value, precision, fraction, StartField(code), EndField(code)),
                            precision, fraction, start, end) == value
  {
    FieldsOfType(TypeCode(start, end), start, end);
    IntervalReadBack(value, precision, fraction, start, end);
  }

  // --- three intervals ---

  lemma TwoDigits(a: Digit, b: Digit)
    ensures Digits(10 * a + b, 2) == [a, b]
  {
    assert Digits(a, 1) == [a];
  }

  lemma WholeText(value: int, precision: nat, start: int, end: int, lead: nat, later: string)
    requires FieldRange(start, end) && LeadingValue(Abs(value), end, start) == lead && NumDigits(lead) <= precision
    requires LaterFields(Abs(value), end, start) == later
    ensures DropDigits(Abs(value), 0) == Abs(value)
    ensures IntervalChars(value, precision, 0, start, end) ==
            (if value < 0 then "-" else "") + (LeadingChars(lead, precision) + later)
  {
    hide LeadingChars, LaterFields, LeadingValue, NumDigits;
    assert FracChars(Abs(value), 0) == "";
  }

  lemma LeadingOne()
    ensures NumDigits(1) == 1 && LeadingChars(1, 1) == "1" && LeadingChars(1, 2) == " 1"
  {
    assert Digits(1, 1) == [1];
    assert ToChars([1]) == "1";
    assert Fillers(' ', 0) == "" && Fillers(' ', 1) == " ";
  }

  lemma OneField(whole: nat, field: int, a: Digit, b: Digit)
    requires 1 <= field <= 6 && Share(whole, field) == 10 * a + b
    ensures FieldChars(whole, field) == [DELIMITER[field - 1], CharOf(a), CharOf(b)]
  {
    TwoDigits(a, b);
    hide Digits;
  }

  /** 90 minutes as HOUR TO MINUTE. */
  lemma HourToMinute()
    ensures NumDigits(LeadingValue(DropDigits(90, 0), 5, 4)) == 1
    ensures IntervalChars(90, 2, 0, StartField(202), EndField(202)) == " 1:30"
  {
    hide FieldChars, NumDigits, LeadingChars, IntervalChars, DropDigits;
    OneField(90, 5, 3, 0);
    LeadingOne();
    assert LaterFields(1, 4, 4) == "" && Carry(90, 5) == 1;
    WholeText(90, 2, 4, 5, 1, ":30");
  }

  /** 14 months as YEAR TO MONTH. */
  lemma YearToMonth()
    ensures NumDigits(LeadingValue(DropDigits(14, 0), 2, 1)) == 1
    ensures IntervalChars(-14, 2, 0, StartField(197), EndField(197)) == "- 1-02"
  {
    hide FieldChars, NumDigits, LeadingChars, IntervalChars, DropDigits;
    OneField(14, 2, 0, 2);
    LeadingOne();
    assert LaterFields(1, 1, 1) == "" && Carry(14, 2) == 1;
    WholeText(-14, 2, 1, 2, 1, "-02");
  }

  /** One day, two hours, three minutes and four seconds as DAY TO SECOND. */
  lemma DayToSecond()
    ensures NumDigits(LeadingValue(DropDigits(93784, 0), 6, 3)) == 1
    ensures IntervalChars(93784, 1, 0, StartField(207), EndField(207)) == "1 02:03:04"
  {
    hide LaterFields, LeadingValue, NumDigits, LeadingChars, IntervalChars, DropDigits;
    DayFields();
    LeadingOne();
    WholeText(93784, 1, 3, 6, 1, " 02:03:04");
  }

  lemma DayFields()
    ensures LeadingValue(93784, 6, 3) == 1 && LaterFields(93784, 6, 3) == " 02:03:04"
  {
    hide FieldChars;
    OneField(93784, 6, 0, 4);
    OneField(1563, 5, 0, 3);
    OneField(26, 4, 0, 2);
    assert Carry(93784, 6) == 1563 && Carry(1563, 5) == 26 && Carry(26, 4) == 1;
    assert LaterFields(1, 3, 3) == "" && LeadingValue(1, 3, 3) == 1;
    assert LaterFields(26, 4, 3) == " 02" && LeadingValue(26, 4, 3) == 1;
    assert LaterFields(1563, 5, 3) == " 02:03" && LeadingValue(1563, 5, 3) == 1;
  }
}
