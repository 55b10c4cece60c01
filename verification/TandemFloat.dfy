/**
 Tandem (T16) floating point and IEEE 754 binary formats, converted in place in a byte buffer. A T16
 number keeps its exponent in the lowest nine bits and its fraction in front of them; the IEEE number
 stands in the buffer with its bytes reversed.
 */
module TandemFloat {
  datatype Status = StatusOk | StatusUnderflow | StatusOverflow

  // --- words ---

  function Join8(b0: bv8, b1: bv8, b2: bv8, b3: bv8, b4: bv8, b5: bv8, b6: bv8, b7: bv8): bv64 {
    (b0 as bv64 << 56) | (b1 as bv64 << 48) | (b2 as bv64 << 40) | (b3 as bv64 << 32) |
    (b4 as bv64 << 24) | (b5 as bv64 << 16) | (b6 as bv64 << 8) | (b7 as bv64)
  }

  /** A buffer read as one big-endian word. */
  function Word8(b: seq<bv8>): bv64
    requires |b| == 8
  {
    Join8(b[0], b[1], b[2], b[3], b[4], b[5], b[6], b[7])
  }

  function Word4(b: seq<bv8>): bv32
    requires |b| == 4
  {
    (b[0] as bv32 << 24) | (b[1] as bv32 << 16) | (b[2] as bv32 << 8) | (b[3] as bv32)
  }

  function Reverse8(w: bv64): bv64 {
    (w << 56) | ((w & 0xFF00) << 40) | ((w & 0xFF_0000) << 24) | ((w & 0xFF00_0000) << 8) |
    ((w >> 8) & 0xFF00_0000) | ((w >> 24) & 0xFF_0000) | ((w >> 40) & 0xFF00) | (w >> 56)
  }

  function Reverse4(w: bv32): bv32 {
    (w << 24) | ((w & 0xFF00) << 8) | ((w >> 8) & 0xFF00) | (w >> 24)
  }

  // --- double format ---

  const SIGN64: bv64 := 0x8000_0000_0000_0000
  const FRACTION52: bv64 := 0x000F_FFFF_FFFF_FFFF

  function IeeeExponent(w: bv64): bv16 { ((w >> 52) & 0x7FF) as bv16 }
  function IeeeFraction(w: bv64): bv64 { w & FRACTION52 }
  function T16Exponent(t: bv64): bv16 { (t & 0x1FF) as bv16 }
  function T16Fraction(t: bv64): bv64 { (t >> 9) & 0x003F_FFFF_FFFF_FFFF }

  /** The upper 52 of the 54 fraction bits. */
  function T16Upper(t: bv64): bv64 { (t >> 11) & FRACTION52 }

  predicate Negative(w: bv64) { w & SIGN64 != 0 }

  /** The significand with 54 fraction bits and the leading one. */
  function IeeeSignificand(f: bv64): bv64 { ((1 << 52) | f) << 2 }
  function T16Significand(f: bv64): bv64 { (1 << 54) | f }

  /** The number a word stands for: sign, significand, exponent without bias. */
  datatype Number = Number(negative: bool, significand: bv64, exponent: bv16)

  function IeeeNumber(w: bv64): Number {
    Number(Negative(w), IeeeSignificand(IeeeFraction(w)), IeeeExponent(w) - 1023)
  }

  function T16Number(t: bv64): Number {
    Number(Negative(t), T16Significand(T16Fraction(t)), T16Exponent(t) - 256)
  }

  /** The fields of one format moved to the places of the other. */
  function PackT16(s: bv64, f: bv64, e: bv64): bv64 {
    (s & SIGN64) | (f << 11) | e
  }

  function AsIeee(t: bv64): bv64 {
    (t & SIGN64) | ((T16Exponent(t) + 767) as bv64 << 52) | T16Upper(t)
  }

  function AsT16(w: bv64): bv64 {
    PackT16(w, IeeeFraction(w), (IeeeExponent(w) - 767) as bv64)
  }

  /** What the two routines do to the buffer, read as one big-endian word. */
  function ToIeee(m: bv64): bv64 {
    if T16Exponent(m) == 0 then m else Reverse8(AsIeee(m))
  }

  function T16Of(w: bv64): (Status, bv64) {
    var e := IeeeExponent(w);
    if e == 0 then (StatusOk, w)
    else if e < 767 then (StatusUnderflow, w)
    else if e > 1278 then (StatusOverflow, w)
    else (StatusOk, AsT16(w))
  }

  function ToT16(m: bv64): (Status, bv64) { T16Of(Reverse8(m)) }

  lemma Reverse8Twice(w: bv64)
    ensures Reverse8(Reverse8(w)) == w
  {
  }

  // --- packed fields ---

  lemma PackT16Sign(s: bv64, f: bv64, e: bv64)
    requires e < 512 && f <= FRACTION52
    ensures PackT16(s, f, e) & SIGN64 == s & SIGN64
  {
  }

  lemma PackT16Significand(s: bv64, f: bv64, e: bv64)
    requires e < 512 && f <= FRACTION52
    ensures T16Significand(T16Fraction(PackT16(s, f, e))) == IeeeSignificand(f)
  {
  }

  lemma FractionRange(w: bv64)
    ensures IeeeFraction(w) <= FRACTION52
  {
  }

  lemma Narrow(e: bv16)
    requires 767 <= e <= 1278
    ensures (e - 767) as bv64 < 512
  {
  }

  lemma AsT16Exponent(w: bv64)
    requires 767 <= IeeeExponent(w) <= 1278
    ensures T16Exponent(AsT16(w)) == IeeeExponent(w) - 767
  {
  }

  lemma AsT16Significand(w: bv64)
    requires 767 <= IeeeExponent(w) <= 1278
    ensures T16Significand(T16Fraction(AsT16(w))) == IeeeSignificand(IeeeFraction(w))
  {
    hide PackT16, IeeeExponent, IeeeFraction, T16Fraction, T16Significand, IeeeSignificand;
    FractionRange(w);
    Narrow(IeeeExponent(w));
    PackT16Significand(w, IeeeFraction(w), (IeeeExponent(w) - 767) as bv64);
  }

  lemma AsT16Sign(w: bv64)
    requires 767 <= IeeeExponent(w) <= 1278
    ensures AsT16(w) & SIGN64 == w & SIGN64
  {
    hide PackT16, IeeeExponent, IeeeFraction;
    FractionRange(w);
    Narrow(IeeeExponent(w));
    PackT16Sign(w, IeeeFraction(w), (IeeeExponent(w) - 767) as bv64);
  }

  // --- the number is kept ---

  lemma Rebias(e: bv16)
    ensures e - 767 - 256 == e - 1023
  {
  }

  /** IEEE to T16 keeps sign, significand and exponent. */
  lemma ToT16Keeps(m: bv64)
    requires 768 <= IeeeExponent(Reverse8(m)) <= 1278
    ensures ToT16(m).0 == StatusOk
    ensures T16Number(ToT16(m).1) == IeeeNumber(Reverse8(m))
  {
    hide Reverse8, AsT16, IeeeExponent, IeeeNumber, T16Number;
    SameNumber(Reverse8(m));
  }

  lemma SameNumber(w: bv64)
    requires 767 <= IeeeExponent(w) <= 1278
    ensures T16Number(AsT16(w)) == IeeeNumber(w)
  {
    hide AsT16, IeeeExponent, IeeeFraction, T16Exponent, T16Fraction, T16Significand, IeeeSignificand;
    AsT16Exponent(w);
    AsT16Significand(w);
    AsT16Sign(w);
    Rebias(IeeeExponent(w));
  }

  /** The other way the two lowest fraction bits are cut off, and nothing else happens. */
  lemma ToIeeeKeeps(m: bv64)
    requires T16Exponent(m) != 0
    ensures var n := T16Number(m);
            IeeeNumber(Reverse8(ToIeee(m))) == n.(significand := n.significand & !0x3)
  {
    hide Reverse8, AsIeee, T16Exponent, IeeeNumber, T16Number;
    Reverse8Twice(AsIeee(m));
    CutNumber(m);
  }

  lemma CutNumber(t: bv64)
    ensures IeeeNumber(AsIeee(t)) == T16Number(t).(significand := T16Number(t).significand & !0x3)
  {
  }

  // --- round trips ---

  lemma AsIeeeUndone(w: bv64)
    requires 767 <= IeeeExponent(w) <= 1278
    ensures AsIeee(AsT16(w)) == w
  {
  }

  /** Exponent 767 becomes the T16 exponent of zero: the lowest byte shows that the bytes are not the old ones. */
  lemma LowestByte(m: bv64)
    requires IeeeExponent(Reverse8(m)) == 767
    ensures AsT16(Reverse8(m)) != m
  {
  }

  /** What a word with a nonzero exponent becomes is not the word itself. */
  lemma NotItself(w: bv64)
    requires IeeeExponent(w) == 0 && T16Exponent(w) != 0
    ensures AsIeee(w) != w
  {
  }

  /**
   IEEE to T16 and back, for every word: the eight bytes come back exactly for the exponents 768 to
   1278, and, since a zero exponent ends the conversion after the bytes were swapped, for the byte
   palindromes among the words whose exponents are zero in both formats.
   */
  lemma DoubleRoundTrip(m: bv64)
    ensures ToT16(m).0 == StatusOk && ToIeee(ToT16(m).1) == m <==>
            768 <= IeeeExponent(Reverse8(m)) <= 1278 ||
            (IeeeExponent(Reverse8(m)) == 0 && T16Exponent(m) == 0 && Reverse8(m) == m)
  {
    hide Reverse8, AsT16, AsIeee, IeeeExponent, T16Exponent;
    var w := Reverse8(m);
    Reverse8Twice(m);
    if IeeeExponent(w) == 0 {
      if T16Exponent(w) != 0 {
        NotItself(w);
        Reverse8Twice(AsIeee(w));
      }
    } else if 767 <= IeeeExponent(w) <= 1278 {
      AsT16Exponent(w);
      if IeeeExponent(w) == 767 {
        LowestByte(m);
      } else {
        AsIeeeUndone(w);
      }
    }
  }

  /** T16 to IEEE and back clears exactly the two lowest fraction bits, for every nonzero exponent. */
  lemma T16RoundTrip(t: bv64)
    requires T16Exponent(t) != 0
    ensures ToT16(ToIeee(t)) == (StatusOk, t & !0x600)
  {
  }

  /** The word itself comes back exactly without those bits, or as a palindrome with both exponents zero. */
  lemma T16Restored(t: bv64)
    ensures ToT16(ToIeee(t)) == (StatusOk, t) <==>
            (T16Exponent(t) != 0 && t & 0x600 == 0) ||
            (T16Exponent(t) == 0 && IeeeExponent(t) == 0 && Reverse8(t) == t)
  {
  }

  /** Negative zero stays byte-swapped. */
  lemma NegativeZeroSwapped()
    ensures ToT16(Reverse8(SIGN64)) == (StatusOk, SIGN64)
    ensures ToIeee(SIGN64) == SIGN64 != Reverse8(SIGN64)
  {
  }

  // --- single format ---

  const SIGN32: bv32 := 0x8000_0000

  function IeeeExponentS(w: bv32): bv32 { (w >> 23) & 0xFF }
  function T16ExponentS(t: bv32): bv32 { t & 0x1FF }

  /** The exponent difference wraps around below the smallest IEEE exponent, as unsigned numbers do. */
  function AsIeeeS(t: bv32): bv32 {
    var e := T16ExponentS(t) - 129;
    (t & SIGN32) | (((e >> 1) & 0xFF) << 24) | ((e & 1) << 23) | ((t >> 8) & 0x7F_FFFE)
  }

  function AsT16S(w: bv32): bv32 {
    (w & SIGN32) | ((w & 0x7F_FFFE) << 8) | (IeeeExponentS(w) + 129)
  }

  function ToIeeeS(m: bv32): (Status, bv32) {
    if T16ExponentS(m) == 0 then (StatusOk, m)
    else if T16ExponentS(m) > 382 then (StatusOverflow, m)
    else (StatusOk, Reverse4(AsIeeeS(m)))
  }

  function T16OfS(w: bv32): (Status, bv32) {
    if IeeeExponentS(w) == 0 then (StatusOk, w) else (StatusOk, AsT16S(w))
  }

  function ToT16S(m: bv32): (Status, bv32) { T16OfS(Reverse4(m)) }

  /** The number a single word stands for: sign, significand with 23 fraction bits, exponent without bias. */
  datatype NumberS = NumberS(negative: bool, significand: bv32, exponent: bv32)

  function IeeeNumberS(w: bv32): NumberS {
    NumberS(w & SIGN32 != 0, 0x80_0000 | (w & 0x7F_FFFF), IeeeExponentS(w) - 127)
  }

  /** The T16 fraction has 22 bits. */
  function T16NumberS(t: bv32): NumberS {
    NumberS(t & SIGN32 != 0, 0x80_0000 | (((t >> 9) & 0x3F_FFFF) << 1), T16ExponentS(t) - 256)
  }

  /** IEEE single to T16 keeps sign and exponent and cuts off the lowest fraction bit, for every nonzero exponent. */
  lemma ToT16SKeeps(m: bv32)
    requires IeeeExponentS(Reverse4(m)) != 0
    ensures var n := IeeeNumberS(Reverse4(m));
            ToT16S(m).0 == StatusOk && T16NumberS(ToT16S(m).1) == n.(significand := n.significand & !1)
  {
  }

  /** The other way the number is kept, for the exponents from 130 to 382. */
  lemma ToIeeeSKeeps(m: bv32)
    requires 130 <= T16ExponentS(m) <= 382
    ensures ToIeeeS(m).0 == StatusOk && IeeeNumberS(Reverse4(ToIeeeS(m).1)) == T16NumberS(m)
  {
  }

  /**
   IEEE single to T16 and back: the lowest fraction bit is cleared and nothing else, for the exponents
   1 to 253.
   */
  lemma SingleRoundTrip(m: bv32)
    requires 1 <= IeeeExponentS(Reverse4(m)) <= 253
    ensures ToIeeeS(ToT16S(m).1) == (StatusOk, Reverse4(Reverse4(m) & !1))
  {
  }

  /** The two greatest exponents are converted, and then refused on the way back. */
  lemma SingleRefused(m: bv32)
    requires IeeeExponentS(Reverse4(m)) > 253
    ensures ToT16S(m).0 == StatusOk && ToIeeeS(ToT16S(m).1).0 == StatusOverflow
  {
  }

  /**
   IEEE single to T16 and back, for every word: the bytes come back exactly for the exponents 1 to 253
   with a clear lowest bit, and for the byte palindromes whose exponents are zero in both formats.
   */
  lemma SingleRestored(m: bv32)
    ensures ToIeeeS(ToT16S(m).1) == (StatusOk, m) <==>
            (1 <= IeeeExponentS(Reverse4(m)) <= 253 && Reverse4(m) & 1 == 0) ||
            (IeeeExponentS(Reverse4(m)) == 0 && T16ExponentS(m) == 0 && Reverse4(m) == m)
  {
  }

  /**
   T16 single to IEEE and back, for every word: it comes back exactly for the exponents 130 to 382, and
   for the byte palindromes whose exponents are zero in both formats. Below 130 the test for underflow
   never fires and the exponent wraps around.
   */
  lemma T16SingleRoundTrip(t: bv32)
    ensures ToIeeeS(t).0 == StatusOk && ToT16S(ToIeeeS(t).1) == (StatusOk, t) <==>
            130 <= T16ExponentS(t) <= 382 ||
            (T16ExponentS(t) == 0 && IeeeExponentS(t) == 0 && Reverse4(t) == t)
  {
  }
}
