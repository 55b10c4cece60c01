/**
 Decimal text to decimal digits, as the ASCII-to-LARGEDEC conversion does it. `ParseDec` says, for
 every text without an exponent, which status and which digits come out; `ConvAsciiToDec` is the
 in-place right-to-left loop that computes them.
 */
module DecimalText {
  import opened Positional

  /** `FloatText` stands for the branch that hands a text with an exponent to the float converter. */
  datatype Status = Ok | StringError | NumericOverflow | FloatText

  datatype DecResult = DecResult(status: Status, digits: seq<Digit>, negative: bool, truncated: bool)

  predicate IsDigit(c: char) {
    '0' <= c <= '9'
  }

  function DigitOf(c: char): Digit
    requires IsDigit(c)
  {
    c as int - '0' as int
  }

  function CharOf(d: Digit): (c: char)
    ensures IsDigit(c) && DigitOf(c) == d
  {
    ('0' as int + d) as char
  }

  function ToDigits(s: string): (ds: seq<Digit>)
    requires forall i :: 0 <= i < |s| ==> IsDigit(s[i])
    ensures |ds| == |s|
    ensures forall i :: 0 <= i < |s| ==> ds[i] == DigitOf(s[i])
  {
    seq(|s|, i requires 0 <= i < |s| => DigitOf(s[i]))
  }

  function ToChars(ds: seq<Digit>): (s: string)
    ensures |s| == |ds|
    ensures forall i :: 0 <= i < |s| ==> s[i] == CharOf(ds[i])
  {
    seq(|ds|, i requires 0 <= i < |ds| => CharOf(ds[i]))
  }

  lemma Regroup(a: string, b: string, c: string)
    ensures a + (b + c) == (a + b) + c
  {
  }

  function SkipBlanks(s: string): string {
    if s != "" && s[0] == ' ' then SkipBlanks(s[1..]) else s
  }

  function DropBlanks(s: string): string {
    if s != "" && s[|s| - 1] == ' ' then DropBlanks(s[..|s| - 1]) else s
  }

  function SkipZeros(s: string): (r: string)
    ensures r != "" ==> r[0] != '0'
  {
    if s != "" && s[0] == '0' then SkipZeros(s[1..]) else s
  }

  /** Index of the first decimal point, or the length of the text. */
  function PointIndex(s: string): (p: nat)
    ensures p <= |s|
    ensures forall i :: 0 <= i < p ==> s[i] != '.'
    ensures p < |s| ==> s[p] == '.'
  {
    if s == "" || s[0] == '.' then 0 else 1 + PointIndex(s[1..])
  }

  predicate HasExponent(s: string) {
    exists i :: 0 <= i < |s| && (s[i] == 'E' || s[i] == 'e')
  }

  function Body(text: string): string {
    DropBlanks(SkipBlanks(text))
  }

  function Unsigned(body: string): string
    requires body != ""
  {
    if body[0] == '+' || body[0] == '-' then body[1..] else body
  }

  function Fraction(m: string): string {
    var p := PointIndex(m);
    if p < |m| then m[p + 1..] else ""
  }

  /** The characters that are kept at the target scale: point removed, fraction cut or zero-extended. */
  function Kept(m: string, scale: nat): (k: string)
    ensures |k| == PointIndex(m) + scale
  {
    var f := Fraction(m);
    m[..PointIndex(m)] + (if |f| >= scale then f[..scale] else f + seq(scale - |f|, _ => '0'))
  }

  /** Whether the fraction beyond the target scale holds anything but zeros. */
  predicate Loses(m: string, scale: nat) {
    NonZeroFrom(Fraction(m), scale)
  }

  predicate NonZeroFrom(f: string, n: nat)
    decreases |f| - n
  {
    n < |f| && (f[n] != '0' || NonZeroFrom(f, n + 1))
  }

  /** The last `len` kept characters are digits. */
  predicate TailIsDigits(k: string, len: nat) {
    forall i :: 0 <= i < |k| && |k| - len <= i ==> IsDigit(k[i])
  }

  function ParseSignificant(m: string, negative: bool, len: nat, scale: nat): (r: DecResult)
    ensures r.status == Ok ==> |r.digits| == len
  {
    var k := Kept(m, scale);
    if m == "" then DecResult(Ok, Zeros(len), false, false)
    else if !TailIsDigits(k, len) then DecResult(StringError, [], false, false)
    else if |k| > len then DecResult(NumericOverflow, [], false, Loses(m, scale))
    else DecResult(Ok, Zeros(len - |k|) + ToDigits(k), negative, Loses(m, scale))
  }

  function ParseDec(text: string, len: nat, scale: nat): (r: DecResult)
    ensures r.status == Ok ==> |r.digits| == len
  {
    var body := Body(text);
    if body == "" then DecResult(StringError, [], false, false)
    else if HasExponent(body) then DecResult(FloatText, [], false, false)
    else ParseSignificant(SkipZeros(Unsigned(body)), body[0] == '-', len, scale)
  }

  // --- the loops ---

  lemma {:induction false} SkipBlanksAt(s: string, n: nat)
    requires n <= |s|
    requires forall i :: 0 <= i < n ==> s[i] == ' '
    requires n < |s| ==> s[n] != ' '
    ensures SkipBlanks(s) == s[n..]
  {
    if n > 0 { SkipBlanksAt(s[1..], n - 1); }
  }

  lemma {:induction false} DropBlanksAt(s: string, n: nat)
    requires n <= |s|
    requires forall i :: n <= i < |s| ==> s[i] == ' '
    requires n > 0 ==> s[n - 1] != ' '
    ensures DropBlanks(s) == s[..n]
  {
    if n < |s| {
      DropBlanksAt(s[..|s| - 1], n);
      assert s[..|s| - 1][..n] == s[..n];
    } else {
      assert s[..n] == s;
    }
  }

  lemma {:induction false} SkipZerosAt(s: string, n: nat)
    requires n <= |s|
    requires forall i :: 0 <= i < n ==> s[i] == '0'
    requires n < |s| ==> s[n] != '0'
    ensures SkipZeros(s) == s[n..]
  {
    if n > 0 { SkipZerosAt(s[1..], n - 1); }
  }

  lemma {:induction false} PointIndexAt(s: string, n: nat)
    requires n <= |s|
    requires forall i :: 0 <= i < n ==> s[i] != '.'
    requires n < |s| ==> s[n] == '.'
    ensures PointIndex(s) == n
  {
    if n > 0 { PointIndexAt(s[1..], n - 1); }
  }

  /** Finds the text between the leading and the trailing blanks. */
  method Trim(source: string) returns (start: nat, end: nat)
    ensures start <= end <= |source|
    ensures source[start..end] == Body(source)
  {
    start, end := 0, |source|;
    while start < |source| && source[start] == ' '
      invariant start <= |source|
      invariant forall i :: 0 <= i < start ==> source[i] == ' '
    {
      start := start + 1;
    }
    SkipBlanksAt(source, start);
    if start < |source| {
      while source[end - 1] == ' '
        invariant start < end <= |source|
        invariant forall i :: end <= i < |source| ==> source[i] == ' '
        decreases end
      {
        end := end - 1;
      }
    }
    ghost var s := source[start..];
    assert forall i :: end - start <= i < |s| ==> s[i] == source[start + i] == ' ';
    DropBlanksAt(s, end - start);
    assert s[..end - start] == source[start..end];
  }

  /** Scans from the end for an exponent letter. */
  method FindExponent(source: string, start: nat, end: nat) returns (found: bool)
    requires start <= end <= |source|
    ensures found <==> HasExponent(source[start..end])
  {
    ghost var s := source[start..end];
    var i := end;
    while i > start
      invariant start <= i <= end
      invariant forall k :: i <= k < end ==> source[k] != 'E' && source[k] != 'e'
    {
      i := i - 1;
      if source[i] == 'E' || source[i] == 'e' {
        assert s[i - start] == source[i];
        return true;
      }
    }
    assert forall k :: 0 <= k < |s| ==> s[k] == source[start + k];
    found := false;
  }

  method SkipLeadingZeros(source: string, from: nat, end: nat) returns (start: nat)
    requires from <= end <= |source|
    ensures from <= start <= end
    ensures source[start..end] == SkipZeros(source[from..end])
  {
    start := from;
    while start < end && source[start] == '0'
      invariant from <= start <= end
      invariant forall i :: from <= i < start ==> source[i] == '0'
    {
      start := start + 1;
    }
    ghost var s := source[from..end];
    assert forall i :: 0 <= i < |s| ==> s[i] == source[from + i];
    SkipZerosAt(s, start - from);
    assert s[start - from..] == source[start..end];
  }

  /** The decimal point's position, or -1. */
  method FindPoint(source: string, start: nat, end: nat) returns (pointPos: int)
    requires start <= end <= |source|
    ensures pointPos == if PointIndex(source[start..end]) < end - start
                        then start + PointIndex(source[start..end]) else -1
  {
    var index := start;
    while index < end && source[index] != '.'
      invariant start <= index <= end
      invariant forall i :: start <= i < index ==> source[i] != '.'
    {
      index := index + 1;
    }
    ghost var s := source[start..end];
    assert forall i :: 0 <= i < |s| ==> s[i] == source[start + i];
    PointIndexAt(s, index - start);
    pointPos := if index < end then index else -1;
  }

  /** `m` splits at `p` into whole part and fraction `f`, and `k` is what is kept of it at `scale`. */
  ghost predicate Shape(m: string, p: nat, f: string, k: string, scale: nat) {
    && p <= |m| && |k| == p + scale
    && |f| == (if p < |m| then |m| - p - 1 else 0)
    && (forall i :: 0 <= i < |f| ==> f[i] == m[p + 1 + i])
    && (forall i :: 0 <= i < p ==> k[i] == m[i])
    && (forall i :: p <= i < |k| ==> k[i] == if i - p < |f| then m[i + 1] else '0')
  }

  lemma KeptShape(m: string, scale: nat)
    ensures Shape(m, PointIndex(m), Fraction(m), Kept(m, scale), scale)
  {
    hide PointIndex;
    var p, f, k := PointIndex(m), Fraction(m), Kept(m, scale);
    assert forall i :: 0 <= i < |f| ==> f[i] == m[p + 1 + i];
    forall i | p <= i < |k| ensures k[i] == if i - p < |f| then m[i + 1] else '0' {
      if i - p < |f| { assert k[i] == f[i - p]; }
    }
  }

  /**
   Where the scan stands: index `q` of a text of length `n` with its point at `p` and `f` fraction
   characters, the two scales as far as they have been evened out, and `r` kept characters still to
   be copied.
   */
  ghost predicate Aligned(n: nat, p: nat, f: nat, scale: nat, q: int, target: int, source: int, r: int) {
    && -1 <= q < n && 0 <= r <= p + scale
    && 0 <= target <= scale && 0 <= source <= f
    && if target > source then source == f && q == n - 1 && r == p + target
       else if target < source then target == scale && r == p + scale && q == p + source
       else r == (if q >= p then q else q + 1) && q <= p + source && (source == scale || source == f)
  }

  lemma AlignedStart(m: string, p: nat, f: string, k: string, scale: nat)
    requires Shape(m, p, f, k, scale) && m != ""
    ensures |f| == (if p < |m| then |m| - p - 1 else 0) && !NonZeroFrom(f, |f|)
    ensures Aligned(|m|, p, |f|, scale, |m| - 1, scale, |f|, |k|)
  {
  }

  lemma AlignedRange(n: nat, p: nat, f: nat, scale: nat, q: int, t: int, s: int, r: int)
    requires Aligned(n, p, f, scale, q, t, s, r)
    ensures -1 <= q < n && 0 <= r <= p + scale && 0 <= t <= scale && 0 <= s <= f
  {
  }

  lemma AlignedPad(m: string, p: nat, f: string, k: string, scale: nat, q: int, t: int, s: int, r: int)
    requires Shape(m, p, f, k, scale)
    requires Aligned(|m|, p, |f|, scale, q, t, s, r) && t > s
    ensures r > 0 && k[r - 1] == '0'
    ensures Aligned(|m|, p, |f|, scale, q, t - 1, s, r - 1)
  {
  }

  lemma AlignedDrop(m: string, p: nat, f: string, k: string, scale: nat, q: int, t: int, s: int, r: int)
    requires Shape(m, p, f, k, scale)
    requires Aligned(|m|, p, |f|, scale, q, t, s, r) && t < s
    ensures 0 <= q && (NonZeroFrom(f, s - 1) <==> m[q] != '0' || NonZeroFrom(f, s))
    ensures Aligned(|m|, p, |f|, scale, q - 1, t, s - 1, r)
  {
  }

  lemma AlignedPoint(m: string, p: nat, f: string, scale: nat, q: int, s: int, r: int)
    requires Aligned(|m|, p, |f|, scale, q, s, s, r) && q == p
    ensures Aligned(|m|, p, |f|, scale, q - 1, s, s, r)
  {
  }

  lemma AlignedCopy(m: string, p: nat, f: string, k: string, scale: nat, q: int, s: int, r: int)
    requires Shape(m, p, f, k, scale)
    requires Aligned(|m|, p, |f|, scale, q, s, s, r) && 0 <= q != p
    ensures r > 0 && k[r - 1] == m[q]
    ensures Aligned(|m|, p, |f|, scale, q - 1, s, s, r - 1)
  {
  }

  /** When the scan or the target is used up, the scales are even and `r` decides the overflow. */
  lemma AlignedEnd(m: string, p: nat, f: string, k: string, scale: nat, q: int, t: int, s: int, r: int, len: nat)
    requires Shape(m, p, f, k, scale) && m != "" && scale <= len && 1 <= len
    requires Aligned(|m|, p, |f|, scale, q, t, s, r) && |k| - r <= len
    requires q < 0 || |k| - r == len
    ensures NonZeroFrom(f, s) <==> NonZeroFrom(f, scale)
    ensures (if q == p then q - 1 else q) >= 0 <==> r > 0
    ensures q < 0 ==> r == 0
  {
  }

  /** The kept characters from index `r` on are digits and stand right-aligned in the field. */
  ghost predicate Copied(target: array<Byte>, base: nat, len: nat, k: string, r: int)
    reads target
  {
    && base + len <= target.Length
    && 0 <= r <= |k| && |k| - r <= len
    && forall i :: r <= i < |k| ==> IsDigit(k[i]) && target[base + len - |k| + i] == DigitOf(k[i])
  }

  lemma NothingCopied(target: array<Byte>, base: nat, len: nat, k: string)
    requires base + len <= target.Length
    ensures Copied(target, base, len, k, |k|)
  {
  }

  lemma CopiedTail(target: array<Byte>, base: nat, len: nat, k: string, r: int)
    requires Copied(target, base, len, k, r) && (r == 0 || |k| - r == len)
    ensures TailIsDigits(k, len)
  {
  }

  lemma TailBroken(k: string, len: nat, r: int)
    requires 0 < r <= |k| && |k| - r < len && !IsDigit(k[r - 1])
    ensures !TailIsDigits(k, len)
  {
  }

  method PutDigit(target: array<Byte>, base: nat, len: nat, ghost k: string, ghost r: nat, targetPos: nat, d: Digit)
    requires Copied(target, base, len, k, r)
    requires 0 < r && targetPos == len - 1 - (|k| - r)
    requires IsDigit(k[r - 1]) && d == DigitOf(k[r - 1])
    modifies target
    ensures Copied(target, base, len, k, r - 1)
    ensures forall i :: 0 <= i < base || base + len <= i < target.Length ==> target[i] == old(target[i])
  {
    target[base + targetPos] := d;
  }

  /** Copies the digits from the right, after evening out the scales. */
  method CopyDigits(target: array<Byte>, base: nat, len: nat, scale: nat,
                    source: string, start: nat, end: nat, pointPos: int,
                    ghost p: nat, ghost f: string, ghost k: string)
    returns (status: Status, truncated: bool, free: nat)
    requires base + len <= target.Length && 1 <= len && scale <= len
    requires start < end <= |source|
    requires Shape(source[start..end], p, f, k, scale)
    requires pointPos == if p < end - start then start + p else -1
    modifies target
    ensures status == if !TailIsDigits(k, len) then StringError
                      else if |k| > len then NumericOverflow else Ok
    ensures truncated <==> status != StringError && NonZeroFrom(f, scale)
    ensures status == Ok ==> free == len - |k| && Copied(target, base, len, k, 0)
    ensures forall i :: 0 <= i < base || base + len <= i < target.Length ==> target[i] == old(target[i])
  {
    hide Copied, Shape, Aligned, TailIsDigits, NonZeroFrom;
    ghost var m := source[start..end];
    NothingCopied(target, base, len, k);
    AlignedStart(m, p, f, k, scale);
    var targetScale, sourceScale := scale, if pointPos >= 0 then end - pointPos - 1 else 0;
    var sourcePos, targetPos, raise := end - 1, len - 1, false;
    ghost var r := |k|;
    while sourcePos >= start && targetPos >= 0
      invariant -1 <= targetPos < len && r == |k| - (len - 1 - targetPos)
      invariant Aligned(|m|, p, |f|, scale, sourcePos - start, targetScale, sourceScale, r)
      invariant 0 <= sourceScale && (raise <==> NonZeroFrom(f, sourceScale))
      invariant Copied(target, base, len, k, r)
      invariant forall i :: 0 <= i < base || base + len <= i < target.Length ==> target[i] == old(target[i])
      decreases sourcePos + targetScale
    {
      ghost var q := sourcePos - start;
      AlignedRange(|m|, p, |f|, scale, q, targetScale, sourceScale, r);
      if targetScale > sourceScale {
        AlignedPad(m, p, f, k, scale, q, targetScale, sourceScale, r);
        PutDigit(target, base, len, k, r, targetPos, 0);
        targetPos, r := targetPos - 1, r - 1;
        targetScale := targetScale - 1;
      } else if targetScale < sourceScale {
        AlignedDrop(m, p, f, k, scale, q, targetScale, sourceScale, r);
        if source[sourcePos] != '0' {
          raise := true;
        }
        sourcePos := sourcePos - 1;
        sourceScale := sourceScale - 1;
      } else if sourcePos == pointPos {
        AlignedPoint(m, p, f, scale, q, sourceScale, r);
        sourcePos := sourcePos - 1;
      } else {
        AlignedCopy(m, p, f, k, scale, q, sourceScale, r);
        if source[sourcePos] < '0' || source[sourcePos] > '9' {
          TailBroken(k, len, r);
          return StringError, false, 0;
        }
        PutDigit(target, base, len, k, r, targetPos, DigitOf(source[sourcePos]));
        targetPos, r := targetPos - 1, r - 1;
        sourcePos := sourcePos - 1;
      }
    }
    AlignedRange(|m|, p, |f|, scale, sourcePos - start, targetScale, sourceScale, r);
    AlignedEnd(m, p, f, k, scale, sourcePos - start, targetScale, sourceScale, r, len);
    CopiedTail(target, base, len, k, r);
    truncated := raise;
    if sourcePos == pointPos {
      sourcePos := sourcePos - 1;
    }
    if sourcePos >= start {
      return NumericOverflow, truncated, 0;
    }
    status, free := Ok, targetPos + 1;
  }

  function SignFlag(flagged: bool): int {
    if flagged then 128 else 0
  }

  /** Digits with the sign flag 0200 on the first byte, as the converter leaves them. */
  ghost predicate Holds(target: array<Byte>, base: nat, r: DecResult)
    reads target
  {
    && base + |r.digits| <= target.Length
    && forall i :: 0 <= i < |r.digits| ==>
         target[base + i] == SignFlag(i == 0 && r.negative) + r.digits[i]
  }

  method PadZeros(target: array<Byte>, base: nat, free: nat)
    requires base + free <= target.Length
    modifies target
    ensures forall i :: base <= i < base + free ==> target[i] == 0
    ensures forall i :: 0 <= i < base || base + free <= i < target.Length ==> target[i] == old(target[i])
  {
    var targetPos := free - 1;
    while targetPos >= 0
      invariant -1 <= targetPos < free
      invariant forall i :: base + targetPos < i < base + free ==> target[i] == 0
      invariant forall i :: 0 <= i < base || base + free <= i < target.Length ==> target[i] == old(target[i])
    {
      target[base + targetPos] := 0;
      targetPos := targetPos - 1;
    }
  }

  /** Pads the field on the left and sets the sign flag. */
  method Finish(target: array<Byte>, base: nat, len: nat, free: nat, negative: bool, ghost k: string, ghost lost: bool)
    requires Copied(target, base, len, k, 0) && 1 <= len && free == len - |k|
    modifies target
    ensures forall i :: 0 <= i < |k| ==> IsDigit(k[i])
    ensures Holds(target, base, DecResult(Ok, Zeros(free) + ToDigits(k), negative, lost))
    ensures forall i :: 0 <= i < base || base + len <= i < target.Length ==> target[i] == old(target[i])
  {
    PadZeros(target, base, free);
    ghost var ds := Zeros(free) + ToDigits(k);
    assert forall i :: 0 <= i < len ==> target[base + i] == ds[i] by {
      forall i | 0 <= i < len ensures target[base + i] == ds[i] {
        if i >= free { assert target[base + len - |k| + (i - free)] == DigitOf(k[i - free]); }
      }
    }
    if negative {
      assert target[base + 0] == ds[0];
      target[base] := 128 + target[base];
    }
  }

  /** Converts the text from its first significant character on. */
  method ConvSignificant(target: array<Byte>, base: nat, len: nat, scale: nat,
                         source: string, start: nat, end: nat, negative: bool)
    returns (status: Status, truncated: bool)
    requires base + len <= target.Length && 1 <= len && scale <= len
    requires start <= end <= |source|
    modifies target
    ensures status == ParseSignificant(source[start..end], negative, len, scale).status
    ensures truncated == ParseSignificant(source[start..end], negative, len, scale).truncated
    ensures status == Ok ==> Holds(target, base, ParseSignificant(source[start..end], negative, len, scale))
    ensures forall i :: 0 <= i < base || base + len <= i < target.Length ==> target[i] == old(target[i])
  {
    if start == end {
      PadZeros(target, base, len);
      return Ok, false;
    }
    ghost var m := source[start..end];
    ghost var k := Kept(m, scale);
    var pointPos := FindPoint(source, start, end);
    KeptShape(m, scale);
    hide Kept, PointIndex, Fraction;
    var free;
    status, truncated, free :=
      CopyDigits(target, base, len, scale, source, start, end, pointPos, PointIndex(m), Fraction(m), k);
    ghost var r := ParseSignificant(m, negative, len, scale);
    assert status == r.status && truncated == r.truncated;
    if status == Ok {
      assert r == DecResult(Ok, Zeros(free) + ToDigits(k), negative, truncated);
      Finish(target, base, len, free, negative, k, truncated);
    }
  }

  method ConvAsciiToDec(target: array<Byte>, base: nat, len: nat, scale: nat, source: string)
    returns (status: Status, truncated: bool)
    requires base + len <= target.Length && 1 <= len && scale <= len
    modifies target
    ensures status == ParseDec(source, len, scale).status
    ensures truncated == ParseDec(source, len, scale).truncated
    ensures status == Ok ==> Holds(target, base, ParseDec(source, len, scale))
    ensures forall i :: 0 <= i < base || base + len <= i < target.Length ==> target[i] == old(target[i])
  {
    var start, end := Trim(source);
    if start == end {
      return StringError, false;
    }
    ghost var body := source[start..end];
    var exponent := FindExponent(source, start, end);
    if exponent {
      return FloatText, false;
    }
    var negative := source[start] == '-';
    if source[start] == '+' || negative {
      start := start + 1;
    }
    assert source[start..end] == Unsigned(body);
    start := SkipLeadingZeros(source, start, end);
    status, truncated := ConvSignificant(target, base, len, scale, source, start, end, negative);
  }
}
