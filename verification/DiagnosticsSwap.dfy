/**
 Byte-order conversion of a diagnostics message in place: the number of conditions, and for each
 condition a row number, an error code, the length of the text, the text, and six bytes of SQLSTATE.
 */
module DiagnosticsSwap {
  import opened Positional

  const INT32 := 0x1_0000_0000

  predicate Fits(v: int) {
    -0x8000_0000 <= v < 0x8000_0000
  }

  /** The four bytes of a 32-bit number, most or least significant first. */
  function Unsigned32(v: int): nat {
    v % INT32
  }

  function BigEndian(u: nat): (b: seq<Byte>)
    requires u < INT32
    ensures |b| == 4
  {
    [u / 0x100_0000, u / 0x1_0000 % 256, u / 256 % 256, u % 256]
  }

  function Long(v: int, big: bool): (b: seq<Byte>)
    ensures |b| == 4
  {
    var b := BigEndian(Unsigned32(v));
    if big then b else [b[3], b[2], b[1], b[0]]
  }

  /** What the machine reads from four bytes. */
  function ReadLong(b: seq<Byte>): int
    requires |b| == 4
  {
    var u: int := b[0] as int + 256 * (b[1] as int) + 0x1_0000 * (b[2] as int) + 0x100_0000 * (b[3] as int);
    if u < 0x8000_0000 then u else u - INT32
  }

  lemma NextByte(u: nat)
    ensures u == 256 * (u / 256) + u % 256 && u / 256 / 256 == u / 0x1_0000 && u / 0x1_0000 / 256 == u / 0x100_0000
  {
  }

  lemma FourBytes(u: nat)
    requires u < INT32
    ensures var b := BigEndian(u);
            b[3] as int + 256 * (b[2] as int) + 0x1_0000 * (b[1] as int) + 0x100_0000 * (b[0] as int) == u
  {
    NextByte(u);
    NextByte(u / 256);
    NextByte(u / 0x1_0000);
  }

  lemma SignedAgain(v: int)
    requires Fits(v)
    ensures Unsigned32(v) < INT32
    ensures v == if Unsigned32(v) < 0x8000_0000 then Unsigned32(v) else Unsigned32(v) - INT32
  {
  }

  lemma ReadBack(v: int)
    requires Fits(v)
    ensures ReadLong(Long(v, false)) == v
  {
    hide BigEndian, Unsigned32;
    SignedAgain(v);
    FourBytes(Unsigned32(v));
  }

  lemma ShortcutIsSwap(b: seq<Byte>)
    requires |b| == 4
    ensures ReadLong(b) == 0 || ReadLong(b) == -1 ==> [b[3], b[2], b[1], b[0]] == b
  {
  }

  // --- messages ---

  datatype Condition = Condition(rowId: int, sqlCode: int, text: seq<Byte>, sqlState: seq<Byte>)

  predicate ValidCondition(c: Condition) {
    Fits(c.rowId) && Fits(c.sqlCode) && Fits(|c.text|) && |c.sqlState| == 6
  }

  function Header(c: Condition, big: bool): (b: seq<Byte>)
    ensures |b| == 12
  {
    Long(c.rowId, big) + Long(c.sqlCode, big) + Long(|c.text|, big)
  }

  function Encode(c: Condition, big: bool): seq<Byte> {
    Header(c, big) + c.text + c.sqlState
  }

  function EncodeAll(cs: seq<Condition>, big: bool): seq<Byte> {
    if cs == [] then [] else Encode(cs[0], big) + EncodeAll(cs[1..], big)
  }

  function Message(cs: seq<Condition>, big: bool): seq<Byte> {
    Long(|cs|, big) + EncodeAll(cs, big)
  }

  lemma LongIs(v: int)
    requires 0 <= v < 256
    ensures Long(v, true) == [0, 0, 0, v] && Long(v, false) == [v, 0, 0, 0]
  {
  }

  /** The bytes of a message with one condition: row 7, code 100 and a text of two characters. */
  lemma OneCondition(text: seq<Byte>, sqlState: seq<Byte>)
    requires |text| == 2 && |sqlState| == 6
    ensures Message([Condition(7, 100, text, sqlState)], true) ==
            [0, 0, 0, 1, 0, 0, 0, 7, 0, 0, 0, 100, 0, 0, 0, 2] + text + sqlState
  {
    hide Long;
    LongIs(1);
    LongIs(7);
    LongIs(100);
    LongIs(2);
    var c := Condition(7, 100, text, sqlState);
    assert EncodeAll([c], true) == Encode(c, true) + [];
  }

  lemma {:induction false} EncodeSnoc(cs: seq<Condition>, c: Condition, big: bool)
    ensures EncodeAll(cs + [c], big) == EncodeAll(cs, big) + Encode(c, big)
  {
    if cs == [] {
      assert cs + [c] == [c];
      assert EncodeAll([c], big) == Encode(c, big) + EncodeAll([], big);
    } else {
      assert (cs + [c])[1..] == cs[1..] + [c];
      EncodeSnoc(cs[1..], c, big);
    }
  }

  // --- the conversion ---

  method LongSwap(buffer: array<Byte>, at: nat, swap: bool)
    requires at + 4 <= buffer.Length
    modifies buffer
    ensures buffer[at..at + 4] == if swap then old([buffer[at + 3], buffer[at + 2], buffer[at + 1], buffer[at]])
                                  else old(buffer[at..at + 4])
    ensures buffer[..at] == old(buffer[..at]) && buffer[at + 4..] == old(buffer[at + 4..])
  {
    if !swap { return; }
    ghost var b0, b1, b2, b3 := buffer[at], buffer[at + 1], buffer[at + 2], buffer[at + 3];
    assert buffer[at..at + 4] == [b0, b1, b2, b3];
    var value := ReadLong(buffer[at..at + 4]);
    ShortcutIsSwap([b0, b1, b2, b3]);
    if value != 0 && value != -1 {
      var hold := buffer[at];
      buffer[at] := buffer[at + 3];
      buffer[at + 3] := hold;
      hold := buffer[at + 2];
      buffer[at + 2] := buffer[at + 1];
      buffer[at + 1] := hold;
    }
    assert buffer[at..at + 4] == [b3, b2, b1, b0];
  }

  lemma Parts(s: seq<Byte>, front: seq<Byte>, mid: seq<Byte>, rest: seq<Byte>)
    ensures s == front + mid + rest <==>
            && |s| == |front| + |mid| + |rest| && s[..|front|] == front
            && s[|front|..|front| + |mid|] == mid && s[|front| + |mid|..] == rest
  {
    var n, m := |front|, |front| + |mid|;
    if |s| == m + |rest| && s[..n] == front && s[n..m] == mid && s[m..] == rest {
      assert s == s[..n] + s[n..m] + s[m..];
    }
  }

  /** A number that stands between `front` and `rest` in the buffer. */
  method SwapNumber(buffer: array<Byte>, at: nat, swap: bool, ghost v: int, ghost front: seq<Byte>,
                    ghost rest: seq<Byte>)
    returns (value: int)
    requires Fits(v) && |front| == at && buffer[..] == front + Long(v, swap) + rest
    modifies buffer
    ensures buffer[..] == front + Long(v, false) + rest && value == v
  {
    Parts(buffer[..], front, Long(v, swap), rest);
    assert buffer[..at] == buffer[..][..at] && buffer[at..at + 4] == buffer[..][at..at + 4];
    assert buffer[at + 4..] == buffer[..][at + 4..];
    LongSwap(buffer, at, swap);
    Parts(buffer[..], buffer[..at], buffer[at..at + 4], buffer[at + 4..]);
    ReadBack(v);
    value := ReadLong(buffer[at..at + 4]);
  }

  lemma Split3(front: seq<Byte>, a: seq<Byte>, b: seq<Byte>, c: seq<Byte>, rest: seq<Byte>)
    ensures front + (a + b + c) + rest == front + a + (b + c + rest)
    ensures front + a + (b + c + rest) == (front + a) + b + (c + rest)
    ensures (front + a) + b + (c + rest) == (front + a + b) + c + rest
  {
  }

  /** Converts the numbers of one condition and steps over its text and SQLSTATE. */
  method SwapCondition(buffer: array<Byte>, at: nat, swap: bool, ghost c: Condition, ghost front: seq<Byte>,
                       ghost rest: seq<Byte>)
    returns (next: nat)
    requires ValidCondition(c) && |front| == at && buffer[..] == front + Encode(c, swap) + rest
    modifies buffer
    ensures buffer[..] == front + Encode(c, false) + rest && next == at + |Encode(c, false)|
  {
    hide Long;
    ghost var tail := c.text + c.sqlState + rest;
    ghost var a, b, n := Long(c.rowId, swap), Long(c.sqlCode, swap), Long(|c.text|, swap);
    ghost var a', b', n' := Long(c.rowId, false), Long(c.sqlCode, false), Long(|c.text|, false);
    assert front + Encode(c, swap) + rest == front + (a + b + n) + tail;
    Split3(front, a, b, n, tail);
    Split3(front, a', b, n, tail);
    Split3(front, a', b', n, tail);
    Split3(front, a', b', n', tail);
    var rowId := SwapNumber(buffer, at, swap, c.rowId, front, b + n + tail);
    var sqlCode := SwapNumber(buffer, at + 4, swap, c.sqlCode, front + a', n + tail);
    var errorTextLen := SwapNumber(buffer, at + 8, swap, |c.text|, front + a' + b', tail);
    assert front + (a' + b' + n') + tail == front + Encode(c, false) + rest;
    next := at + 12 + errorTextLen + 6;
  }

  /**
   With swapping on, the big-endian message of any list of conditions becomes the little-endian
   message of the same list; with swapping off a little-endian message stays as it is. Either way the
   walk ends exactly at the end of the message.
   */
  method SwapMessage(buffer: array<Byte>, swap: bool, ghost cs: seq<Condition>) returns (total: nat)
    requires Fits(|cs|) && forall i :: 0 <= i < |cs| ==> ValidCondition(cs[i])
    requires buffer[..] == Message(cs, swap)
    modifies buffer
    ensures buffer[..] == Message(cs, false) && total == buffer.Length
  {
    hide Long, Encode;
    assert [] + Long(|cs|, swap) + EncodeAll(cs, swap) == Message(cs, swap);
    var numConditions := SwapNumber(buffer, 0, swap, |cs|, [], EncodeAll(cs, swap));
    total := 4;
    if numConditions > 0 {
      var i := 0;
      assert cs[..0] == [] && cs[0..] == cs;
      ghost var start := Long(|cs|, false);
      assert buffer[..] == start + EncodeAll(cs[..0], false) + EncodeAll(cs[0..], swap);
      while i < numConditions
        invariant 0 <= i <= |cs| && total == |start + EncodeAll(cs[..i], false)|
        invariant buffer[..] == start + EncodeAll(cs[..i], false) + EncodeAll(cs[i..], swap)
      {
        ghost var front, c, rest := start + EncodeAll(cs[..i], false), cs[i], EncodeAll(cs[i + 1..], swap);
        Advance(start, cs, i, swap);
        total := SwapCondition(buffer, total, swap, c, front, rest);
        i := i + 1;
      }
      assert cs[..i] == cs && cs[i..] == [];
    }
  }

  lemma Advance(start: seq<Byte>, cs: seq<Condition>, i: nat, swap: bool)
    requires i < |cs|
    ensures start + EncodeAll(cs[..i], false) + EncodeAll(cs[i..], swap) ==
            (start + EncodeAll(cs[..i], false)) + Encode(cs[i], swap) + EncodeAll(cs[i + 1..], swap)
    ensures (start + EncodeAll(cs[..i], false)) + Encode(cs[i], false) + EncodeAll(cs[i + 1..], swap) ==
            start + EncodeAll(cs[..i + 1], false) + EncodeAll(cs[i + 1..], swap)
    ensures |start + EncodeAll(cs[..i + 1], false)| == |start + EncodeAll(cs[..i], false)| + |Encode(cs[i], false)|
  {
    hide Encode;
    assert cs[i..][0] == cs[i] && cs[i..][1..] == cs[i + 1..];
    assert cs[..i + 1] == cs[..i] + [cs[i]];
    EncodeSnoc(cs[..i], cs[i], false);
  }

  // --- reading a converted message ---

  datatype Parsed = Parsed(conditions: seq<Condition>) | Malformed

  /** Reads exactly `n` conditions from a little-endian message body. */
  function ParseBody(b: seq<Byte>, n: nat): Parsed {
    if n == 0 then if b == [] then Parsed([]) else Malformed
    else if |b| < 18 then Malformed
    else
      var len := ReadLong(b[8..12]);
      if len < 0 || |b| < 18 + len then Malformed
      else match ParseBody(b[18 + len..], n - 1) {
        case Malformed => Malformed
        case Parsed(cs) =>
          Parsed([Condition(ReadLong(b[..4]), ReadLong(b[4..8]), b[12..12 + len], b[12 + len..18 + len])] + cs)
      }
  }

  lemma EncodedFields(c: Condition, rest: seq<Byte>)
    requires ValidCondition(c)
    ensures var b, len := Encode(c, false) + rest, |c.text|;
            && |b| >= 18 + len && b[18 + len..] == rest
            && ReadLong(b[..4]) == c.rowId && ReadLong(b[4..8]) == c.sqlCode && ReadLong(b[8..12]) == len
            && b[12..12 + len] == c.text && b[12 + len..18 + len] == c.sqlState
  {
    hide Long, ReadLong;
    var b, len := Encode(c, false) + rest, |c.text|;
    assert b[..4] == Long(c.rowId, false) && b[4..8] == Long(c.sqlCode, false) && b[8..12] == Long(len, false);
    ReadBack(c.rowId);
    ReadBack(c.sqlCode);
    ReadBack(len);
  }

  /** Reading the converted message gives back the list of conditions. */
  lemma {:induction false} ParseEncoded(cs: seq<Condition>)
    requires forall i :: 0 <= i < |cs| ==> ValidCondition(cs[i])
    ensures ParseBody(EncodeAll(cs, false), |cs|) == Parsed(cs)
  {
    hide Encode, ReadLong;
    if cs != [] {
      EncodedFields(cs[0], EncodeAll(cs[1..], false));
      ParseEncoded(cs[1..]);
      assert [cs[0]] + cs[1..] == cs;
    }
  }
}
