/** The float conversions as they run: byte by byte, in place, with the exponent taken apart. */
module TandemBuffer {
  import opened TandemFloat

  /** Swaps the bytes end for end; a length that is odd is left alone. */
  method ByteSwap(source: array<bv8>)
    modifies source
    ensures source.Length % 2 != 0 ==> source[..] == old(source[..])
    ensures source.Length % 2 == 0 ==>
              forall k :: 0 <= k < source.Length ==> source[k] == old(source[source.Length - 1 - k])
  {
    var n := source.Length;
    if n % 2 == 0 {
      var i := 1;
      while i <= n / 2
        invariant 1 <= i <= n / 2 + 1
        invariant forall k :: 0 <= k < i - 1 ==>
                    source[k] == old(source[n - 1 - k]) && source[n - 1 - k] == old(source[k])
        invariant forall k :: i - 1 <= k < n - (i - 1) ==> source[k] == old(source[k])
      {
        var temp := source[i - 1];
        source[i - 1] := source[n - i];
        source[n - i] := temp;
        i := i + 1;
      }
    }
  }

  lemma Word8Reversed(b: seq<bv8>, r: seq<bv8>)
    requires |b| == |r| == 8 && forall k :: 0 <= k < 8 ==> r[k] == b[7 - k]
    ensures Word8(r) == Reverse8(Word8(b))
  {
    hide Join8, Reverse8;
    JoinReversed(b[0], b[1], b[2], b[3], b[4], b[5], b[6], b[7]);
  }

  lemma JoinReversed(b0: bv8, b1: bv8, b2: bv8, b3: bv8, b4: bv8, b5: bv8, b6: bv8, b7: bv8)
    ensures Join8(b7, b6, b5, b4, b3, b2, b1, b0) == Reverse8(Join8(b0, b1, b2, b3, b4, b5, b6, b7))
  {
  }

  lemma Word4Reversed(b: seq<bv8>, r: seq<bv8>)
    requires |b| == |r| == 4 && forall k :: 0 <= k < 4 ==> r[k] == b[3 - k]
    ensures Word4(r) == Reverse4(Word4(b))
  {
  }

  /** The exponent of a T16 double, and the IEEE bytes with their exponent field. */
  function ExponentOf(b: seq<bv8>): bv16
    requires |b| == 8
  {
    ((b[6] & 0x01) as bv16 << 8) | (b[7] as bv16)
  }

  function IeeeBytes(b: seq<bv8>, exp: bv16): (r: seq<bv8>)
    requires |b| == 8
    ensures |r| == 8
  {
    var exp1, exp2 := (exp & 0xFF) as bv8, (exp >> 8) as bv8;
    [(b[0] & 0x80) | (exp2 << 4) | (exp1 >> 4),
     (exp1 << 4) | ((b[0] & 0x7F) >> 3),
     (b[0] << 5) | (b[1] >> 3),
     (b[1] << 5) | (b[2] >> 3),
     (b[2] << 5) | (b[3] >> 3),
     (b[3] << 5) | (b[4] >> 3),
     (b[4] << 5) | (b[5] >> 3),
     (b[5] << 5) | (b[6] >> 3)]
  }

  lemma IeeeBytesAre(b: seq<bv8>)
    requires |b| == 8
    ensures ExponentOf(b) == T16Exponent(Word8(b))
    ensures Word8(IeeeBytes(b, ExponentOf(b) + 767)) == AsIeee(Word8(b))
  {
  }

  function T16Bytes(b: seq<bv8>, exp: bv16): (r: seq<bv8>)
    requires |b| == 8
    ensures |r| == 8
  {
    var exp1, exp2 := (exp & 0xFF) as bv8, (exp >> 8) as bv8;
    [(b[0] & 0x80) | ((b[1] & 0x0F) << 3) | ((b[2] & 0xE0) >> 5),
     (b[2] << 3) | (b[3] >> 5),
     (b[3] << 3) | (b[4] >> 5),
     (b[4] << 3) | (b[5] >> 5),
     (b[5] << 3) | (b[6] >> 5),
     (b[6] << 3) | (b[7] >> 5),
     (b[7] << 3) | exp2,
     exp1]
  }

  function IeeeExponentOf(b: seq<bv8>): bv16
    requires |b| == 8
  {
    (((b[0] & 0x7F) as bv16 << 8) | ((b[1] & 0xF0) as bv16)) >> 4
  }

  lemma IeeeExponentIs(b: seq<bv8>)
    requires |b| == 8
    ensures IeeeExponentOf(b) == IeeeExponent(Word8(b))
  {
  }

  lemma T16BytesAre(b: seq<bv8>)
    requires |b| == 8 && 767 <= IeeeExponent(Word8(b)) <= 1278
    ensures Word8(T16Bytes(b, IeeeExponent(Word8(b)) - 767)) == AsT16(Word8(b))
  {
  }

  /** Copies the converted bytes over the buffer. */
  method Store(op: array<bv8>, bytes: seq<bv8>)
    requires op.Length == |bytes|
    modifies op
    ensures op[..] == bytes
  {
    forall k | 0 <= k < op.Length { op[k] := bytes[k]; }
  }

  /** Reverses the converted bytes and copies them over the buffer. */
  method StoreReversed(op: array<bv8>, bytes: seq<bv8>)
    requires op.Length == |bytes| && op.Length % 2 == 0
    modifies op
    ensures forall k :: 0 <= k < op.Length ==> op[k] == bytes[op.Length - 1 - k]
  {
    var rop := new bv8[op.Length];
    Store(rop, bytes);
    assert forall k :: 0 <= k < rop.Length ==> rop[k] == bytes[k];
    ByteSwap(rop);
    Store(op, rop[..]);
    assert forall k :: 0 <= k < op.Length ==> op[k] == op[..][k];
  }

  method ConvFloat64ToIeee(op: array<bv8>) returns (status: Status)
    requires op.Length == 8
    modifies op
    ensures status == StatusOk && Word8(op[..]) == ToIeee(old(Word8(op[..])))
  {
    hide Word8, Reverse8, AsIeee, ExponentOf, T16Exponent, IeeeBytes;
    IeeeBytesAre(op[..]);
    var exp := ExponentOf(op[..]);
    if exp == 0 { return StatusOk; }
    var bytes := IeeeBytes(op[..], exp + 767);
    StoreReversed(op, bytes);
    Word8Reversed(bytes, op[..]);
    status := StatusOk;
  }

  /** The part behind the swap: tests the exponent and moves the fields. */
  method PutT16(op: array<bv8>) returns (status: Status)
    requires op.Length == 8
    modifies op
    ensures (status, Word8(op[..])) == T16Of(old(Word8(op[..])))
  {
    hide Word8, AsT16, IeeeExponent, IeeeExponentOf, T16Bytes;
    IeeeExponentIs(op[..]);
    var exp := IeeeExponentOf(op[..]);
    if exp == 0 { return StatusOk; }
    if exp < 767 { return StatusUnderflow; }
    if exp > 1278 { return StatusOverflow; }
    T16BytesAre(op[..]);
    Store(op, T16Bytes(op[..], exp - 767));
    status := StatusOk;
  }

  method ConvIeeeToFloat64(op: array<bv8>) returns (status: Status)
    requires op.Length == 8
    modifies op
    ensures (status, Word8(op[..])) == ToT16(old(Word8(op[..])))
  {
    hide Word8, Reverse8, T16Of;
    ghost var was := op[..];
    ByteSwap(op);
    Word8Reversed(was, op[..]);
    status := PutT16(op);
  }

  // --- single format ---

  function ExponentOfS(b: seq<bv8>): bv32
    requires |b| == 4
  {
    ((b[2] & 0x01) as bv32 << 8) | (b[3] as bv32)
  }

  function IeeeExponentOfS(b: seq<bv8>): bv32
    requires |b| == 4
  {
    ((b[0] & 0x7F) as bv32 << 1) | (((b[1] & 0x80) >> 7) as bv32)
  }

  method ConvFloat32ToIeee(op: array<bv8>) returns (status: Status)
    requires op.Length == 4
    modifies op
    ensures (status, Word4(op[..])) == ToIeeeS(old(Word4(op[..])))
  {
    hide Word4, Reverse4, AsIeeeS, T16ExponentS, ExponentOfS, IeeeBytesS;
    ExponentSIs(op[..]);
    var exp := ExponentOfS(op[..]);
    if exp == 0 { return StatusOk; }
    if exp > 382 { return StatusOverflow; }
    var bytes := IeeeBytesS(op[..], exp - 129);
    IeeeBytesSAre(op[..]);
    StoreReversed(op, bytes);
    Word4Reversed(bytes, op[..]);
    status := StatusOk;
  }

  method ConvIeeeToFloat32(op: array<bv8>) returns (status: Status)
    requires op.Length == 4
    modifies op
    ensures (status, Word4(op[..])) == ToT16S(old(Word4(op[..])))
  {
    hide Word4, Reverse4, T16OfS;
    ghost var was := op[..];
    ByteSwap(op);
    Word4Reversed(was, op[..]);
    status := PutT16S(op);
  }

  /** The part behind the swap. */
  method PutT16S(op: array<bv8>) returns (status: Status)
    requires op.Length == 4
    modifies op
    ensures (status, Word4(op[..])) == T16OfS(old(Word4(op[..])))
  {
    hide Word4, AsT16S, IeeeExponentS, IeeeExponentOfS, T16BytesS;
    IeeeExponentSIs(op[..]);
    var exp := IeeeExponentOfS(op[..]);
    if exp == 0 { return StatusOk; }
    T16BytesSAre(op[..]);
    Store(op, T16BytesS(op[..], exp + 129));
    status := StatusOk;
  }

  function IeeeBytesS(b: seq<bv8>, exp: bv32): (r: seq<bv8>)
    requires |b| == 4
    ensures |r| == 4
  {
    [(b[0] & 0x80) | (((exp >> 1) & 0xFF) as bv8), (((exp & 0x01) as bv8) << 7) | (b[0] & 0x7F), b[1], b[2] & 0xFE]
  }

  function T16BytesS(b: seq<bv8>, exp: bv32): (r: seq<bv8>)
    requires |b| == 4
    ensures |r| == 4
  {
    [(b[0] & 0x80) | (b[1] & 0x7F), b[2], (b[3] & 0xFE) | (((exp >> 8) & 0xFF) as bv8), (exp & 0xFF) as bv8]
  }

  lemma ExponentSIs(b: seq<bv8>)
    requires |b| == 4
    ensures ExponentOfS(b) == T16ExponentS(Word4(b))
  {
  }

  lemma IeeeBytesSAre(b: seq<bv8>)
    requires |b| == 4
    ensures Word4(IeeeBytesS(b, T16ExponentS(Word4(b)) - 129)) == AsIeeeS(Word4(b))
  {
  }

  lemma IeeeExponentSIs(b: seq<bv8>)
    requires |b| == 4
    ensures IeeeExponentOfS(b) == IeeeExponentS(Word4(b))
  {
  }

  lemma T16BytesSAre(b: seq<bv8>)
    requires |b| == 4
    ensures Word4(T16BytesS(b, IeeeExponentS(Word4(b)) + 129)) == AsT16S(Word4(b))
  {
  }
}
