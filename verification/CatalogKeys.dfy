/**
 Catalog keys stored as "catalog/" and lower-case hexadecimal digits in a store ordered by bytes, and
 the scan that seeks to an encoded prefix and stops at the first key without it.
 */
module CatalogKeys {
  import opened Options
  import opened Positional

  type Bytes = seq<Byte>

  // --- hexadecimal digits ---

  function HexChar(n: Digit16): (b: Byte)
    ensures HexDigit(b) == n
  {
    if n < 10 then 48 + n else 87 + n
  }

  type Digit16 = n: int | 0 <= n < 16

  /** The value of a digit, or -1. */
  function HexDigit(b: Byte): (n: int)
    ensures -1 <= n < 16
  {
    if 48 <= b <= 57 then b - 48 else if 97 <= b <= 102 then b - 87 else -1
  }

  const ALPHABET := "0123456789abcdef"

  /** The digits are the sixteen characters, in order, and nothing else is one. */
  lemma HexAlphabet(n: Digit16, b: Byte)
    ensures HexChar(n) as char == ALPHABET[n]
    ensures HexDigit(b) >= 0 <==> exists i: Digit16 :: ALPHABET[i] == b as char
  {
    if HexDigit(b) >= 0 {
      assert ALPHABET[HexDigit(b)] == b as char;
    }
  }

  function Encode(s: Bytes): (r: Bytes)
    ensures |r| == 2 * |s|
  {
    if s == [] then [] else [HexChar(s[0] / 16), HexChar(s[0] % 16)] + Encode(s[1..])
  }

  function Decode(r: Bytes): Option<Bytes> {
    if r == [] then Some([])
    else if |r| == 1 || HexDigit(r[0]) < 0 || HexDigit(r[1]) < 0 then None
    else match Decode(r[2..])
      case None => None
      case Some(s) => Some([HexDigit(r[0]) * 16 + HexDigit(r[1])] + s)
  }

  lemma {:induction false} DecodeEncoded(s: Bytes)
    ensures Decode(Encode(s)) == Some(s)
  {
    hide HexChar, HexDigit;
    if s != [] {
      DecodeEncoded(s[1..]);
      assert Encode(s)[2..] == Encode(s[1..]);
      assert s[0] / 16 * 16 + s[0] % 16 == s[0];
      assert [s[0]] + s[1..] == s;
    }
  }

  lemma HexCharUnique(b: Byte)
    requires HexDigit(b) >= 0
    ensures HexChar(HexDigit(b)) == b
  {
  }

  /** Only encodings decode: the other half of the round trip. */
  lemma {:induction false} EncodeDecoded(r: Bytes)
    requires Decode(r).Some?
    ensures Encode(Decode(r).value) == r
  {
    if r != [] {
      EncodeDecoded(r[2..]);
      HexCharUnique(r[0]);
      HexCharUnique(r[1]);
      var s := Decode(r).value;
      assert s[1..] == Decode(r[2..]).value;
      assert r == [r[0], r[1]] + r[2..];
    }
  }

  // --- order and prefixes ---

  /** The byte order of the store. */
  predicate Less(a: Bytes, b: Bytes) {
    b != [] && (a == [] || a[0] < b[0] || (a[0] == b[0] && Less(a[1..], b[1..])))
  }

  predicate StartsWith(s: Bytes, p: Bytes) {
    |p| <= |s| && s[..|p|] == p
  }

  lemma HexCharOrder(m: Digit16, n: Digit16)
    ensures HexChar(m) < HexChar(n) <==> m < n
  {
  }

  /** Encoding keeps the order of keys, both ways. */
  lemma {:induction false} EncodeOrder(a: Bytes, b: Bytes)
    ensures Less(Encode(a), Encode(b)) <==> Less(a, b)
  {
    if a != [] && b != [] {
      EncodeOrder(a[1..], b[1..]);
      HexCharOrder(a[0] / 16, b[0] / 16);
      HexCharOrder(a[0] % 16, b[0] % 16);
      assert Encode(a)[1..][1..] == Encode(a[1..]) && Encode(b)[1..][1..] == Encode(b[1..]);
    }
  }

  lemma {:induction false} EncodeAppend(a: Bytes, b: Bytes)
    ensures Encode(a + b) == Encode(a) + Encode(b)
  {
    hide HexChar;
    if a == [] {
      assert a + b == b;
    } else {
      EncodeAppend(a[1..], b);
      assert (a + b)[0] == a[0] && (a + b)[1..] == a[1..] + b;
      var pair := [HexChar(a[0] / 16), HexChar(a[0] % 16)];
      assert pair + (Encode(a[1..]) + Encode(b)) == (pair + Encode(a[1..])) + Encode(b);
    }
  }

  lemma EncodeUnique(a: Bytes, b: Bytes)
    requires Encode(a) == Encode(b)
    ensures a == b
  {
    DecodeEncoded(a);
    DecodeEncoded(b);
  }

  /** Encoding keeps prefixes, both ways. */
  lemma EncodePrefix(s: Bytes, p: Bytes)
    ensures StartsWith(Encode(s), Encode(p)) <==> StartsWith(s, p)
  {
    if |p| <= |s| {
      var front, back := s[..|p|], s[|p|..];
      assert s == front + back;
      EncodeAppend(front, back);
      assert Encode(s)[..|Encode(p)|] == Encode(front);
      if Encode(front) == Encode(p) { EncodeUnique(front, p); }
    }
  }

  const CATALOG: Bytes := [99, 97, 116, 97, 108, 111, 103, 47]

  function PhysicalKey(s: Bytes): Bytes {
    CATALOG + Encode(s)
  }

  lemma {:induction false} CommonFront(f: Bytes, a: Bytes, b: Bytes)
    ensures Less(f + a, f + b) <==> Less(a, b)
  {
    if f == [] {
      assert f + a == a && f + b == b;
    } else {
      CommonFront(f[1..], a, b);
      assert (f + a)[1..] == f[1..] + a && (f + b)[1..] == f[1..] + b;
    }
  }

  lemma PhysicalOrder(a: Bytes, b: Bytes)
    ensures Less(PhysicalKey(a), PhysicalKey(b)) <==> Less(a, b)
    ensures StartsWith(PhysicalKey(a), PhysicalKey(b)) <==> StartsWith(a, b)
    ensures PhysicalKey(a) == PhysicalKey(b) <==> a == b
  {
    CommonFront(CATALOG, Encode(a), Encode(b));
    EncodeOrder(a, b);
    EncodePrefix(a, b);
    var x, y := PhysicalKey(a), PhysicalKey(b);
    if |b| <= |a| {
      assert x[..|y|] == CATALOG + Encode(a)[..|Encode(b)|];
      assert x[..|y|][8..] == Encode(a)[..|Encode(b)|] && y[8..] == Encode(b);
    }
    if x == y {
      assert x[8..] == Encode(a) && y[8..] == Encode(b);
      EncodeUnique(a, b);
    }
  }

  // --- the loops ---

  method HexEncode(value: Bytes) returns (result: Bytes)
    ensures result == Encode(value)
  {
    result := [];
    var i := 0;
    while i < |value|
      invariant 0 <= i <= |value|
      invariant result + Encode(value[i..]) == Encode(value)
    {
      assert value[i..][1..] == value[i + 1..];
      assert result + Encode(value[i..]) ==
             result + [HexChar(value[i] / 16), HexChar(value[i] % 16)] + Encode(value[i + 1..]);
      result := result + [HexChar(value[i] / 16)];
      result := result + [HexChar(value[i] % 16)];
      i := i + 1;
    }
    assert value[i..] == [];
  }

  /** What decoding the first part and the rest gives together. */
  function Joined(done: Bytes, rest: Option<Bytes>): Option<Bytes> {
    match rest case None => None case Some(s) => Some(done + s)
  }

  method HexDecode(value: Bytes) returns (decoded: Option<Bytes>)
    ensures decoded == Decode(value)
  {
    if |value| % 2 != 0 {
      OddFails(value);
      return None;
    }
    var s: Bytes := [];
    var i := 0;
    assert value[0..] == value;
    JoinedNone(Decode(value));
    while i < |value|
      invariant 0 <= i <= |value| && i % 2 == 0
      invariant Joined(s, Decode(value[i..])) == Decode(value)
    {
      var rest := value[i..];
      var high, low := HexDigit(value[i]), HexDigit(value[i + 1]);
      assert rest[0] == value[i] && rest[1] == value[i + 1] && rest[2..] == value[i + 2..];
      if high < 0 || low < 0 { return None; }
      assert Decode(rest) == Joined([high * 16 + low], Decode(rest[2..]));
      JoinedTwice(s, [high * 16 + low], Decode(rest[2..]));
      s := s + [high * 16 + low];
      i := i + 2;
    }
    assert value[i..] == [] && s + [] == s;
    decoded := Some(s);
  }

  lemma JoinedNone(rest: Option<Bytes>)
    ensures Joined([], rest) == rest
  {
    match rest
    case None =>
    case Some(s) => assert [] + s == s;
  }

  lemma JoinedTwice(a: Bytes, b: Bytes, rest: Option<Bytes>)
    ensures Joined(a, Joined(b, rest)) == Joined(a + b, rest)
  {
    match rest
    case None =>
    case Some(s) => assert a + (b + s) == a + b + s;
  }

  lemma {:induction false} OddFails(r: Bytes)
    requires |r| % 2 != 0
    ensures Decode(r) == None
  {
    if |r| > 1 { OddFails(r[2..]); }
  }

  // --- the scan ---

  predicate Sorted(keys: seq<Bytes>) {
    forall i, j :: 0 <= i < j < |keys| ==> Less(keys[i], keys[j])
  }

  lemma PrefixFirst(k: Bytes, p: Bytes)
    requires p != []
    ensures StartsWith(k, p) <==> k != [] && k[0] == p[0] && StartsWith(k[1..], p[1..])
  {
    if |p| <= |k| {
      assert k[..|p|] == [k[0]] + k[1..][..|p| - 1];
      assert p == [p[0]] + p[1..];
    }
  }

  lemma {:induction false} PrefixNotLess(k: Bytes, p: Bytes)
    requires StartsWith(k, p)
    ensures !Less(k, p)
  {
    if p != [] {
      PrefixFirst(k, p);
      PrefixNotLess(k[1..], p[1..]);
    }
  }

  /** Once a key at or after the prefix does not have it, no later key has. */
  lemma {:induction false} PastPrefix(k: Bytes, later: Bytes, p: Bytes)
    requires !Less(k, p) && !StartsWith(k, p) && Less(k, later)
    ensures !StartsWith(later, p)
  {
    PrefixFirst(k, p);
    PrefixFirst(later, p);
    if k[0] == p[0] == later[0] { PastPrefix(k[1..], later[1..], p[1..]); }
  }

  /** The plain filter the scan has to agree with. */
  function WithPrefix(keys: seq<Bytes>, p: Bytes): seq<Bytes> {
    if keys == [] then []
    else WithPrefix(keys[..|keys| - 1], p) + if StartsWith(keys[|keys| - 1], p) then [keys[|keys| - 1]] else []
  }

  lemma {:induction false} NoneLeft(keys: seq<Bytes>, p: Bytes, i: nat, n: nat)
    requires i <= n <= |keys| && forall j :: i <= j < n ==> !StartsWith(keys[j], p)
    ensures WithPrefix(keys[..n], p) == WithPrefix(keys[..i], p)
    decreases n - i
  {
    if i < n {
      NoneLeft(keys, p, i, n - 1);
      assert keys[..n][..n - 1] == keys[..n - 1];
    }
  }

  lemma OneMoreKey(keys: seq<Bytes>, p: Bytes, i: nat)
    requires i < |keys| && StartsWith(keys[i], p)
    ensures WithPrefix(keys[..i + 1], p) == WithPrefix(keys[..i], p) + [keys[i]]
  {
    assert keys[..i + 1][..i] == keys[..i];
  }

  /** The first key that is not below the prefix. */
  method Seek(keys: seq<Bytes>, p: Bytes) returns (i: nat)
    ensures i <= |keys| && (forall j :: 0 <= j < i ==> Less(keys[j], p)) && (i < |keys| ==> !Less(keys[i], p))
  {
    i := 0;
    while i < |keys| && Less(keys[i], p)
      invariant i <= |keys| && forall j :: 0 <= j < i ==> Less(keys[j], p)
    {
      i := i + 1;
    }
  }

  /** Seek to the prefix, go on while the keys have it: exactly the keys the filter selects, in order. */
  method PrefixScan(keys: seq<Bytes>, p: Bytes) returns (visited: seq<Bytes>)
    requires Sorted(keys)
    ensures visited == WithPrefix(keys, p)
    ensures exists a, b :: 0 <= a <= b <= |keys| && visited == keys[a..b]
  {
    hide Less, StartsWith, WithPrefix;
    var i := Seek(keys, p);
    NothingBefore(keys, p, i);
    ghost var first := i;
    visited := [];
    while i < |keys| && StartsWith(keys[i], p)
      invariant first <= i <= |keys| && visited == WithPrefix(keys[..i], p) && visited == keys[first..i]
      invariant i < |keys| ==> !Less(keys[i], p)
    {
      OneMoreKey(keys, p, i);
      visited := visited + [keys[i]];
      if i + 1 < |keys| { AfterMatch(keys[i], keys[i + 1], p); }
      i := i + 1;
    }
    NothingAfter(keys, p, i);
  }

  lemma NothingBefore(keys: seq<Bytes>, p: Bytes, i: nat)
    requires i <= |keys| && forall j :: 0 <= j < i ==> Less(keys[j], p)
    ensures WithPrefix(keys[..i], p) == []
  {
    hide Less, StartsWith;
    forall j | 0 <= j < i ensures !StartsWith(keys[j], p) {
      if StartsWith(keys[j], p) { PrefixNotLess(keys[j], p); }
    }
    NoneLeft(keys, p, 0, i);
  }

  lemma NothingAfter(keys: seq<Bytes>, p: Bytes, i: nat)
    requires Sorted(keys) && i <= |keys|
    requires i < |keys| ==> !Less(keys[i], p) && !StartsWith(keys[i], p)
    ensures WithPrefix(keys, p) == WithPrefix(keys[..i], p)
  {
    hide Less, StartsWith;
    forall j | i < j < |keys| ensures !StartsWith(keys[j], p) { PastPrefix(keys[i], keys[j], p); }
    NoneLeft(keys, p, i, |keys|);
    assert keys[..|keys|] == keys;
  }

  lemma {:induction false} AfterMatch(k: Bytes, next: Bytes, p: Bytes)
    requires StartsWith(k, p) && Less(k, next)
    ensures !Less(next, p)
  {
    if p != [] {
      PrefixFirst(k, p);
      if k[0] == next[0] { AfterMatch(k[1..], next[1..], p[1..]); }
    }
  }

  /** A stored key below an encoded prefix is the key of an entry below the prefix, if it decodes. */
  lemma MatchIsEntry(stored: Bytes, prefix: Bytes)
    requires StartsWith(stored, PhysicalKey(prefix)) && Decode(stored[8..]).Some?
    ensures var key := Decode(stored[8..]).value; stored == PhysicalKey(key) && StartsWith(key, prefix)
  {
    var key := Decode(stored[8..]).value;
    EncodeDecoded(stored[8..]);
    assert stored[..8] == stored[..|PhysicalKey(prefix)|][..8] == CATALOG;
    assert stored == stored[..8] + stored[8..];
    PhysicalOrder(key, prefix);
  }

  function Physical(keys: seq<Bytes>): (r: seq<Bytes>)
    ensures |r| == |keys| && forall i :: 0 <= i < |keys| ==> r[i] == PhysicalKey(keys[i])
  {
    if keys == [] then [] else Physical(keys[..|keys| - 1]) + [PhysicalKey(keys[|keys| - 1])]
  }

  /** A catalog is in stored order exactly when it is in logical order. */
  lemma StoredOrder(keys: seq<Bytes>)
    ensures Sorted(Physical(keys)) <==> Sorted(keys)
  {
    hide PhysicalKey, Less, StartsWith;
    var stored := Physical(keys);
    forall i, j | 0 <= i < j < |keys| ensures Less(stored[i], stored[j]) <==> Less(keys[i], keys[j]) {
      PhysicalOrder(keys[i], keys[j]);
    }
    hide Physical;
  }

  /** Selecting by stored prefix is selecting by logical prefix. */
  lemma {:induction false} StoredFilter(keys: seq<Bytes>, prefix: Bytes)
    ensures WithPrefix(Physical(keys), PhysicalKey(prefix)) == Physical(WithPrefix(keys, prefix))
  {
    hide PhysicalKey, Less, StartsWith;
    if keys != [] {
      var front, last := keys[..|keys| - 1], keys[|keys| - 1];
      StoredFilter(front, prefix);
      PhysicalOrder(last, prefix);
      assert Physical(keys)[..|keys| - 1] == Physical(front);
      PhysicalSnoc(WithPrefix(front, prefix), last);
    }
  }

  lemma PhysicalSnoc(keys: seq<Bytes>, k: Bytes)
    ensures Physical(keys + [k]) == Physical(keys) + [PhysicalKey(k)]
  {
    assert (keys + [k])[..|keys|] == keys;
  }

  lemma {:induction false} NotBelowItself(k: Bytes)
    ensures !Less(k, k)
  {
    if k != [] { NotBelowItself(k[1..]); }
  }

  lemma {:induction false} WithPrefixHas(keys: seq<Bytes>, p: Bytes, k: Bytes)
    ensures k in WithPrefix(keys, p) <==> k in keys && StartsWith(k, p)
  {
    if keys != [] {
      var front, last := keys[..|keys| - 1], keys[|keys| - 1];
      WithPrefixHas(front, p, k);
      assert keys == front + [last];
    }
  }

  /** Two prefixes of one key: the shorter is a prefix of the longer. */
  lemma PrefixChain(k: Bytes, p: Bytes, q: Bytes)
    requires StartsWith(k, p) && StartsWith(k, q)
    ensures StartsWith(p, q) || StartsWith(q, p)
  {
    if |q| <= |p| {
      assert p[..|q|] == k[..|p|][..|q|] == k[..|q|];
    } else {
      assert q[..|p|] == k[..|q|][..|p|] == k[..|p|];
    }
  }
}
