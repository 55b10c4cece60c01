/**
 The catalog put back into its old key format, and the check that a start migrated it: which entries a
 downgrade leaves, what the check accepts, and that it never takes a downgraded catalog for a migrated one.
 */
module CatalogMigration {
  import opened Options
  import opened CatalogKeys

  /** "md|COLUMNS|" and "md|KEYS|". */
  const COLUMNS: Bytes := [109, 100, 124, 67, 79, 76, 85, 77, 78, 83, 124]
  const KEYS: Bytes := [109, 100, 124, 75, 69, 89, 83, 124]
  const PREFIXES: seq<Bytes> := [COLUMNS, KEYS]

  /** "legacy-truncated", "v2|", "format|metadata-key" and its value "2". */
  const LEGACY: Bytes := [108, 101, 103, 97, 99, 121, 45, 116, 114, 117, 110, 99, 97, 116, 101, 100]
  const V2: Bytes := [118, 50, 124]
  const MARKER: Bytes := [102, 111, 114, 109, 97, 116, 124, 109, 101, 116, 97, 100, 97, 116, 97, 45, 107, 101, 121]
  const MIGRATED: Bytes := [50]

  predicate Spells(bytes: Bytes, name: string) {
    |bytes| == |name| && forall i :: 0 <= i < |bytes| ==> bytes[i] as char == name[i]
  }

  lemma NamesSpelled()
    ensures Spells(CATALOG, "catalog/") && Spells(COLUMNS, "md|COLUMNS|") && Spells(KEYS, "md|KEYS|")
    ensures Spells(LEGACY, "legacy-truncated") && Spells(V2, "v2|")
    ensures Spells(MARKER, "format|metadata-key") && Spells(MIGRATED, "2")
  {
  }

  /** The keys of a database in the order the iterator visits them. */
  ghost predicate KeysOf<V>(db: map<Bytes, V>, keys: seq<Bytes>) {
    Sorted(keys) && forall k :: k in db <==> k in keys
  }

  function Lookup<V>(db: map<Bytes, V>, k: Bytes): Option<V> {
    if k in db then Some(db[k]) else None
  }

  lemma NamesApart()
    ensures !StartsWith(COLUMNS, KEYS) && !StartsWith(KEYS, COLUMNS)
    ensures !StartsWith(MARKER, COLUMNS) && !StartsWith(MARKER, KEYS)
  {
    assert COLUMNS[..8][3] != KEYS[3];
    assert MARKER[..11][0] != COLUMNS[0] && MARKER[..8][0] != KEYS[0];
  }

  lemma PrefixesApart(k: Bytes)
    ensures !(StartsWith(k, PhysicalKey(COLUMNS)) && StartsWith(k, PhysicalKey(KEYS)))
    ensures k == PhysicalKey(MARKER) ==> !StartsWith(k, PhysicalKey(COLUMNS)) && !StartsWith(k, PhysicalKey(KEYS))
  {
    hide PhysicalKey, StartsWith;
    NamesApart();
    if StartsWith(k, PhysicalKey(COLUMNS)) && StartsWith(k, PhysicalKey(KEYS)) {
      PrefixChain(k, PhysicalKey(COLUMNS), PhysicalKey(KEYS));
      PhysicalOrder(COLUMNS, KEYS);
      PhysicalOrder(KEYS, COLUMNS);
    }
    PhysicalOrder(MARKER, COLUMNS);
    PhysicalOrder(MARKER, KEYS);
  }

  // --- the write batch ---

  datatype Op<V> = Delete(key: Bytes) | Put(key: Bytes, value: V)

  function Effect<V>(db: map<Bytes, V>, op: Op<V>): map<Bytes, V> {
    match op
    case Delete(k) => db - {k}
    case Put(k, v) => db[k := v]
  }

  function Apply<V>(db: map<Bytes, V>, ops: seq<Op<V>>): map<Bytes, V> {
    if ops == [] then db else Effect(Apply(db, ops[..|ops| - 1]), ops[|ops| - 1])
  }

  lemma ApplyOne<V>(db: map<Bytes, V>, ops: seq<Op<V>>, op: Op<V>)
    ensures Apply(db, []) == db && Apply(db, ops + [op]) == Effect(Apply(db, ops), op)
  {
    assert (ops + [op])[..|ops|] == ops;
  }

  lemma {:induction false} ApplyAppend<V>(db: map<Bytes, V>, a: seq<Op<V>>, b: seq<Op<V>>)
    ensures Apply(db, a + b) == Apply(Apply(db, a), b)
  {
    if b == [] {
      assert a + b == a;
    } else {
      ApplyAppend(db, a, b[..|b| - 1]);
      assert (a + b)[..|a + b| - 1] == a + b[..|b| - 1];
    }
  }

  // --- the downgrade ---

  /** `now` is `base` after the keys `done` were worked off, the first value being the one of `db`. */
  ghost predicate Rewritten<V>(db: map<Bytes, V>, done: seq<Bytes>, legacy: Bytes, base: map<Bytes, V>,
                               now: map<Bytes, V>)
    requires forall i :: 0 <= i < |done| ==> done[i] in db
  {
    && (forall k :: k !in done && k != legacy ==> Lookup(now, k) == Lookup(base, k))
    && (forall k :: k in done && k != legacy ==> k !in now)
    && (done != [] ==> (legacy in now <==> legacy !in done[1..]))
    && (done != [] && legacy in now ==> now[legacy] == db[done[0]])
    && (done == [] ==> now == base)
  }

  lemma FirstRewritten<V>(db: map<Bytes, V>, stored: Bytes, legacy: Bytes, base: map<Bytes, V>)
    requires stored in db
    ensures Rewritten(db, [stored], legacy, base, (base - {stored})[legacy := db[stored]])
  {
  }

  lemma NextRewritten<V>(db: map<Bytes, V>, done: seq<Bytes>, legacy: Bytes, base: map<Bytes, V>, now: map<Bytes, V>,
                         stored: Bytes)
    requires (forall i :: 0 <= i < |done| ==> done[i] in db) && stored in db && done != []
    requires Rewritten(db, done, legacy, base, now)
    ensures Rewritten(db, done + [stored], legacy, base, now - {stored})
  {
    assert (done + [stored])[1..] == done[1..] + [stored];
    forall k ensures k in done + [stored] <==> k in done || k == stored {
    }
  }

  /** The operations for one prefix: every key found goes, and the first value is kept under the legacy key. */
  method DowngradeBatch<V>(db: map<Bytes, V>, visited: seq<Bytes>, legacy: Bytes, ghost base: map<Bytes, V>)
    returns (ops: Option<seq<Op<V>>>)
    requires forall i :: 0 <= i < |visited| ==> visited[i] in db && |visited[i]| >= 8
    ensures ops.Some? <==> forall i :: 0 <= i < |visited| ==> Decode(visited[i][8..]).Some?
    ensures ops.Some? ==> Rewritten(db, visited, legacy, base, Apply(base, ops.value))
  {
    hide Decode, Apply, Rewritten;
    var batch: seq<Op<V>> := [];
    var copied := false;
    var i := 0;
    NothingRewritten(db, legacy, base);
    while i < |visited|
      invariant 0 <= i <= |visited| && copied == (i > 0)
      invariant forall j :: 0 <= j < i ==> Decode(visited[j][8..]).Some?
      invariant i == 0 ==> batch == []
      invariant Rewritten(db, visited[..i], legacy, base, Apply(base, batch))
    {
      var stored := visited[i];
      var key := HexDecode(stored[8..]);
      if key == None { return None; }
      assert visited[..i + 1] == visited[..i] + [stored];
      ghost var before := batch;
      ApplyOne(base, batch, Delete(stored));
      batch := batch + [Delete(stored)];
      if !copied {
        ApplyOne(base, batch, Put(legacy, db[stored]));
        batch := batch + [Put(legacy, db[stored])];
        FirstRewritten(db, stored, legacy, base);
        assert visited[..i + 1] == [stored];
        copied := true;
      } else {
        NextRewritten(db, visited[..i], legacy, base, Apply(base, before), stored);
      }
      i := i + 1;
    }
    assert visited[..i] == visited;
    ops := Some(batch);
  }

  lemma NothingRewritten<V>(db: map<Bytes, V>, legacy: Bytes, base: map<Bytes, V>)
    ensures Rewritten(db, [], legacy, base, Apply(base, []))
  {
  }

  /** A key is visited after the first one exactly when it is visited and not the first. */
  lemma VisitedLater(keys: seq<Bytes>, visited: seq<Bytes>, k: Bytes)
    requires Sorted(keys) && visited != [] && exists a, b :: 0 <= a <= b <= |keys| && visited == keys[a..b]
    ensures k in visited[1..] <==> k in visited && k != visited[0]
  {
    var a, b :| 0 <= a <= b <= |keys| && visited == keys[a..b];
    NotBelowItself(visited[0]);
    forall i | 0 < i < |visited| ensures visited[i] != visited[0] {
      assert visited[i] == keys[a + i] && visited[0] == keys[a];
      assert Less(keys[a], keys[a + i]);
    }
    assert visited == [visited[0]] + visited[1..];
  }

  lemma LegacyBelow(prefix: Bytes)
    ensures StartsWith(PhysicalKey(prefix + LEGACY), PhysicalKey(prefix))
  {
    assert (prefix + LEGACY)[..|prefix|] == prefix;
    PhysicalOrder(prefix + LEGACY, prefix);
  }

  /** Every key below the prefix is a key and not something else. */
  ghost predicate Readable(keys: seq<Bytes>, prefix: Bytes) {
    forall k :: k in keys && StartsWith(k, PhysicalKey(prefix)) ==> Decode(k[8..]).Some?
  }

  /**
   What is left of the keys below a prefix: the legacy key with the value of the first of them, unless
   the legacy key was itself among the later ones, when nothing is left.
   */
  ghost function Left<V>(db: map<Bytes, V>, keys: seq<Bytes>, prefix: Bytes, k: Bytes): Option<V> {
    var legacy, found := PhysicalKey(prefix + LEGACY), WithPrefix(keys, PhysicalKey(prefix));
    if k == legacy && found != [] && (legacy in keys ==> found[0] == legacy) then Lookup(db, found[0]) else None
  }

  method DowngradePrefix<V>(db: map<Bytes, V>, keys: seq<Bytes>, prefix: Bytes, ghost base: map<Bytes, V>)
    returns (ops: Option<seq<Op<V>>>)
    requires KeysOf(db, keys)
    requires forall k :: StartsWith(k, PhysicalKey(prefix)) ==> Lookup(base, k) == Lookup(db, k)
    ensures ops.Some? <==> Readable(keys, prefix)
    ensures ops.Some? ==>
              forall k :: Lookup(Apply(base, ops.value), k) ==
                          if StartsWith(k, PhysicalKey(prefix)) then Left(db, keys, prefix, k) else Lookup(base, k)
  {
    hide Decode, Encode, Less, WithPrefix, Apply, StartsWith, Rewritten, Left;
    var p, legacy := PhysicalKey(prefix), PhysicalKey(prefix + LEGACY);
    var visited := PrefixScan(keys, p);
    forall k { WithPrefixHas(keys, p, k); }
    forall i | 0 <= i < |visited| ensures visited[i] in db && StartsWith(visited[i], p) && |visited[i]| >= 8 {
      assert visited[i] in visited;
      PrefixLength(visited[i], p);
    }
    ops := DowngradeBatch(db, visited, legacy, base);
    assert forall k :: k in keys && StartsWith(k, p) <==> k in visited;
    if ops.Some? { RewrittenIsLeft(db, keys, prefix, base, Apply(base, ops.value), visited); }
  }

  lemma RewrittenIsLeft<V>(db: map<Bytes, V>, keys: seq<Bytes>, prefix: Bytes, base: map<Bytes, V>, now: map<Bytes, V>,
                           visited: seq<Bytes>)
    requires KeysOf(db, keys) && visited == WithPrefix(keys, PhysicalKey(prefix))
    requires exists a, b :: 0 <= a <= b <= |keys| && visited == keys[a..b]
    requires forall k :: StartsWith(k, PhysicalKey(prefix)) ==> Lookup(base, k) == Lookup(db, k)
    requires forall k :: k in visited <==> k in keys && StartsWith(k, PhysicalKey(prefix))
    requires forall i :: 0 <= i < |visited| ==> visited[i] in db
    requires Rewritten(db, visited, PhysicalKey(prefix + LEGACY), base, now)
    ensures forall k :: Lookup(now, k) ==
                        if StartsWith(k, PhysicalKey(prefix)) then Left(db, keys, prefix, k) else Lookup(base, k)
  {
    hide StartsWith, WithPrefix, PhysicalKey, Less;
    LegacyBelow(prefix);
    if visited != [] { VisitedLater(keys, visited, PhysicalKey(prefix + LEGACY)); }
  }

  lemma PrefixLength(k: Bytes, p: Bytes)
    requires StartsWith(k, p)
    ensures |k| >= |p|
  {
  }

  /** The database once the first `n` prefixes are worked off. */
  ghost function Downgraded<V>(db: map<Bytes, V>, keys: seq<Bytes>, n: nat, k: Bytes): Option<V>
    requires n <= 2
  {
    if n == 0 then Lookup(db, k)
    else if StartsWith(k, PhysicalKey(PREFIXES[n - 1])) then Left(db, keys, PREFIXES[n - 1], k)
    else Downgraded(db, keys, n - 1, k)
  }

  lemma StillUntouched<V>(db: map<Bytes, V>, keys: seq<Bytes>, p: nat, k: Bytes)
    requires p < 2 && StartsWith(k, PhysicalKey(PREFIXES[p]))
    ensures Downgraded(db, keys, p, k) == Lookup(db, k)
  {
    hide PhysicalKey, StartsWith, Left;
    PrefixesApart(k);
    if p == 1 {
      assert PREFIXES[0] == COLUMNS && PREFIXES[1] == KEYS;
      assert Downgraded(db, keys, 0, k) == Lookup(db, k);
    }
  }

  lemma BothDowngraded<V>(db: map<Bytes, V>, keys: seq<Bytes>, k: Bytes)
    ensures Downgraded(db, keys, 2, k) ==
            if StartsWith(k, PhysicalKey(KEYS)) then Left(db, keys, KEYS, k)
            else if StartsWith(k, PhysicalKey(COLUMNS)) then Left(db, keys, COLUMNS, k) else Lookup(db, k)
  {
    hide PhysicalKey, StartsWith, Left;
    assert PREFIXES[0] == COLUMNS && PREFIXES[1] == KEYS;
    assert Downgraded(db, keys, 0, k) == Lookup(db, k);
  }

  /** The whole downgrade: both prefixes, and the marker goes; nothing is written when a key is unreadable. */
  method Downgrade<V>(db: map<Bytes, V>, keys: seq<Bytes>) returns (r: Option<map<Bytes, V>>)
    requires KeysOf(db, keys)
    ensures r.Some? <==> Readable(keys, COLUMNS) && Readable(keys, KEYS)
    ensures r.Some? ==>
              forall k :: Lookup(r.value, k) == if k == PhysicalKey(MARKER) then None else Downgraded(db, keys, 2, k)
  {
    hide PhysicalKey, StartsWith, Less, Left, Apply, Readable;
    var batch: seq<Op<V>> := [];
    var p := 0;
    ApplyOne(db, [], Delete(PhysicalKey(MARKER)));
    while p < 2
      invariant 0 <= p <= 2
      invariant forall q :: 0 <= q < p ==> Readable(keys, PREFIXES[q])
      invariant forall k :: Lookup(Apply(db, batch), k) == Downgraded(db, keys, p, k)
    {
      ghost var base := Apply(db, batch);
      forall k | StartsWith(k, PhysicalKey(PREFIXES[p])) ensures Lookup(base, k) == Lookup(db, k) {
        StillUntouched(db, keys, p, k);
      }
      var ops := DowngradePrefix(db, keys, PREFIXES[p], base);
      if ops == None { return None; }
      ApplyAppend(db, batch, ops.value);
      batch := batch + ops.value;
      p := p + 1;
    }
    assert Readable(keys, PREFIXES[0]) && Readable(keys, PREFIXES[1]);
    ApplyOne(db, batch, Delete(PhysicalKey(MARKER)));
    batch := batch + [Delete(PhysicalKey(MARKER))];
    r := Some(Apply(db, batch));
  }

  // --- the check ---

  /** A stored key that stands for an entry of the new format. */
  ghost predicate NewFormat(stored: Bytes, prefix: Bytes) {
    exists key :: stored == PhysicalKey(key) && StartsWith(key, prefix + V2)
  }

  lemma NewFormatDecodes(stored: Bytes, prefix: Bytes)
    requires StartsWith(stored, PhysicalKey(prefix))
    ensures NewFormat(stored, prefix) <==>
            Decode(stored[8..]).Some? && StartsWith(Decode(stored[8..]).value, prefix + V2)
  {
    hide Decode, Encode, StartsWith;
    PrefixLength(stored, PhysicalKey(prefix));
    if Decode(stored[8..]).Some? {
      MatchIsEntry(stored, prefix);
    }
    if NewFormat(stored, prefix) {
      var key :| stored == PhysicalKey(key) && StartsWith(key, prefix + V2);
      assert stored[8..] == Encode(key);
      DecodeEncoded(key);
    }
  }

  /** Counts the keys below a prefix; fails at the first that is not of the new format. */
  method CountMigrated(keys: seq<Bytes>, prefix: Bytes) returns (count: Option<nat>)
    requires Sorted(keys)
    ensures count.Some? <==> forall k :: k in keys && StartsWith(k, PhysicalKey(prefix)) ==> NewFormat(k, prefix)
    ensures count.Some? ==> count.value == |WithPrefix(keys, PhysicalKey(prefix))|
  {
    hide Decode, PhysicalKey, Less, WithPrefix, NewFormat;
    var p := PhysicalKey(prefix);
    var visited := PrefixScan(keys, p);
    forall k { WithPrefixHas(keys, p, k); }
    var i := 0;
    while i < |visited|
      invariant 0 <= i <= |visited| && forall j :: 0 <= j < i ==> NewFormat(visited[j], prefix)
    {
      assert visited[i] in visited;
      NewFormatDecodes(visited[i], prefix);
      PhysicalLength(prefix);
      var key := HexDecode(visited[i][8..]);
      if key == None { return None; }
      if !StartsWith(key.value, prefix + V2) { return None; }
      i := i + 1;
    }
    count := Some(i);
  }

  lemma PhysicalLength(s: Bytes)
    ensures |PhysicalKey(s)| == 8 + 2 * |s|
  {
  }

  /** What the check asks of a catalog: the marker, and two column and three key entries, all of the new format. */
  ghost predicate Accepted(db: map<Bytes, Bytes>, keys: seq<Bytes>) {
    && Lookup(db, PhysicalKey(MARKER)) == Some(MIGRATED)
    && (forall k :: k in keys && StartsWith(k, PhysicalKey(COLUMNS)) ==> NewFormat(k, COLUMNS))
    && (forall k :: k in keys && StartsWith(k, PhysicalKey(KEYS)) ==> NewFormat(k, KEYS))
    && |WithPrefix(keys, PhysicalKey(COLUMNS))| == 2 && |WithPrefix(keys, PhysicalKey(KEYS))| == 3
  }

  method Verify(db: map<Bytes, Bytes>, keys: seq<Bytes>) returns (ok: bool)
    requires KeysOf(db, keys)
    ensures ok <==> Accepted(db, keys)
  {
    hide PhysicalKey, StartsWith, Less, WithPrefix, NewFormat;
    if PhysicalKey(MARKER) !in db || db[PhysicalKey(MARKER)] != MIGRATED { return false; }
    var columns := CountMigrated(keys, COLUMNS);
    if columns == None { return false; }
    var others := CountMigrated(keys, KEYS);
    if others == None { return false; }
    ok := columns.value == 2 && others.value == 3;
  }

  /** On stored entries the check is the one on the entries themselves. */
  lemma AcceptedEntries(db: map<Bytes, Bytes>, entries: seq<Bytes>)
    ensures Accepted(db, Physical(entries)) <==>
            && Lookup(db, PhysicalKey(MARKER)) == Some(MIGRATED)
            && (forall e :: e in entries && StartsWith(e, COLUMNS) ==> StartsWith(e, COLUMNS + V2))
            && (forall e :: e in entries && StartsWith(e, KEYS) ==> StartsWith(e, KEYS + V2))
            && |WithPrefix(entries, COLUMNS)| == 2 && |WithPrefix(entries, KEYS)| == 3
  {
    hide PhysicalKey, StartsWith, WithPrefix, NewFormat;
    StoredFilter(entries, COLUMNS);
    StoredFilter(entries, KEYS);
    EntriesNewFormat(entries, COLUMNS);
    EntriesNewFormat(entries, KEYS);
  }

  lemma EntriesNewFormat(entries: seq<Bytes>, prefix: Bytes)
    ensures (forall k :: k in Physical(entries) && StartsWith(k, PhysicalKey(prefix)) ==> NewFormat(k, prefix)) <==>
            (forall e :: e in entries && StartsWith(e, prefix) ==> StartsWith(e, prefix + V2))
  {
    hide PhysicalKey, StartsWith, NewFormat;
    var stored := Physical(entries);
    forall e ensures NewFormat(PhysicalKey(e), prefix) <==> StartsWith(e, prefix + V2) { EntryNewFormat(e, prefix); }
    forall i | 0 <= i < |entries|
      ensures stored[i] == PhysicalKey(entries[i])
      ensures StartsWith(stored[i], PhysicalKey(prefix)) <==> StartsWith(entries[i], prefix)
    {
      PhysicalOrder(entries[i], prefix);
    }
    if forall k :: k in stored && StartsWith(k, PhysicalKey(prefix)) ==> NewFormat(k, prefix) {
      forall e | e in entries && StartsWith(e, prefix) ensures StartsWith(e, prefix + V2) {
        var i :| 0 <= i < |entries| && entries[i] == e;
        assert stored[i] in stored;
      }
    }
  }

  lemma EntryNewFormat(e: Bytes, prefix: Bytes)
    ensures NewFormat(PhysicalKey(e), prefix) <==> StartsWith(e, prefix + V2)
  {
    hide PhysicalKey, StartsWith;
    if NewFormat(PhysicalKey(e), prefix) {
      var key :| PhysicalKey(e) == PhysicalKey(key) && StartsWith(key, prefix + V2);
      PhysicalOrder(e, key);
    }
  }

  // --- downgrade and check together ---

  lemma SortedCount(keys: seq<Bytes>, only: Bytes)
    requires Sorted(keys) && forall k :: k in keys ==> k == only
    ensures |keys| <= 1
  {
    if |keys| > 1 {
      assert keys[0] in keys && keys[1] in keys;
      assert Less(keys[0], keys[1]);
      NotBelowItself(only);
    }
  }

  /** Whatever the catalog held, and even with the marker put back, a downgraded catalog is not accepted. */
  lemma DowngradeIsSeen(db: map<Bytes, Bytes>, keys: seq<Bytes>, now: map<Bytes, Bytes>, later: seq<Bytes>)
    requires KeysOf(db, keys) && KeysOf(now, later)
    requires forall k :: k != PhysicalKey(MARKER) ==> Lookup(now, k) == Downgraded(db, keys, 2, k)
    ensures !Accepted(now, later)
  {
    hide PhysicalKey, StartsWith, Less, WithPrefix, NewFormat, Sorted;
    var p := PhysicalKey(COLUMNS);
    var found := WithPrefix(later, p);
    forall k | k in found ensures k == PhysicalKey(COLUMNS + LEGACY) {
      WithPrefixHas(later, p, k);
      PrefixesApart(k);
      BothDowngraded(db, keys, k);
    }
    FilterSorted(later, p);
    SortedCount(found, PhysicalKey(COLUMNS + LEGACY));
  }

  lemma FilterSorted(keys: seq<Bytes>, p: Bytes)
    requires Sorted(keys)
    ensures Sorted(WithPrefix(keys, p))
  {
    hide StartsWith, Less;
    if keys != [] {
      var front, last := keys[..|keys| - 1], keys[|keys| - 1];
      FilterSorted(front, p);
      forall k | k in WithPrefix(front, p) ensures Less(k, last) {
        WithPrefixHas(front, p, k);
      }
    }
  }

  lemma EntryReadable(e: Bytes)
    ensures Decode(PhysicalKey(e)[8..]) == Some(e)
  {
    DecodeEncoded(e);
    assert PhysicalKey(e)[8..] == Encode(e);
  }

  lemma TwoKeys(first: Bytes, second: Bytes)
    requires Less(first, second)
    ensures KeysOf(map[first := MIGRATED, second := MIGRATED], [first, second]) && first != second
  {
    NotBelowItself(first);
  }

  lemma TwoFound(a: Bytes, b: Bytes, p: Bytes)
    ensures StartsWith(a, p) && StartsWith(b, p) ==> WithPrefix([a, b], p) == [a, b]
    ensures !StartsWith(a, p) && !StartsWith(b, p) ==> WithPrefix([a, b], p) == []
  {
    assert [a, b][..1] == [a] && [a][..0] == [];
    assert WithPrefix([a], p) == if StartsWith(a, p) then [a] else [];
  }

  /** A catalog that holds the legacy key behind another entry loses both. */
  lemma LegacyLost()
    ensures var first, legacy := PhysicalKey(COLUMNS), PhysicalKey(COLUMNS + LEGACY);
            var db := map[first := MIGRATED, legacy := MIGRATED];
            && KeysOf(db, [first, legacy]) && Readable([first, legacy], COLUMNS) && Readable([first, legacy], KEYS)
            && forall k :: Downgraded(db, [first, legacy], 2, k) == None
  {
    hide PhysicalKey, StartsWith, Less, WithPrefix, Decode, Encode, KeysOf;
    var first, legacy := PhysicalKey(COLUMNS), PhysicalKey(COLUMNS + LEGACY);
    var keys: seq<Bytes> := [first, legacy];
    var db := map[first := MIGRATED, legacy := MIGRATED];
    assert Less(first, legacy) by {
      PhysicalOrder(COLUMNS, COLUMNS + LEGACY);
      EmptyFirst(COLUMNS, LEGACY);
    }
    TwoKeys(first, legacy);
    EntryReadable(COLUMNS);
    EntryReadable(COLUMNS + LEGACY);
    LegacyBelow(COLUMNS);
    BelowItself(first);
    PrefixesApart(first);
    PrefixesApart(legacy);
    TwoFound(first, legacy, PhysicalKey(COLUMNS));
    TwoFound(first, legacy, PhysicalKey(KEYS));
    forall k ensures Downgraded(db, keys, 2, k) == None { BothDowngraded(db, keys, k); }
  }

  lemma EmptyFirst(a: Bytes, b: Bytes)
    requires b != []
    ensures Less(a, a + b)
  {
    CommonFront(a, [], b);
    assert a + [] == a;
  }

  lemma BelowItself(k: Bytes)
    ensures StartsWith(k, k)
  {
  }
}
