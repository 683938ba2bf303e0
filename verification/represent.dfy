/** How an engine of encoded keys holds a logical database, and what its scans yield. */
module Representation {
  import opened ByteOrder
  import opened KeyCode
  import opened StorageEngine
  import opened MvccKeys
  import opened MvccState

  type Data = map<Bytes, Stored>
  type Item = (Bytes, Stored)

  lemma EncodeInjective(k: MvccKey, l: MvccKey)
    requires Encode(k) == Encode(l)
    ensures k == l
  {
    PrefixFree(k, l);
  }

  /** The engine holds exactly the encoded entries of the database. */
  ghost predicate Represents(data: Data, db: Db) {
    && (forall k {:trigger Encode(k)} :: k in db <==> Encode(k) in data)
    && (forall k {:trigger Encode(k)} :: k in db ==> db[k] == data[Encode(k)])
    && (forall b {:trigger b in data} :: b in data ==> exists k :: k in db && Encode(k) == b)
  }

  ghost function Logical(data: Data): Db {
    if db: Db :| Represents(data, db) then db else map[]
  }

  ghost predicate Shaped(db: Db) {
    && (NextVersion in db ==> db[NextVersion].Counter?)
    && (forall key: Bytes, v: u64 :: Version(key, v) in db ==> db[Version(key, v)].Cell?)
  }

  ghost predicate WellFormed(data: Data) {
    Represents(data, Logical(data)) && Shaped(Logical(data))
  }

  lemma LogicalIs(data: Data, db: Db)
    requires Represents(data, db)
    ensures Represents(data, Logical(data)) && Logical(data) == db
  {
    var db' := Logical(data);
    forall k ensures k in db' <==> k in db
      ensures k in db ==> db'[k] == db[k]
    {
      var b := Encode(k);
    }
    assert db' == db;
  }

  lemma EmptyEngine()
    ensures WellFormed(map[]) && Logical(map[]) == map[]
  {
    LogicalIs(map[], map[]);
  }

  lemma AfterSet(data: Data, k: MvccKey, value: Stored)
    requires WellFormed(data)
    requires k.NextVersion? ==> value.Counter?
    requires k.Version? ==> value.Cell?
    ensures WellFormed(data[Encode(k) := value])
    ensures Logical(data[Encode(k) := value]) == Logical(data)[k := value]
  {
    var data', db := data[Encode(k) := value], Logical(data);
    var db' := db[k := value];
    forall l ensures l in db' <==> Encode(l) in data'
      ensures l in db' ==> db'[l] == data'[Encode(l)]
    {
      if Encode(l) == Encode(k) { EncodeInjective(l, k); }
    }
    forall b | b in data' ensures exists l :: l in db' && Encode(l) == b {
      if b == Encode(k) {
        assert k in db';
      } else {
        var l :| l in db && Encode(l) == b;
        assert l in db';
      }
    }
    LogicalIs(data', db');
  }

  lemma AfterRemove(data: Data, gone: set<Bytes>)
    requires WellFormed(data)
    ensures WellFormed(data - gone)
    ensures Logical(data - gone) == map k | k in Logical(data) && Encode(k) !in gone :: Logical(data)[k]
  {
    var data', db := data - gone, Logical(data);
    var db' := map k | k in db && Encode(k) !in gone :: db[k];
    forall b | b in data' ensures exists l :: l in db' && Encode(l) == b {
      var l :| l in db && Encode(l) == b;
      assert l in db';
    }
    LogicalIs(data', db');
  }

  /** These bytes are the encodings of these keys. */
  ghost predicate Encoded(bs: seq<Bytes>, ks: seq<MvccKey>) {
    |bs| == |ks| && forall i {:trigger bs[i]} :: 0 <= i < |bs| ==> bs[i] == Encode(ks[i])
  }

  /** Removing encoded keys removes the logical keys. */
  lemma AfterRemoveKeys(data: Data, bs: seq<Bytes>, ks: seq<MvccKey>)
    requires WellFormed(data)
    requires Encoded(bs, ks)
    ensures var data' := data - (set b | b in bs);
      WellFormed(data') && Logical(data') == map k | k in Logical(data) && k !in ks :: Logical(data)[k]
  {
    var db, gone := Logical(data), set b | b in bs;
    AfterRemove(data, gone);
    forall k | k in db ensures Encode(k) in gone <==> k in ks {
      DecodedMember(bs, ks, k);
    }
  }

  // ---------------------------------------------------------------- what a scan yields

  /** The three ways the transaction layer selects entries. */
  datatype Range =
    | WithPrefix(p: MvccKeyPrefix)
    | Between(key: Bytes, lo: u64, hi: u64)
    | Under(prefix: Bytes)

  predicate Selects(range: Range, k: MvccKey) {
    match range
    case WithPrefix(p) => HasPrefix(k, p)
    case Between(key, lo, hi) => k.Version? && k.key == key && lo <= k.version <= hi
    case Under(prefix) => k.Version? && prefix <= k.key
  }

  /** The selected keys of the database, the versions of each key oldest first. */
  ghost predicate Listed(ks: seq<MvccKey>, db: Db, range: Range) {
    && (forall k {:trigger k in ks} :: k in ks <==> k in db && Selects(range, k))
    && (forall i, j :: 0 <= i < j < |ks| ==> InOrder(ks[i], ks[j]))
  }

  ghost predicate InOrder(k: MvccKey, l: MvccKey) {
    k.Version? && l.Version? && k.key == l.key ==> k.version < l.version
  }

  /** These items are the stored entries of these keys. */
  ghost predicate Holds(items: seq<Item>, ks: seq<MvccKey>, db: Db) {
    && |items| == |ks|
    && (forall i {:trigger items[i]} :: 0 <= i < |ks| ==>
          ks[i] in db && items[i].0 == Encode(ks[i]) && items[i].1 == db[ks[i]])
  }

  /** Decoding never fails on a scanned item: it gives back the logical key. */
  method DecodeItem(items: seq<Item>, ghost ks: seq<MvccKey>, ghost db: Db, i: nat) returns (r: MvccKey)
    requires Holds(items, ks, db) && i < |items|
    ensures r == ks[i]
  {
    var d := DecodeKey(items[i].0);
    RoundTrip(ks[i]);
    r := d.value;
  }

  method ItemValue(items: seq<Item>, ghost ks: seq<MvccKey>, ghost db: Db, i: nat) returns (r: Stored)
    requires Holds(items, ks, db) && i < |items|
    ensures ks[i] in db && r == db[ks[i]]
  {
    r := items[i].1;
  }

  ghost function DecodeAll(bs: seq<Bytes>): (ks: seq<MvccKey>)
    requires forall b :: b in bs ==> exists k :: Encode(k) == b
    ensures |ks| == |bs|
    ensures forall i :: 0 <= i < |bs| ==> Encode(ks[i]) == bs[i]
  {
    if bs == [] then [] else
      assert bs[0] in bs;
      var k :| Encode(k) == bs[0];
      assert forall b :: b in bs[1..] ==> b in bs;
      [k] + DecodeAll(bs[1..])
  }

  lemma EncodedInOrder(k: MvccKey, l: MvccKey)
    requires Less(Encode(k), Encode(l))
    ensures InOrder(k, l)
  {
    OrderPreserved(k, l);
    if k.Version? && l.Version? && k.key == l.key { LessIrreflexive(k.key); }
  }

  lemma ScanYields(data: Data, bs: set<Bytes>, items: seq<Item>, range: Range) returns (ks: seq<MvccKey>)
    requires WellFormed(data)
    requires bs <= data.Keys && items == Entries(data, Sorted(bs))
    requires forall k :: k in Logical(data) ==> (Encode(k) in bs <==> Selects(range, k))
    ensures Holds(items, ks, Logical(data)) && Listed(ks, Logical(data), range)
  {
    var db, sorted := Logical(data), Sorted(bs);
    ks := DecodeSorted(data, sorted);
    forall i | 0 <= i < |ks| ensures items[i].0 == Encode(ks[i]) && items[i].1 == db[ks[i]] {
      assert sorted[i] in sorted;
    }
    forall i, j | 0 <= i < j < |ks| ensures InOrder(ks[i], ks[j]) {
      EncodedInOrder(ks[i], ks[j]);
    }
    forall k ensures k in ks <==> k in db && Selects(range, k) {
      DecodedMember(sorted, ks, k);
    }
  }

  lemma DecodeSorted(data: Data, bs: seq<Bytes>) returns (ks: seq<MvccKey>)
    requires WellFormed(data) && forall b :: b in bs ==> b in data
    ensures |ks| == |bs|
    ensures forall i {:trigger ks[i]} :: 0 <= i < |bs| ==> Encode(ks[i]) == bs[i] && ks[i] in Logical(data)
  {
    forall b | b in bs ensures exists k :: Encode(k) == b {
      assert b in data;
      var k :| k in Logical(data) && Encode(k) == b;
    }
    ks := DecodeAll(bs);
    forall i | 0 <= i < |bs| ensures ks[i] in Logical(data) {
      assert bs[i] in bs && Encode(ks[i]) in data;
    }
  }

  lemma DecodedMember(bs: seq<Bytes>, ks: seq<MvccKey>, k: MvccKey)
    requires |ks| == |bs| && forall i {:trigger ks[i]} :: 0 <= i < |bs| ==> Encode(ks[i]) == bs[i]
    ensures k in ks <==> Encode(k) in bs
  {
    if k in ks {
      var i :| 0 <= i < |ks| && ks[i] == k;
      assert bs[i] in bs;
    }
    if Encode(k) in bs {
      var i :| 0 <= i < |bs| && bs[i] == Encode(k);
      EncodeInjective(ks[i], k);
    }
  }

  lemma StartScanYields(data: Data, start: Bytes, items: seq<Item>, range: Range) returns (ks: seq<MvccKey>)
    requires WellFormed(data)
    requires items == Entries(data, Sorted(set b | b in data && start <= b))
    requires forall k :: k in Logical(data) ==> (start <= Encode(k) <==> Selects(range, k))
    ensures Holds(items, ks, Logical(data)) && Listed(ks, Logical(data), range)
  {
    ks := ScanYields(data, (set b | b in data && start <= b), items, range);
  }

  lemma PrefixScanYields(data: Data, p: MvccKeyPrefix, items: seq<Item>) returns (ks: seq<MvccKey>)
    requires WellFormed(data)
    requires items == Entries(data, Sorted(set b | b in data && EncodePrefix(p) <= b))
    ensures Holds(items, ks, Logical(data)) && Listed(ks, Logical(data), WithPrefix(p))
  {
    forall k | k in Logical(data) ensures EncodePrefix(p) <= Encode(k) <==> HasPrefix(k, p) { PrefixExact(k, p); }
    ks := StartScanYields(data, EncodePrefix(p), items, WithPrefix(p));
  }

  lemma StartsUnder(start: Bytes, prefix: Bytes)
    requires start == TruncatedPrefix(prefix)
    ensures forall k :: start <= Encode(k) <==> Selects(Under(prefix), k)
  {
    forall k ensures start <= Encode(k) <==> Selects(Under(prefix), k) { TruncatedPrefixExact(k, prefix); }
  }

  lemma RangeScanYields(data: Data, key: Bytes, lo: u64, hi: u64, items: seq<Item>) returns (ks: seq<MvccKey>)
    requires WellFormed(data)
    requires items == RangeItems(data, Included(Encode(Version(key, lo))), Included(Encode(Version(key, hi))))
    ensures Holds(items, ks, Logical(data)) && Listed(ks, Logical(data), Between(key, lo, hi))
  {
    var start, end := Included(Encode(Version(key, lo))), Included(Encode(Version(key, hi)));
    var bs := set b | b in data && InRange(b, start, end);
    forall k | k in Logical(data) ensures Encode(k) in bs <==> Selects(Between(key, lo, hi), k) {
      VersionRangeExact(key, lo, hi, k);
    }
    ks := ScanYields(data, bs, items, Between(key, lo, hi));
  }

  lemma VersionRangeOk(key: Bytes, lo: u64, hi: u64)
    requires lo <= hi
    ensures RangeOk(Included(Encode(Version(key, lo))), Included(Encode(Version(key, hi))))
  {
    if lo < hi { OrderPreserved(Version(key, lo), Version(key, hi)); }
  }

  // ---------------------------------------------------------------- the newest visible item

  ghost predicate IsVisibleVersion(k: MvccKey, key: Bytes, version: u64, active: set<u64>) {
    k.Version? && k.key == key && Visible(version, active, k.version)
  }

  /** The value of the last of these entries that is a visible version of the key. */
  ghost function Latest(ks: seq<MvccKey>, db: Db, key: Bytes, version: u64, active: set<u64>): Option<Bytes> {
    if ks == [] then None
    else
      var last := ks[|ks| - 1];
      if last in db && IsVisibleVersion(last, key, version, active) then CellOf(db[last])
      else Latest(ks[..|ks| - 1], db, key, version, active)
  }

  ghost predicate IsLatest(ks: seq<MvccKey>, key: Bytes, version: u64, active: set<u64>, i: nat) {
    i < |ks| && IsVisibleVersion(ks[i], key, version, active)
    && forall j :: i < j < |ks| ==> !IsVisibleVersion(ks[j], key, version, active)
  }

  lemma {:induction false} LatestCases(ks: seq<MvccKey>, db: Db, key: Bytes, version: u64, active: set<u64>)
    requires forall k :: k in ks ==> k in db
    ensures (exists i: nat ::
               IsLatest(ks, key, version, active, i) && Latest(ks, db, key, version, active) == CellOf(db[ks[i]]))
         || ((forall i :: 0 <= i < |ks| ==> !IsVisibleVersion(ks[i], key, version, active))
              && Latest(ks, db, key, version, active) == None)
  {
    if ks != [] {
      var n := |ks| - 1;
      var front := ks[..n];
      if IsVisibleVersion(ks[n], key, version, active) {
        assert IsLatest(ks, key, version, active, n);
      } else {
        LatestCases(front, db, key, version, active);
        if i: nat :|
          IsLatest(front, key, version, active, i)
          && Latest(front, db, key, version, active) == CellOf(db[front[i]])
        {
          forall j | i < j < |ks| ensures !IsVisibleVersion(ks[j], key, version, active) {
            if j < n { assert front[j] == ks[j]; }
          }
          assert IsLatest(ks, key, version, active, i);
        } else {
          forall j | 0 <= j < |ks| ensures !IsVisibleVersion(ks[j], key, version, active) {
            if j < n { assert front[j] == ks[j]; }
          }
        }
      }
    }
  }

  /** Walking over the versions of a key in order, the last visible one is what a lookup finds. */
  lemma LatestIsLookup(ks: seq<MvccKey>, db: Db, range: Range, key: Bytes, version: u64, active: set<u64>)
    requires Listed(ks, db, range)
    requires forall v: u64 :: v <= version ==> Selects(range, Version(key, v))
    ensures Latest(ks, db, key, version, active) == Lookup(db, key, active, version)
  {
    LatestCases(ks, db, key, version, active);
    if i: nat :| IsLatest(ks, key, version, active, i) && Latest(ks, db, key, version, active) == CellOf(db[ks[i]]) {
      var v := ks[i].version;
      assert ks[i] == Version(key, v) && ks[i] in ks;
      forall w: u64 | Shows(db, key, active, version, w) ensures w <= v {
        assert Version(key, w) in ks;
        var j :| 0 <= j < |ks| && ks[j] == Version(key, w);
        assert j < i ==> InOrder(ks[j], ks[i]);
      }
      assert IsNewest(db, key, active, version, v);
      LookupNewest(db, key, active, version, v);
    } else {
      forall w: u64 ensures !Shows(db, key, active, version, w) {
        if Version(key, w) in db && w <= version {
          assert Version(key, w) in ks;
          var j :| 0 <= j < |ks| && ks[j] == Version(key, w);
          assert !IsVisibleVersion(ks[j], key, version, active);
        }
      }
      LookupCases(db, key, active, version);
    }
  }

  lemma LatestUnderPrefix(ks: seq<MvccKey>, db: Db, prefix: Bytes, key: Bytes, version: u64, active: set<u64>)
    requires Listed(ks, db, Under(prefix))
    ensures Latest(ks, db, key, version, active)
         == if prefix <= key then Lookup(db, key, active, version) else None
  {
    if prefix <= key {
      LatestIsLookup(ks, db, Under(prefix), key, version, active);
    } else {
      LatestCases(ks, db, key, version, active);
      forall i | 0 <= i < |ks| ensures !IsVisibleVersion(ks[i], key, version, active) {
        assert ks[i] in ks;
      }
    }
  }

  /** The last key of the conflict scan is the newest version, unless that lies below the scan. */
  lemma LastScanned(ks: seq<MvccKey>, db: Db, key: Bytes, lo: u64)
    requires Listed(ks, db, Between(key, lo, MAX_U64))
    ensures ks == [] ==> forall v: u64 :: Version(key, v) in db ==> v < lo
    ensures ks != [] ==>
      var last := ks[|ks| - 1];
      last.Version? && last.key == key && lo <= last.version && IsLast(db, key, last.version)
  {
    forall v: u64 | Version(key, v) in db && lo <= v
      ensures ks != [] && ks[|ks| - 1].Version? && v <= ks[|ks| - 1].version
    {
      assert Version(key, v) in ks;
      var j :| 0 <= j < |ks| && ks[j] == Version(key, v);
      assert ks[|ks| - 1] in ks;
      assert j < |ks| - 1 ==> InOrder(ks[j], ks[|ks| - 1]);
    }
    if ks != [] { assert ks[|ks| - 1] in ks; }
  }
}
