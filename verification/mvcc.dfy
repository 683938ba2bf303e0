/** The transactions as they run: loops over encoded keys in the byte engine, each proved to have the
    effect of its step on the logical database. */
module Mvcc {
  import opened ByteOrder
  import opened StorageEngine
  import opened MvccKeys
  import opened MvccState
  import opened Backends
  import opened Representation

  datatype Outcome = Done | WriteConflict

  ghost predicate Ready(engine: Backend)
    reads engine, engine.disk, engine.Repr()
  {
    engine.Valid() && WellFormed(engine.data)
  }

  /** The engine still lies where it did. */
  twostate predicate Same(engine: Backend)
    reads engine, engine.disk
  {
    engine.disk == old(engine.disk) && engine.Repr() == old(engine.Repr())
  }

  class Transaction {
    const engine: Backend
    const version: u64
    const active: set<u64>

    constructor (engine: Backend, version: u64, active: set<u64>)
      ensures this.engine == engine && this.version == version && this.active == active
    {
      this.engine, this.version, this.active := engine, version, active;
    }

    static method Begin(engine: Backend) returns (t: Transaction)
      requires Ready(engine) && NextOf(Logical(engine.data)) < MAX_U64
      modifies engine.Repr()
      ensures fresh(t) && t.engine == engine
      ensures t.version == NextOf(Logical(old(engine.data)))
      ensures t.active == ActiveOf(Logical(old(engine.data)))
      ensures Ready(engine) && Same(engine)
      ensures Logical(engine.data) == BeginDb(Logical(old(engine.data)))
    {
      var next, active := Register(engine);
      t := new Transaction(engine, next, active);
    }

    static method Register(engine: Backend) returns (next: u64, active: set<u64>)
      requires Ready(engine) && NextOf(Logical(engine.data)) < MAX_U64
      modifies engine.Repr()
      ensures next == NextOf(Logical(old(engine.data))) && active == ActiveOf(Logical(old(engine.data)))
      ensures Ready(engine) && Same(engine)
      ensures Logical(engine.data) == BeginDb(Logical(old(engine.data)))
    {
      ghost var db := Logical(engine.data);
      next := TakeNext(engine);
      active := ScanActive(engine);
      assert active == ActiveOf(db) by { SameActive(db, db[NextVersion := Counter(next + 1)]); }
      MarkerHasRoom(next);
      SetKey(engine, TxnActive(next), Empty);
    }

    /** The next version number, and the one after it into the store. */
    static method TakeNext(engine: Backend) returns (next: u64)
      requires Ready(engine) && NextOf(Logical(engine.data)) < MAX_U64
      modifies engine.Repr()
      ensures next == NextOf(Logical(old(engine.data))) && Ready(engine) && Same(engine)
      ensures Logical(engine.data) == Logical(old(engine.data))[NextVersion := Counter(next + 1)]
    {
      var nextKey := EncodeKey(NextVersion);
      var stored := engine.Get(nextKey);
      assert stored.Some? <==> NextVersion in Logical(engine.data);
      next := if stored.Some? then stored.value.n else 1;
      CounterHasRoom(next + 1);
      SetKey(engine, NextVersion, Counter(next + 1));
    }

    static method ScanActive(engine: Backend) returns (active: set<u64>)
      requires Ready(engine)
      ensures active == ActiveOf(Logical(engine.data))
    {
      ghost var db := Logical(engine.data);
      active := {};
      var items, ks := ScanKeys(engine, AllActive);
      for i := 0 to |items|
        invariant forall v :: v in active <==> TxnActive(v) in ks[..i]
      {
        var key := DecodeItem(items, ks, db, i);
        assert ks[..i + 1] == ks[..i] + [ks[i]] && ks[i] in ks;
        active := active + {key.version};
      }
      assert ks[..|items|] == ks;
      ListedActive(ks, db, active);
    }

    method Commit()
      requires Ready(engine)
      modifies engine.Repr()
      ensures Ready(engine) && Same(engine)
      ensures Logical(engine.data) == CommitDb(Logical(old(engine.data)), version)
    {
      ghost var db := Logical(engine.data);
      var items, ks := ScanKeys(engine, WritesOf(version));
      var deleteKeys := CollectRecords(items);
      RecordsHaveRoom(engine, deleteKeys, ks);
      var activeKey := EncodeKey(TxnActive(version));
      DeleteAll(engine, deleteKeys, ks);
      MarkerHasRoom(version);
      DeleteAll(engine, [activeKey], [TxnActive(version)]);
      CommittedKeys(ks, db, version);
    }

    static method CollectRecords(items: seq<Item>) returns (deleteKeys: seq<Bytes>)
      ensures |deleteKeys| == |items| && forall i :: 0 <= i < |items| ==> deleteKeys[i] == items[i].0
    {
      deleteKeys := [];
      for i := 0 to |items|
        invariant |deleteKeys| == i && forall j :: 0 <= j < i ==> deleteKeys[j] == items[j].0
      {
        deleteKeys := deleteKeys + [items[i].0];
      }
    }

    method Rollback()
      requires Ready(engine)
      modifies engine.Repr()
      ensures Ready(engine) && Same(engine)
      ensures Logical(engine.data) == RollbackDb(Logical(old(engine.data)), version)
    {
      ghost var db := Logical(engine.data);
      var items, ks := ScanKeys(engine, WritesOf(version));
      var deleteKeys := CollectWritten(items, ks, db);
      WrittenHaveRoom(engine, deleteKeys, ks, version);
      var activeKey := EncodeKey(TxnActive(version));
      DeleteAll(engine, deleteKeys, WithVersions(ks, version));
      MarkerHasRoom(version);
      DeleteAll(engine, [activeKey], [TxnActive(version)]);
      RolledBackKeys(ks, db, version);
    }

    /** For each write record, the key of the version beside it and then its own key. */
    method CollectWritten(items: seq<Item>, ghost ks: seq<MvccKey>, ghost db: Db) returns (deleteKeys: seq<Bytes>)
      requires Holds(items, ks, db) && Listed(ks, db, WithPrefix(WritesOf(version)))
      ensures Encoded(deleteKeys, WithVersions(ks, version))
    {
      deleteKeys := [];
      ghost var gone: seq<MvccKey> := [];
      for i := 0 to |items|
        invariant Encoded(deleteKeys, gone) && gone == WithVersions(ks[..i], version)
      {
        assert ks[i] in ks && ks[..i + 1][..i] == ks[..i];
        var key := DecodeItem(items, ks, db, i);
        var versionKey := EncodeKey(Version(key.key, version));
        deleteKeys := deleteKeys + [versionKey];
        deleteKeys := deleteKeys + [items[i].0];
        gone := gone + [Version(key.key, version), ks[i]];
      }
      assert ks[..|items|] == ks;
    }

    method Get(key: Bytes) returns (r: Option<Bytes>)
      requires Ready(engine)
      ensures r == Lookup(Logical(engine.data), key, active, version)
    {
      ghost var db := Logical(engine.data);
      var items, ks := ScanVersions(engine, key, 0, version);
      LatestIsLookup(ks, db, Between(key, 0, version), key, version, active);
      var i := |items|;
      assert ks[..i] == ks;
      while i > 0
        invariant 0 <= i <= |items|
        invariant Lookup(db, key, active, version) == Latest(ks[..i], db, key, version, active)
      {
        assert ks[..i][..i - 1] == ks[..i - 1];
        i := i - 1;
        assert ks[i] in ks;
        var versionKey := DecodeItem(items, ks, db, i);
        if Visible(version, active, versionKey.version) {
          var stored := ItemValue(items, ks, db, i);
          return CellOf(stored);
        }
      }
      r := None;
    }

    /** The rows come sorted by key, once each, and are exactly those a single read would find. */
    method ScanPrefix(prefix: Bytes) returns (rows: seq<(Bytes, Bytes)>)
      requires Ready(engine)
      ensures rows == RowsOf(ScanView(Logical(engine.data), prefix, active, version))
    {
      ghost var db := Logical(engine.data);
      var items, ks := ScanVersionsUnder(engine, prefix);
      var results: map<Bytes, Bytes> := map[];
      for i := 0 to |items|
        invariant forall k: Bytes :: Find(results, k) == Latest(ks[..i], db, k, version, active)
      {
        assert ks[..i + 1][..i] == ks[..i] && ks[i] in ks;
        var versionKey := DecodeItem(items, ks, db, i);
        if Visible(version, active, versionKey.version) {
          var stored := ItemValue(items, ks, db, i);
          match CellOf(stored) {
            case Some(value) => results := results[versionKey.key := value];
            case None => results := results - {versionKey.key};
          }
        }
      }
      assert ks[..|items|] == ks;
      ResultsAreView(results, ks, db, prefix, version, active);
      rows := RowsOf(results);
    }

    method Set(key: Bytes, value: Bytes) returns (r: Outcome)
      requires Ready(engine) && version < MAX_U64 && (engine.disk != null ==> WriteFits(key, Some(value)))
      modifies engine.Repr()
      ensures Ready(engine) && Same(engine)
      ensures r.WriteConflict? <==> NewestInvisible(Logical(old(engine.data)), key, version, active)
      ensures Logical(engine.data) ==
        if r.Done? then WriteDb(Logical(old(engine.data)), version, key, Some(value)) else Logical(old(engine.data))
    {
      r := WriteInner(key, Some(value));
    }

    method Delete(key: Bytes) returns (r: Outcome)
      requires Ready(engine) && version < MAX_U64 && (engine.disk != null ==> WriteFits(key, None))
      modifies engine.Repr()
      ensures Ready(engine) && Same(engine)
      ensures r.WriteConflict? <==> NewestInvisible(Logical(old(engine.data)), key, version, active)
      ensures Logical(engine.data) ==
        if r.Done? then WriteDb(Logical(old(engine.data)), version, key, None) else Logical(old(engine.data))
    {
      r := WriteInner(key, None);
    }

    method WriteInner(key: Bytes, value: Option<Bytes>) returns (r: Outcome)
      requires Ready(engine) && version < MAX_U64 && (engine.disk != null ==> WriteFits(key, value))
      modifies engine.Repr()
      ensures Ready(engine) && Same(engine)
      ensures r.WriteConflict? <==> NewestInvisible(Logical(old(engine.data)), key, version, active)
      ensures Logical(engine.data) ==
        if r.Done? then WriteDb(Logical(old(engine.data)), version, key, value) else Logical(old(engine.data))
    {
      var conflict := FindConflict(key);
      if conflict { return WriteConflict; }
      if engine.disk != null { WriteHasRoom(version, key, value); }
      SetKey(engine, TxnWrite(version, key), Empty);
      SetKey(engine, Version(key, version), Cell(value));
      r := Done;
    }

    /** The conflict check at the start of every write. */
    method FindConflict(key: Bytes) returns (conflict: bool)
      requires Ready(engine) && version < MAX_U64
      ensures conflict <==> NewestInvisible(Logical(engine.data), key, version, active)
    {
      var smallest := LeastOr(active, version + 1);
      ghost var db := Logical(engine.data);
      var items, ks := ScanVersions(engine, key, smallest, MAX_U64);
      LastScanned(ks, db, key, smallest);
      conflict := false;
      if items != [] {
        var last := |items| - 1;
        var versionKey := DecodeItem(items, ks, db, last);
        conflict := !Visible(version, active, versionKey.version);
        assert IsLast(db, key, versionKey.version);
      }
    }
  }

  // ---------------------------------------------------------------- encoded writes and scans

  method SetKey(engine: Backend, k: MvccKey, value: Stored)
    requires Ready(engine) && engine.Room(Encode(k), Some(Serialize(value)))
    requires (k.NextVersion? ==> value.Counter?) && (k.Version? ==> value.Cell?)
    modifies engine.Repr()
    ensures Ready(engine) && Same(engine)
    ensures Logical(engine.data) == Logical(old(engine.data))[k := value]
  {
    var key := EncodeKey(k);
    AfterSet(engine.data, k, value);
    engine.Set(key, value);
  }

  /** Whatever is stored can be deleted. */
  lemma StoredHasRoom(engine: Backend, k: MvccKey)
    requires Ready(engine) && k in Logical(engine.data)
    ensures engine.Room(Encode(k), None)
  {
    engine.RoomToDelete(Encode(k));
  }

  lemma RecordsHaveRoom(engine: Backend, keys: seq<Bytes>, ks: seq<MvccKey>)
    requires Ready(engine) && Encoded(keys, ks) && forall k :: k in ks ==> k in Logical(engine.data)
    ensures HaveRoom(engine, keys)
  {
    forall i | 0 <= i < |keys| ensures engine.Room(keys[i], None) {
      assert ks[i] in ks;
      StoredHasRoom(engine, ks[i]);
    }
  }

  /** A written version is as long as its record. */
  lemma WrittenHaveRoom(engine: Backend, keys: seq<Bytes>, ks: seq<MvccKey>, version: u64)
    requires Ready(engine) && Listed(ks, Logical(engine.data), WithPrefix(WritesOf(version)))
    requires Encoded(keys, WithVersions(ks, version))
    ensures HaveRoom(engine, keys)
  {
    forall i | 0 <= i < |keys| ensures engine.Room(keys[i], None) {
      var k := WithVersions(ks, version)[i];
      WithVersionsMembers(ks, version, k);
      if k in ks {
        StoredHasRoom(engine, k);
      } else {
        var w :| w in ks && w.key == k.key;
        StoredHasRoom(engine, w);
        SameLength(version, k.key);
      }
    }
  }


  /** `engine.scan(Version(key, lo)..=Version(key, hi))`. */
  method ScanVersions(engine: Backend, key: Bytes, lo: u64, hi: u64)
    returns (items: seq<Item>, ghost ks: seq<MvccKey>)
    requires Ready(engine) && lo <= hi
    ensures Holds(items, ks, Logical(engine.data)) && Listed(ks, Logical(engine.data), Between(key, lo, hi))
  {
    var from := EncodeKey(Version(key, lo));
    var to := EncodeKey(Version(key, hi));
    VersionRangeOk(key, lo, hi);
    items := engine.Scan(Included(from), Included(to));
    ks := RangeScanYields(engine.data, key, lo, hi, items);
  }

  /** `engine.scan_prefix` of an encoded key prefix. */
  method ScanKeys(engine: Backend, p: MvccKeyPrefix)
    returns (items: seq<Item>, ghost ks: seq<MvccKey>)
    requires Ready(engine)
    ensures Holds(items, ks, Logical(engine.data)) && Listed(ks, Logical(engine.data), WithPrefix(p))
  {
    var prefix := EncodeKeyPrefix(p);
    items := engine.ScanPrefix(prefix);
    ks := PrefixScanYields(engine.data, p, items);
  }

  /** `engine.scan_prefix` of an encoded raw prefix without its 0,0 terminator. */
  method ScanVersionsUnder(engine: Backend, prefix: Bytes)
    returns (items: seq<Item>, ghost ks: seq<MvccKey>)
    requires Ready(engine)
    ensures Holds(items, ks, Logical(engine.data)) && Listed(ks, Logical(engine.data), Under(prefix))
  {
    var enc := EncodeKeyPrefix(VersionsOf(prefix));
    TruncatedPrefixIs(prefix);
    enc := enc[..|enc| - 2];
    items := engine.ScanPrefix(enc);
    StartsUnder(enc, prefix);
    ks := StartScanYields(engine.data, enc, items, Under(prefix));
  }

  ghost predicate HaveRoom(engine: Backend, keys: seq<Bytes>)
    reads engine
  {
    forall i :: 0 <= i < |keys| ==> engine.Room(keys[i], None)
  }

  method DeleteAll(engine: Backend, deleteKeys: seq<Bytes>, ghost ks: seq<MvccKey>)
    requires Ready(engine)
    requires Encoded(deleteKeys, ks) && HaveRoom(engine, deleteKeys)
    modifies engine.Repr()
    ensures Ready(engine) && Same(engine)
    ensures Logical(engine.data) == Without(Logical(old(engine.data)), ks)
  {
    for i := 0 to |deleteKeys|
      invariant engine.Valid() && Same(engine)
      invariant engine.data == old(engine.data) - (set b | b in deleteKeys[..i])
    {
      engine.Delete(deleteKeys[i]);
      assert deleteKeys[..i + 1] == deleteKeys[..i] + [deleteKeys[i]];
    }
    assert deleteKeys[..|deleteKeys|] == deleteKeys;
    AfterRemoveKeys(old(engine.data), deleteKeys, ks);
  }

  ghost function Without(db: Db, ks: seq<MvccKey>): Db {
    map k | k in db && k !in ks :: db[k]
  }

  /** The smallest element, or `otherwise` for the empty set. */
  method LeastOr(versions: set<u64>, otherwise: u64) returns (least: u64)
    ensures versions == {} ==> least == otherwise
    ensures versions != {} ==> least in versions && forall v :: v in versions ==> least <= v
  {
    least := otherwise;
    var rest := versions;
    while rest != {}
      invariant rest <= versions
      invariant rest == versions ==> least == otherwise
      invariant rest != versions ==> least in versions && forall v :: v in versions && v !in rest ==> least <= v
      decreases rest
    {
      var v :| v in rest;
      if rest == versions || v < least { least := v; }
      rest := rest - {v};
    }
  }

  // ---------------------------------------------------------------- what the loops add up to

  lemma SameActive(db: Db, db': Db)
    requires forall v: u64 :: TxnActive(v) in db <==> TxnActive(v) in db'
    ensures ActiveOf(db) == ActiveOf(db')
  {
  }

  lemma ListedActive(ks: seq<MvccKey>, db: Db, active: set<u64>)
    requires Listed(ks, db, WithPrefix(AllActive))
    requires forall v :: v in active <==> TxnActive(v) in ks
    ensures active == ActiveOf(db)
  {
  }

  lemma CommittedKeys(ks: seq<MvccKey>, db: Db, version: u64)
    requires Listed(ks, db, WithPrefix(WritesOf(version)))
    ensures Without(Without(db, ks), [TxnActive(version)]) == CommitDb(db, version)
  {
  }

  /** The keys a rollback collects: for each write record the version beside it, then the record. */
  ghost function WithVersions(ks: seq<MvccKey>, version: u64): seq<MvccKey> {
    if ks == [] then [] else
      var last := ks[|ks| - 1];
      WithVersions(ks[..|ks| - 1], version) + [Version(RawKey(last), version), last]
  }

  function RawKey(k: MvccKey): Bytes {
    match k
    case TxnWrite(_, key) => key
    case Version(key, _) => key
    case _ => []
  }

  lemma {:induction false} WithVersionsMembers(ks: seq<MvccKey>, version: u64, k: MvccKey)
    requires forall w :: w in ks ==> w.TxnWrite?
    ensures k in WithVersions(ks, version)
       <==> k in ks || (k.Version? && k.version == version && exists w :: w in ks && w.key == k.key)
  {
    if ks != [] {
      var front, last := ks[..|ks| - 1], ks[|ks| - 1];
      assert ks == front + [last];
      WithVersionsMembers(front, version, k);
      assert last in ks && RawKey(last) == last.key;
      assert forall w :: w in ks <==> w in front || w == last;
    }
  }

  lemma RolledBackKeys(ks: seq<MvccKey>, db: Db, version: u64)
    requires Listed(ks, db, WithPrefix(WritesOf(version)))
    requires forall k :: k in ks ==> k.TxnWrite?
    ensures Without(Without(db, WithVersions(ks, version)), [TxnActive(version)]) == RollbackDb(db, version)
  {
    forall k | k in db
      ensures k in WithVersions(ks, version) <==>
        (k.TxnWrite? && k.version == version)
        || (k.Version? && k.version == version && TxnWrite(version, k.key) in db)
    {
      WithVersionsMembers(ks, version, k);
      if k.Version? && k.version == version {
        if TxnWrite(version, k.key) in db { assert TxnWrite(version, k.key) in ks; }
        if w :| w in ks && w.key == k.key { assert w == TxnWrite(version, k.key); }
      }
    }
  }

  lemma ResultsAreView(results: map<Bytes, Bytes>, ks: seq<MvccKey>, db: Db,
                       prefix: Bytes, version: u64, active: set<u64>)
    requires Listed(ks, db, Under(prefix))
    requires forall k: Bytes :: Find(results, k) == Latest(ks, db, k, version, active)
    ensures results == ScanView(db, prefix, active, version)
  {
    var view := ScanView(db, prefix, active, version);
    forall k: Bytes
      ensures k in results <==> k in view
      ensures k in results ==> results[k] == view[k]
    {
      assert Find(results, k) == Latest(ks, db, k, version, active);
      LatestUnderPrefix(ks, db, prefix, k, version, active);
      ScanAgreesWithGet(db, prefix, active, version, k);
    }
  }
}
