/** The database of the transaction layer as a map from logical keys, and what each operation does to it. */
module MvccState {
  import opened ByteOrder
  import opened StorageEngine
  import opened MvccKeys

  /** What a stored value deserializes to: nothing, the version counter, or a written (or deleted) value. */
  datatype Stored = Empty | Counter(n: u64) | Cell(value: Option<Bytes>)

  type Db = map<MvccKey, Stored>

  predicate Visible(version: u64, active: set<u64>, v: u64) {
    v !in active && v <= version
  }

  function CellOf(s: Stored): Option<Bytes> {
    if s.Cell? then s.value else None
  }

  function NextOf(db: Db): u64 {
    if NextVersion in db && db[NextVersion].Counter? then db[NextVersion].n else 1
  }

  ghost function ActiveOf(db: Db): set<u64> {
    set k | k in db && k.TxnActive? :: k.version
  }

  ghost function BeginDb(db: Db): Db
    requires NextOf(db) < MAX_U64
  {
    db[NextVersion := Counter(NextOf(db) + 1)][TxnActive(NextOf(db)) := Empty]
  }

  ghost function WriteDb(db: Db, version: u64, key: Bytes, value: Option<Bytes>): Db {
    db[TxnWrite(version, key) := Empty][Version(key, version) := Cell(value)]
  }

  ghost function CommitDb(db: Db, version: u64): Db {
    map k | k in db && !(k.TxnWrite? && k.version == version) && k != TxnActive(version) :: db[k]
  }

  ghost function RollbackDb(db: Db, version: u64): Db {
    map k | k in db
      && !(k.TxnWrite? && k.version == version)
      && !(k.Version? && k.version == version && TxnWrite(version, k.key) in db)
      && k != TxnActive(version)
      :: db[k]
  }

  /** The conflict test as it is coded: only the newest version from the smallest concurrent one upwards. */
  ghost predicate NewestInvisible(db: Db, key: Bytes, version: u64, active: set<u64>) {
    exists w: u64 ::
      && IsLast(db, key, w)
      && (if active == {} then w > version else exists a: u64 :: a in active && a <= w)
      && !Visible(version, active, w)
  }

  ghost predicate IsLast(db: Db, key: Bytes, w: u64) {
    Version(key, w) in db && forall v: u64 :: Version(key, v) in db ==> v <= w
  }

  // ---------------------------------------------------------------- reading

  /** The value of the newest version at or below `bound` that is not hidden. */
  ghost function Lookup(db: Db, key: Bytes, hidden: set<u64>, bound: u64): Option<Bytes>
    decreases bound
  {
    if Version(key, bound) in db && bound !in hidden then CellOf(db[Version(key, bound)])
    else if bound == 0 then None
    else Lookup(db, key, hidden, bound - 1)
  }

  ghost predicate Shows(db: Db, key: Bytes, hidden: set<u64>, bound: u64, v: u64) {
    Version(key, v) in db && v <= bound && v !in hidden
  }

  ghost predicate IsNewest(db: Db, key: Bytes, hidden: set<u64>, bound: u64, v: u64) {
    Shows(db, key, hidden, bound, v) && forall w: u64 :: Shows(db, key, hidden, bound, w) ==> w <= v
  }

  lemma {:induction false} LookupNewest(db: Db, key: Bytes, hidden: set<u64>, bound: u64, v: u64)
    requires IsNewest(db, key, hidden, bound, v)
    ensures Lookup(db, key, hidden, bound) == CellOf(db[Version(key, v)])
    decreases bound
  {
    if v < bound {
      assert !Shows(db, key, hidden, bound, bound);
      var below := bound - 1;
      forall w: u64 | Shows(db, key, hidden, below, w) ensures w <= v {
        assert Shows(db, key, hidden, bound, w);
      }
      LookupNewest(db, key, hidden, below, v);
    }
  }

  /** Either nothing shows and the lookup finds nothing, or it finds the newest version that shows. */
  lemma {:induction false} LookupCases(db: Db, key: Bytes, hidden: set<u64>, bound: u64)
    ensures (exists v: u64 :: IsNewest(db, key, hidden, bound, v))
         || ((forall v: u64 :: !Shows(db, key, hidden, bound, v)) && Lookup(db, key, hidden, bound) == None)
    decreases bound
  {
    if Shows(db, key, hidden, bound, bound) {
      assert IsNewest(db, key, hidden, bound, bound);
    } else if bound > 0 {
      var below := bound - 1;
      LookupCases(db, key, hidden, below);
      if v: u64 :| IsNewest(db, key, hidden, below, v) {
        forall w: u64 | Shows(db, key, hidden, bound, w) ensures w <= v {
          assert Shows(db, key, hidden, below, w);
        }
        assert IsNewest(db, key, hidden, bound, v);
      } else {
        forall v: u64 ensures !Shows(db, key, hidden, bound, v) {
          assert !Shows(db, key, hidden, below, v);
        }
      }
    } else {
      assert forall v: u64 :: Shows(db, key, hidden, bound, v) ==> v == bound;
    }
  }

  /** Lookups agree when the same versions show with the same values. */
  lemma SameLookup(db: Db, hidden: set<u64>, bound: u64, db': Db, hidden': set<u64>, bound': u64, key: Bytes)
    requires forall v: u64 {:trigger Shows(db, key, hidden, bound, v)} {:trigger Shows(db', key, hidden', bound', v)} ::
      Shows(db, key, hidden, bound, v) <==> Shows(db', key, hidden', bound', v)
    requires forall v: u64 {:trigger Shows(db, key, hidden, bound, v)} ::
      Shows(db, key, hidden, bound, v) ==> Version(key, v) in db' && db[Version(key, v)] == db'[Version(key, v)]
    ensures Lookup(db, key, hidden, bound) == Lookup(db', key, hidden', bound')
  {
    LookupCases(db, key, hidden, bound);
    if v: u64 :| IsNewest(db, key, hidden, bound, v) {
      LookupNewest(db, key, hidden, bound, v);
      assert IsNewest(db', key, hidden', bound', v);
      LookupNewest(db', key, hidden', bound', v);
    } else {
      LookupCases(db', key, hidden', bound');
    }
  }

  /** A map as the list a `BTreeMap` turns into. */
  function RowsOf(m: map<Bytes, Bytes>): seq<(Bytes, Bytes)> {
    Entries(m, Sorted(m.Keys))
  }

  /** The rows are sorted by key without duplicates, and are exactly the entries of the map. */
  lemma RowsAreSorted(m: map<Bytes, Bytes>)
    ensures var rows := RowsOf(m);
      && (forall i, j :: 0 <= i < j < |rows| ==> Less(rows[i].0, rows[j].0))
      && (forall k, v :: (k, v) in rows <==> k in m && m[k] == v)
  {
  }

  /** All keys under a prefix with a value, and that value. */
  ghost function ScanView(db: Db, prefix: Bytes, hidden: set<u64>, bound: u64): map<Bytes, Bytes> {
    map key | key in StoredKeys(db) && prefix <= key && Lookup(db, key, hidden, bound).Some?
      :: Lookup(db, key, hidden, bound).value
  }

  ghost function StoredKeys(db: Db): set<Bytes> {
    set k | k in db && k.Version? :: k.key
  }

  /** A scan agrees with single reads: exactly the keys under the prefix that a read finds. */
  lemma ScanAgreesWithGet(db: Db, prefix: Bytes, hidden: set<u64>, bound: u64, key: Bytes)
    ensures key in ScanView(db, prefix, hidden, bound)
       <==> prefix <= key && Lookup(db, key, hidden, bound).Some?
    ensures key in ScanView(db, prefix, hidden, bound)
        ==> Lookup(db, key, hidden, bound) == Some(ScanView(db, prefix, hidden, bound)[key])
  {
  }
}
