/** A snapshot-isolation store, and the proof that the transaction layer refines it. */
module SnapshotStore {
  import opened ByteOrder
  import opened MvccKeys
  import opened MvccState
  import opened Runs

  /** A running transaction: the committed map when it began, its own writes, and the keys others
      have committed since. */
  datatype Txn = Txn(snapshot: map<Bytes, Bytes>, writes: map<Bytes, Option<Bytes>>, stale: set<Bytes>)

  datatype Store = Store(next: u64, committed: map<Bytes, Bytes>, txns: map<u64, Txn>)

  const EMPTY := Store(1, map[], map[])

  /** A read sees the transaction's own last write, or else its snapshot. */
  function Read(txn: Txn, key: Bytes): Option<Bytes> {
    if key in txn.writes then txn.writes[key] else Find(txn.snapshot, key)
  }

  ghost function ReadAll(txn: Txn, prefix: Bytes): map<Bytes, Bytes> {
    map key | key in txn.snapshot.Keys + txn.writes.Keys && prefix <= key && Read(txn, key).Some?
      :: Read(txn, key).value
  }

  /** A commit applies the whole write set at once. */
  function Apply(m: map<Bytes, Bytes>, writes: map<Bytes, Option<Bytes>>): map<Bytes, Bytes> {
    map key | key in m.Keys + writes.Keys && (if key in writes then writes[key].Some? else true)
      :: if key in writes then writes[key].value else m[key]
  }

  /** What a transaction works on: its snapshot under its own writes. */
  function View(txn: Txn): map<Bytes, Bytes> {
    Apply(txn.snapshot, txn.writes)
  }

  /** Reads and scans of a transaction read its view. */
  lemma ViewIsRead(txn: Txn, key: Bytes, prefix: Bytes)
    ensures Read(txn, key) == Find(View(txn), key)
    ensures ReadAll(txn, prefix) == map k | k in View(txn) && prefix <= k :: View(txn)[k]
  {
  }

  /** Each write sets or removes one key of the view, which starts as the snapshot. */
  lemma ViewIsWritten(txn: Txn, key: Bytes, value: Option<Bytes>)
    ensures View(txn.(writes := txn.writes[key := value]))
         == if value.Some? then View(txn)[key := value.value] else View(txn) - {key}
    ensures View(Txn(txn.snapshot, map[], txn.stale)) == txn.snapshot
  {
  }

  /** A write conflicts when someone else has an uncommitted or newly committed write of the key. */
  ghost predicate Conflicts(a: Store, t: u64, key: Bytes)
    requires t in a.txns
  {
    key in a.txns[t].stale || exists u :: u in a.txns && u != t && key in a.txns[u].writes
  }

  ghost predicate StoreEnabled(a: Store, step: Step) {
    if step.Begin? then a.next < MAX_U64 else step.t in a.txns
  }

  ghost function StoreNext(a: Store, step: Step): Store
    requires StoreEnabled(a, step)
  {
    match step
    case Begin => Store(a.next + 1, a.committed, a.txns[a.next := Txn(a.committed, map[], {})])
    case Get(_, _) => a
    case Scan(_, _) => a
    case Write(t, key, value) =>
      if Conflicts(a, t, key) then a
      else a.(txns := a.txns[t := a.txns[t].(writes := a.txns[t].writes[key := value])])
    case Commit(t) =>
      var writes := a.txns[t].writes;
      Store(a.next, Apply(a.committed, writes),
            map u | u in a.txns && u != t :: a.txns[u].(stale := a.txns[u].stale + writes.Keys))
    case Rollback(t) => a.(txns := a.txns - {t})
  }

  ghost function StoreOut(a: Store, step: Step): Output
    requires StoreEnabled(a, step)
  {
    match step
    case Begin => Began(a.next)
    case Get(t, key) => Found(Read(a.txns[t], key))
    case Scan(t, prefix) => Rows(RowsOf(ReadAll(a.txns[t], prefix)))
    case Write(t, key, _) => if Conflicts(a, t, key) then WriteConflict else Written
    case Commit(_) => Finished
    case Rollback(_) => Finished
  }

  ghost predicate StoreLegal(a: Store, steps: seq<Step>)
    decreases steps
  {
    steps != [] ==> StoreEnabled(a, steps[0]) && StoreLegal(StoreNext(a, steps[0]), steps[1..])
  }

  ghost function StoreFinal(a: Store, steps: seq<Step>): Store
    requires StoreLegal(a, steps)
    decreases steps
  {
    if steps == [] then a else StoreFinal(StoreNext(a, steps[0]), steps[1..])
  }

  ghost function StoreOutputs(a: Store, steps: seq<Step>): seq<Output>
    requires StoreLegal(a, steps)
    decreases steps
  {
    if steps == [] then [] else [StoreOut(a, steps[0])] + StoreOutputs(StoreNext(a, steps[0]), steps[1..])
  }

  // ---------------------------------------------------------------- the simulation relation

  /** Some version of the key was finished by another transaction out of sight of `t`. */
  ghost predicate FinishedUnseen(s: Sys, t: u64, key: Bytes)
    requires t in s.begun
  {
    exists v: u64 :: Version(key, v) in s.db && v !in s.live && !Visible(t, s.begun[t], v)
  }

  ghost predicate TxnMatches(s: Sys, t: u64, txn: Txn, key: Bytes)
    requires t in s.begun
  {
    && Find(txn.snapshot, key) == Lookup(s.db, key, s.begun[t] + {t}, t)
    && (key in txn.writes <==> Version(key, t) in s.db)
    && (key in txn.writes ==> s.db[Version(key, t)] == Cell(txn.writes[key]))
    && (key in txn.stale <==> FinishedUnseen(s, t, key))
  }

  ghost predicate Matches(s: Sys, a: Store) {
    && a.next == NextOf(s.db)
    && a.txns.Keys == s.live
    && s.live <= s.begun.Keys
    && (forall key: Bytes {:trigger Find(a.committed, key)} ::
          Find(a.committed, key) == Lookup(s.db, key, s.live, MAX_U64))
    && (forall t, key: Bytes {:trigger TxnMatches(s, t, a.txns[t], key)} ::
          t in a.txns ==> TxnMatches(s, t, a.txns[t], key))
  }

  // ---------------------------------------------------------------- equal outputs

  lemma SameRead(s: Sys, a: Store, t: u64, key: Bytes)
    requires Inv(s) && Matches(s, a) && t in s.live
    ensures Lookup(s.db, key, s.begun[t], t) == Read(a.txns[t], key)
  {
    assert TxnMatches(s, t, a.txns[t], key);
    if Version(key, t) in s.db {
      assert IsNewest(s.db, key, s.begun[t], t, t);
      LookupNewest(s.db, key, s.begun[t], t, t);
    } else {
      assert forall v: u64 :: Shows(s.db, key, s.begun[t], t, v) <==> Shows(s.db, key, s.begun[t] + {t}, t, v);
      SameLookup(s.db, s.begun[t], t, s.db, s.begun[t] + {t}, t, key);
    }
  }

  lemma SameScan(s: Sys, a: Store, t: u64, prefix: Bytes)
    requires Inv(s) && Matches(s, a) && t in s.live
    ensures ScanView(s.db, prefix, s.begun[t], t) == ReadAll(a.txns[t], prefix)
  {
    var rows, rows' := ScanView(s.db, prefix, s.begun[t], t), ReadAll(a.txns[t], prefix);
    forall key: Bytes
      ensures key in rows <==> key in rows'
      ensures key in rows ==> rows[key] == rows'[key]
    {
      SameRead(s, a, t, key);
      ScanAgreesWithGet(s.db, prefix, s.begun[t], t, key);
    }
    assert rows == rows';
  }

  lemma SameConflict(s: Sys, a: Store, t: u64, key: Bytes)
    requires Inv(s) && Matches(s, a) && t in s.live
    ensures NewestInvisible(s.db, key, t, s.begun[t]) <==> Conflicts(a, t, key)
  {
    ConflictCheckExact(s, t, key);
    assert TxnMatches(s, t, a.txns[t], key);
    if v: u64 :| Version(key, v) in s.db && !Visible(t, s.begun[t], v) {
      if v in s.live {
        assert TxnMatches(s, v, a.txns[v], key);
        assert v in a.txns && v != t && key in a.txns[v].writes;
      } else {
        assert FinishedUnseen(s, t, key);
      }
    }
    if u :| u in a.txns && u != t && key in a.txns[u].writes {
      assert TxnMatches(s, u, a.txns[u], key);
      assert u < t ==> u in s.begun[t];
      assert !Visible(t, s.begun[t], u);
    }
  }

  lemma SameOutput(s: Sys, a: Store, step: Step)
    requires Inv(s) && Matches(s, a)
    requires Enabled(s, step)
    ensures StoreEnabled(a, step) && StoreOut(a, step) == Out(s, step)
  {
    match step {
      case Get(t, key) => SameRead(s, a, t, key);
      case Scan(t, prefix) => SameScan(s, a, t, prefix);
      case Write(t, key, _) => SameConflict(s, a, t, key);
      case _ =>
    }
  }

  // ---------------------------------------------------------------- simulation, step by step

  /** A step of another transaction that adds or removes only that transaction's versions. */
  lemma SnapshotStays(s: Sys, step: Step, u: u64, key: Bytes)
    requires Inv(s) && Enabled(s, step) && u in s.live
    ensures u in Next(s, step).begun && Next(s, step).begun[u] == s.begun[u]
    ensures Lookup(Next(s, step).db, key, s.begun[u] + {u}, u) == Lookup(s.db, key, s.begun[u] + {u}, u)
  {
    var s', hidden := Next(s, step), s.begun[u] + {u};
    if !step.Begin? && step.t < u { assert step.t in s.begun[u]; }
    forall v: u64 ensures Shows(s.db, key, hidden, u, v) <==> Shows(s'.db, key, hidden, u, v) {
      if !step.Begin? && v == step.t { assert v > u || v in hidden; }
    }
    forall v: u64 | Shows(s.db, key, hidden, u, v)
      ensures Version(key, v) in s'.db && s.db[Version(key, v)] == s'.db[Version(key, v)]
    {
      assert Shows(s'.db, key, hidden, u, v);
    }
    SameLookup(s.db, hidden, u, s'.db, hidden, u, key);
  }

  /** The committed view does not change unless a transaction commits. */
  lemma CommittedStays(s: Sys, step: Step, key: Bytes)
    requires Inv(s) && Enabled(s, step) && !step.Commit?
    ensures Lookup(Next(s, step).db, key, Next(s, step).live, MAX_U64) == Lookup(s.db, key, s.live, MAX_U64)
  {
    var s' := Next(s, step);
    if step.Rollback? {
      RollbackIsUnseen(s, step.t, key);
    } else {
      forall v: u64 ensures Shows(s.db, key, s.live, MAX_U64, v) <==> Shows(s'.db, key, s'.live, MAX_U64, v) {
        if step.Begin? && v == NextOf(s.db) { assert v !in s.begun; }
      }
      forall v: u64 | Shows(s.db, key, s.live, MAX_U64, v)
        ensures Version(key, v) in s'.db && s.db[Version(key, v)] == s'.db[Version(key, v)]
      {
        assert Shows(s'.db, key, s'.live, MAX_U64, v);
      }
      SameLookup(s.db, s.live, MAX_U64, s'.db, s'.live, MAX_U64, key);
    }
  }

  lemma BeginMatches(s: Sys, a: Store)
    requires Inv(s) && Matches(s, a) && Enabled(s, Begin)
    ensures Matches(Next(s, Begin), StoreNext(a, Begin))
  {
    var s', a', n := Next(s, Begin), StoreNext(a, Begin), NextOf(s.db);
    BeginKeeps(s);
    forall key: Bytes ensures Find(a'.committed, key) == Lookup(s'.db, key, s'.live, MAX_U64) {
      CommittedStays(s, Begin, key);
      assert Find(a.committed, key) == Lookup(s.db, key, s.live, MAX_U64);
    }
    forall t, key: Bytes | t in a'.txns ensures TxnMatches(s', t, a'.txns[t], key) {
      if t == n {
        NewTxnMatches(s, a, key);
      } else {
        assert TxnMatches(s, t, a.txns[t], key);
        OtherAtBegin(s, t, a.txns[t], key);
      }
    }
  }

  /** A transaction that begins sees what is committed. */
  lemma NewTxnMatches(s: Sys, a: Store, key: Bytes)
    requires Inv(s) && Matches(s, a) && Enabled(s, Begin)
    ensures NextOf(s.db) in Next(s, Begin).begun
    ensures TxnMatches(Next(s, Begin), NextOf(s.db), Txn(a.committed, map[], {}), key)
  {
    var s', n := Next(s, Begin), NextOf(s.db);
    BeginKeeps(s);
    assert Find(a.committed, key) == Lookup(s.db, key, s.live, MAX_U64);
    NewSnapshot(s, key);
    assert !FinishedUnseen(s', n, key);
  }

  lemma NewSnapshot(s: Sys, key: Bytes)
    requires Inv(s) && Enabled(s, Begin)
    ensures var n, db' := NextOf(s.db), Next(s, Begin).db;
      Lookup(s.db, key, s.live, MAX_U64) == Lookup(db', key, s.live + {n}, n) && Version(key, n) !in db'
  {
    var n, db' := NextOf(s.db), Next(s, Begin).db;
    forall v: u64 ensures Shows(s.db, key, s.live, MAX_U64, v) <==> Shows(db', key, s.live + {n}, n, v) {
      if Version(key, v) in s.db { assert v in s.begun; }
    }
    SameLookup(s.db, s.live, MAX_U64, db', s.live + {n}, n, key);
  }

  lemma OtherAtBegin(s: Sys, t: u64, txn: Txn, key: Bytes)
    requires Inv(s) && Enabled(s, Begin) && t in s.live && TxnMatches(s, t, txn, key)
    ensures t in Next(s, Begin).begun && TxnMatches(Next(s, Begin), t, txn, key)
  {
    var s' := Next(s, Begin);
    SnapshotStays(s, Begin, t, key);
    assert forall v: u64 :: Version(key, v) in s'.db <==> Version(key, v) in s.db;
    assert forall v: u64 :: Version(key, v) in s.db ==> v != NextOf(s.db);
  }

  lemma WriteMatches(s: Sys, a: Store, step: Step)
    requires Inv(s) && Matches(s, a) && step.Write? && Enabled(s, step)
    ensures Matches(Next(s, step), StoreNext(a, step))
  {
    var Write(t, k, value) := step;
    SameConflict(s, a, t, k);
    var s', a' := Next(s, step), StoreNext(a, step);
    if !Conflicts(a, t, k) {
      forall key: Bytes ensures Find(a'.committed, key) == Lookup(s'.db, key, s'.live, MAX_U64) {
        CommittedStays(s, step, key);
        assert Find(a.committed, key) == Lookup(s.db, key, s.live, MAX_U64);
      }
      forall u, key: Bytes | u in a'.txns ensures TxnMatches(s', u, a'.txns[u], key) {
        assert TxnMatches(s, u, a.txns[u], key);
        SnapshotStays(s, step, u, key);
        assert FinishedUnseen(s', u, key) <==> FinishedUnseen(s, u, key) by {
          assert forall v: u64 :: v !in s.live ==> (Version(key, v) in s'.db <==> Version(key, v) in s.db);
        }
      }
    }
  }

  /** The versions of the committing transaction become the newest ones. */
  lemma CommitApplies(s: Sys, a: Store, t: u64, key: Bytes)
    requires Inv(s) && Matches(s, a) && t in s.live
    ensures var s' := Next(s, Commit(t));
      Find(Apply(a.committed, a.txns[t].writes), key) == Lookup(s'.db, key, s'.live, MAX_U64)
  {
    var s' := Next(s, Commit(t));
    assert TxnMatches(s, t, a.txns[t], key);
    assert Find(a.committed, key) == Lookup(s.db, key, s.live, MAX_U64);
    if key in a.txns[t].writes {
      LiveVersionIsLast(s, t, key);
      assert IsNewest(s'.db, key, s'.live, MAX_U64, t);
      LookupNewest(s'.db, key, s'.live, MAX_U64, t);
    } else {
      forall v: u64 ensures Shows(s.db, key, s.live, MAX_U64, v) <==> Shows(s'.db, key, s'.live, MAX_U64, v) {
      }
      SameLookup(s.db, s.live, MAX_U64, s'.db, s'.live, MAX_U64, key);
    }
  }

  lemma CommitMatches(s: Sys, a: Store, t: u64)
    requires Inv(s) && Matches(s, a) && t in s.live
    ensures Matches(Next(s, Commit(t)), StoreNext(a, Commit(t)))
  {
    var s', a' := Next(s, Commit(t)), StoreNext(a, Commit(t));
    forall key: Bytes ensures Find(a'.committed, key) == Lookup(s'.db, key, s'.live, MAX_U64) {
      CommitApplies(s, a, t, key);
    }
    forall u, key: Bytes | u in a'.txns ensures TxnMatches(s', u, a'.txns[u], key) {
      assert TxnMatches(s, u, a.txns[u], key);
      assert TxnMatches(s, t, a.txns[t], key);
      OtherAtCommit(s, t, u, a.txns[u], key);
    }
  }

  /** To the others, what was committed is written out of their sight. */
  lemma OtherAtCommit(s: Sys, t: u64, u: u64, txn: Txn, key: Bytes)
    requires Inv(s) && t in s.live && u in s.live && u != t && TxnMatches(s, u, txn, key)
    ensures var s' := Next(s, Commit(t));
      && u in s'.begun
      && Find(txn.snapshot, key) == Lookup(s'.db, key, s'.begun[u] + {u}, u)
      && (Version(key, u) in s'.db <==> Version(key, u) in s.db)
      && (Version(key, u) in s.db ==> s'.db[Version(key, u)] == s.db[Version(key, u)])
      && (FinishedUnseen(s', u, key) <==> FinishedUnseen(s, u, key) || Version(key, t) in s.db)
  {
    var s' := Next(s, Commit(t));
    SnapshotStays(s, Commit(t), u, key);
    assert t < u ==> t in s.begun[u];
    assert !Visible(u, s.begun[u], t);
    assert forall v: u64 :: Version(key, v) in s'.db <==> Version(key, v) in s.db;
    if Version(key, t) in s.db { assert Version(key, t) in s'.db && t !in s'.live; }
  }

  lemma RollbackMatches(s: Sys, a: Store, t: u64)
    requires Inv(s) && Matches(s, a) && t in s.live
    ensures Matches(Next(s, Rollback(t)), StoreNext(a, Rollback(t)))
  {
    var s', a' := Next(s, Rollback(t)), StoreNext(a, Rollback(t));
    forall key: Bytes ensures Find(a'.committed, key) == Lookup(s'.db, key, s'.live, MAX_U64) {
      CommittedStays(s, Rollback(t), key);
      assert Find(a.committed, key) == Lookup(s.db, key, s.live, MAX_U64);
    }
    forall u, key: Bytes | u in a'.txns ensures TxnMatches(s', u, a'.txns[u], key) {
      assert TxnMatches(s, u, a.txns[u], key);
      SnapshotStays(s, Rollback(t), u, key);
      RollbackErases(s, t, Version(key, u));
      assert FinishedUnseen(s', u, key) <==> FinishedUnseen(s, u, key) by {
        forall v: u64 ensures v != t ==> (Version(key, v) in s'.db <==> Version(key, v) in s.db) {
          RollbackErases(s, t, Version(key, v));
        }
        RollbackErases(s, t, Version(key, t));
      }
    }
  }

  lemma StepMatches(s: Sys, a: Store, step: Step)
    requires Inv(s) && Matches(s, a) && Enabled(s, step)
    ensures StoreEnabled(a, step) && Matches(Next(s, step), StoreNext(a, step))
  {
    match step {
      case Begin => BeginMatches(s, a);
      case Write(_, _, _) => WriteMatches(s, a, step);
      case Commit(t) => CommitMatches(s, a, t);
      case Rollback(t) => RollbackMatches(s, a, t);
      case _ =>
    }
  }

  lemma {:induction false} RunMatches(s: Sys, a: Store, steps: seq<Step>)
    requires Inv(s) && Matches(s, a)
    ensures Legal(s, steps) <==> StoreLegal(a, steps)
    ensures Legal(s, steps) ==> Matches(Final(s, steps), StoreFinal(a, steps))
    ensures Legal(s, steps) ==> Outputs(s, steps) == StoreOutputs(a, steps)
    decreases steps
  {
    if steps != [] {
      var step := steps[0];
      assert StoreEnabled(a, step) <==> Enabled(s, step);
      if Enabled(s, step) {
        SameOutput(s, a, step);
        StepMatches(s, a, step);
        StepKeeps(s, step);
        RunMatches(Next(s, step), StoreNext(a, step), steps[1..]);
      }
    }
  }

  /** The transaction layer and the snapshot-isolation store allow the same runs, and every run gets
      the same answers from both, step for step. */
  lemma RefinesSnapshotIsolation(steps: seq<Step>)
    ensures Legal(INIT, steps) <==> StoreLegal(EMPTY, steps)
    ensures Legal(INIT, steps) ==> Outputs(INIT, steps) == StoreOutputs(EMPTY, steps)
  {
    forall key: Bytes ensures Find(EMPTY.committed, key) == Lookup(INIT.db, key, INIT.live, MAX_U64) {
      LookupCases(INIT.db, key, INIT.live, MAX_U64);
    }
    assert Matches(INIT, EMPTY);
    RunMatches(INIT, EMPTY, steps);
  }
}
