/** Every interleaving of transaction steps, and what all of them keep. */
module Runs {
  import opened ByteOrder
  import opened MvccKeys
  import opened MvccState

  /** One atomic operation: each holds the engine lock for its whole body. A write of `None` is a delete. */
  datatype Step =
    | Begin
    | Get(t: u64, key: Bytes)
    | Scan(t: u64, prefix: Bytes)
    | Write(t: u64, key: Bytes, value: Option<Bytes>)
    | Commit(t: u64)
    | Rollback(t: u64)

  datatype Output =
    | Began(version: u64)
    | Found(value: Option<Bytes>)
    | Rows(rows: seq<(Bytes, Bytes)>)
    | Written
    | WriteConflict
    | Finished

  /** The shared database, the active set every transaction saw when it began, and the unfinished ones. */
  datatype Sys = Sys(db: Db, begun: map<u64, set<u64>>, live: set<u64>)

  const INIT := Sys(map[], map[], {})

  ghost predicate Enabled(s: Sys, step: Step) {
    if step.Begin? then NextOf(s.db) < MAX_U64 else step.t in s.live && step.t in s.begun
  }

  /** What a step of a running transaction does to the database, given its active set. */
  ghost function NextOn(db: Db, step: Step, active: set<u64>): Db
    requires !step.Begin?
  {
    match step
    case Get(_, _) => db
    case Scan(_, _) => db
    case Write(t, key, value) => if NewestInvisible(db, key, t, active) then db else WriteDb(db, t, key, value)
    case Commit(t) => CommitDb(db, t)
    case Rollback(t) => RollbackDb(db, t)
  }

  ghost function OutOn(db: Db, step: Step, active: set<u64>): Output
    requires !step.Begin?
  {
    match step
    case Get(t, key) => Found(Lookup(db, key, active, t))
    case Scan(t, prefix) => Rows(RowsOf(ScanView(db, prefix, active, t)))
    case Write(t, key, _) => if NewestInvisible(db, key, t, active) then WriteConflict else Written
    case Commit(_) => Finished
    case Rollback(_) => Finished
  }

  ghost function Next(s: Sys, step: Step): Sys
    requires Enabled(s, step)
  {
    if step.Begin? then
      var n := NextOf(s.db);
      Sys(BeginDb(s.db), s.begun[n := ActiveOf(s.db)], s.live + {n})
    else
      Sys(NextOn(s.db, step, s.begun[step.t]), s.begun,
          if step.Commit? || step.Rollback? then s.live - {step.t} else s.live)
  }

  ghost function Out(s: Sys, step: Step): Output
    requires Enabled(s, step)
  {
    if step.Begin? then Began(NextOf(s.db)) else OutOn(s.db, step, s.begun[step.t])
  }

  ghost predicate Legal(s: Sys, steps: seq<Step>)
    decreases steps
  {
    steps != [] ==> Enabled(s, steps[0]) && Legal(Next(s, steps[0]), steps[1..])
  }

  ghost function Final(s: Sys, steps: seq<Step>): Sys
    requires Legal(s, steps)
    decreases steps
  {
    if steps == [] then s else Final(Next(s, steps[0]), steps[1..])
  }

  ghost function Outputs(s: Sys, steps: seq<Step>): seq<Output>
    requires Legal(s, steps)
    decreases steps
  {
    if steps == [] then [] else [Out(s, steps[0])] + Outputs(Next(s, steps[0]), steps[1..])
  }

  // ---------------------------------------------------------------- invariants

  ghost predicate Numbered(s: Sys) {
    && s.live <= s.begun.Keys
    && (NextVersion in s.db ==> s.db[NextVersion].Counter?)
    && 1 <= NextOf(s.db)
    && (forall t :: t in s.begun ==> 1 <= t < NextOf(s.db))
    && (forall t, u {:trigger u in s.begun[t]} :: t in s.begun && u in s.begun[t] ==> u in s.begun && u < t)
  }

  ghost predicate Recorded(s: Sys) {
    && (forall v: u64 :: TxnActive(v) in s.db <==> v in s.live)
    && (forall k: Bytes, v: u64 :: Version(k, v) in s.db ==> v in s.begun && s.db[Version(k, v)].Cell?)
    && (forall k: Bytes, v: u64 :: TxnWrite(v, k) in s.db <==> v in s.live && Version(k, v) in s.db)
  }

  /** Unfinished transactions are in the active set of every later one, and active sets nest. */
  ghost predicate Nested(s: Sys) {
    && (forall u, t :: u in s.live && t in s.begun && u < t ==> u in s.begun[t])
    && (forall t, u, l :: t in s.begun && u in s.begun[t] && l in s.begun && u < l < t ==> u in s.begun[l])
  }

  /** Writers of one key are never concurrent. */
  ghost predicate NoLostUpdate(s: Sys) {
    forall k: Bytes, v: u64, w: u64 ::
      Version(k, v) in s.db && Version(k, w) in s.db && w in s.begun && v < w ==> v !in s.begun[w]
  }

  ghost predicate Inv(s: Sys) {
    Numbered(s) && Recorded(s) && Nested(s) && NoLostUpdate(s)
  }

  lemma LastExists(db: Db, key: Bytes, v: u64) returns (w: u64)
    requires Version(key, v) in db
    ensures IsLast(db, key, w)
  {
    LookupCases(db, key, {}, MAX_U64);
    assert Shows(db, key, {}, MAX_U64, v);
    w :| IsNewest(db, key, {}, MAX_U64, w);
    forall x: u64 | Version(key, x) in db ensures x <= w { assert Shows(db, key, {}, MAX_U64, x); }
  }

  /** Looking at the newest version alone decides whether any version of the key is invisible to the writer. */
  lemma ConflictCheckExact(s: Sys, t: u64, key: Bytes)
    requires Inv(s) && t in s.live
    ensures NewestInvisible(s.db, key, t, s.begun[t])
       <==> exists v: u64 :: Version(key, v) in s.db && !Visible(t, s.begun[t], v)
  {
    if v: u64 :| Version(key, v) in s.db && !Visible(t, s.begun[t], v) {
      var w := LastExists(s.db, key, v);
      assert w in s.begun && v <= w;
      if s.begun[t] != {} {
        var a :| a in s.begun[t];
        assert a < t;
        assert w in s.begun[t] || t < w;
      }
    }
  }

  /** Only the newest version of a key can belong to an unfinished transaction. */
  lemma LiveVersionIsLast(s: Sys, t: u64, key: Bytes)
    requires Inv(s) && t in s.live && Version(key, t) in s.db
    ensures IsLast(s.db, key, t)
  {
  }

  // ---------------------------------------------------------------- preservation

  lemma BeginKeeps(s: Sys)
    requires Inv(s) && Enabled(s, Begin)
    ensures Inv(Next(s, Begin))
    ensures Next(s, Begin).begun[NextOf(s.db)] == s.live
  {
    var n, s' := NextOf(s.db), Next(s, Begin);
    assert ActiveOf(s.db) == s.live by {
      forall v ensures v in ActiveOf(s.db) <==> v in s.live {
        if v in s.live { assert TxnActive(v) in s.db && TxnActive(v).version == v; }
      }
    }
    assert n !in s.begun;
    assert forall k: Bytes, v: u64 :: Version(k, v) in s'.db <==> Version(k, v) in s.db;
    assert forall k: Bytes, v: u64 :: TxnWrite(v, k) in s'.db <==> TxnWrite(v, k) in s.db;
    assert Nested(s') by {
      forall t, u, l | t in s'.begun && u in s'.begun[t] && l in s'.begun && u < l < t ensures u in s'.begun[l] {
        if t == n { assert u in s.live && l in s.begun; }
      }
    }
  }

  lemma WriteKeeps(s: Sys, t: u64, key: Bytes, value: Option<Bytes>)
    requires Inv(s) && t in s.live
    ensures Inv(Next(s, Write(t, key, value)))
  {
    ConflictCheckExact(s, t, key);
    var s' := Next(s, Write(t, key, value));
    if s'.db != s.db {
      assert forall v: u64 :: Version(key, v) in s.db ==> Visible(t, s.begun[t], v);
      assert Recorded(s');
      assert NoLostUpdate(s') by {
        forall k: Bytes, v: u64, w: u64 |
          Version(k, v) in s'.db && Version(k, w) in s'.db && w in s.begun && v < w
          ensures v !in s.begun[w]
        {
          if k == key && (v == t || w == t) {
            assert v != t ==> Version(key, v) in s.db;
            assert w != t ==> Version(key, w) in s.db;
          } else {
            assert Version(k, v) in s.db && Version(k, w) in s.db;
          }
        }
      }
    }
  }

  lemma FinishKeeps(s: Sys, t: u64, step: Step)
    requires Inv(s) && t in s.live
    requires step == Commit(t) || step == Rollback(t)
    ensures Inv(Next(s, step))
  {
  }

  lemma StepKeeps(s: Sys, step: Step)
    requires Inv(s) && Enabled(s, step)
    ensures Inv(Next(s, step))
  {
    match step {
      case Begin => BeginKeeps(s);
      case Write(t, key, value) => WriteKeeps(s, t, key, value);
      case Commit(t) => FinishKeeps(s, t, step);
      case Rollback(t) => FinishKeeps(s, t, step);
      case _ =>
    }
  }

  lemma {:induction false} RunKeeps(s: Sys, steps: seq<Step>)
    requires Inv(s) && Legal(s, steps)
    ensures Inv(Final(s, steps))
    decreases steps
  {
    if steps != [] {
      StepKeeps(s, steps[0]);
      RunKeeps(Next(s, steps[0]), steps[1..]);
    }
  }

  /** In every reachable state the invariants hold: in particular no update is ever lost. */
  lemma ReachableInv(steps: seq<Step>)
    requires Legal(INIT, steps)
    ensures Inv(Final(INIT, steps))
  {
    RunKeeps(INIT, steps);
  }

  /** In every run, of two writers of one key the earlier one was not running when the later one began,
      and a version of an unfinished transaction is the newest one of its key. */
  lemma WritersNeverOverlap(steps: seq<Step>, key: Bytes, v: u64, w: u64)
    requires Legal(INIT, steps)
    requires var s := Final(INIT, steps); Version(key, v) in s.db && Version(key, w) in s.db && v < w
    ensures var s := Final(INIT, steps); w in s.begun && v !in s.begun[w] && v !in s.live
  {
    ReachableInv(steps);
    var s := Final(INIT, steps);
    if v in s.live { LiveVersionIsLast(s, v, key); }
  }

  /** In every run at most one unfinished transaction has a version of a key, and that is the newest one. */
  lemma AtMostOneLiveWriter(steps: seq<Step>, key: Bytes, t: u64, u: u64)
    requires Legal(INIT, steps)
    requires var s := Final(INIT, steps); t in s.live && Version(key, t) in s.db && Version(key, u) in s.db && u != t
    ensures var s := Final(INIT, steps); u < t && u !in s.live
  {
    ReachableInv(steps);
    var s := Final(INIT, steps);
    LiveVersionIsLast(s, t, key);
    if u in s.live { LiveVersionIsLast(s, u, key); }
  }

  /** In every run, a write is refused exactly when some stored version of the key is invisible to it. */
  lemma WriteRefusedExactly(steps: seq<Step>, t: u64, key: Bytes, value: Option<Bytes>)
    requires Legal(INIT, steps) && Enabled(Final(INIT, steps), Write(t, key, value))
    ensures var s := Final(INIT, steps);
      (Out(s, Write(t, key, value)) == WriteConflict) <==>
      (exists v: u64 :: Version(key, v) in s.db && !Visible(t, s.begun[t], v))
    ensures var s := Final(INIT, steps);
      Out(s, Write(t, key, value)) == WriteConflict ==> Next(s, Write(t, key, value)) == s
  {
    ReachableInv(steps);
    ConflictCheckExact(Final(INIT, steps), t, key);
  }

  // ---------------------------------------------------------------- isolation

  ghost predicate By(step: Step, t: u64) {
    !step.Begin? && step.t == t
  }

  /** A step of anyone else changes no read of a running transaction. */
  lemma OthersDoNotDisturb(s: Sys, step: Step, t: u64, key: Bytes)
    requires Inv(s) && Enabled(s, step) && t in s.live && !By(step, t)
    ensures t in Next(s, step).live && Next(s, step).begun[t] == s.begun[t]
    ensures Lookup(Next(s, step).db, key, s.begun[t], t) == Lookup(s.db, key, s.begun[t], t)
  {
    var s' := Next(s, step);
    if !step.Begin? && step.t < t { assert step.t in s.begun[t]; }
    forall v: u64 ensures Shows(s.db, key, s.begun[t], t, v) <==> Shows(s'.db, key, s.begun[t], t, v) {
      if !step.Begin? && v == step.t { assert !Visible(t, s.begun[t], v); }
    }
    forall v: u64 | Shows(s.db, key, s.begun[t], t, v)
      ensures Version(key, v) in s'.db && s.db[Version(key, v)] == s'.db[Version(key, v)]
    {
      assert Shows(s'.db, key, s.begun[t], t, v);
    }
    SameLookup(s.db, s.begun[t], t, s'.db, s.begun[t], t, key);
  }

  ghost predicate NoneBy(steps: seq<Step>, t: u64) {
    forall i :: 0 <= i < |steps| ==> !By(steps[i], t)
  }

  lemma {:induction false} RunDoesNotDisturb(s: Sys, steps: seq<Step>, t: u64, key: Bytes)
    requires Inv(s) && Legal(s, steps) && t in s.live && NoneBy(steps, t)
    ensures t in Final(s, steps).live && t in Final(s, steps).begun && Final(s, steps).begun[t] == s.begun[t]
    ensures Lookup(Final(s, steps).db, key, s.begun[t], t) == Lookup(s.db, key, s.begun[t], t)
    decreases steps
  {
    if steps != [] {
      assert !By(steps[0], t);
      OthersDoNotDisturb(s, steps[0], t, key);
      StepKeeps(s, steps[0]);
      RunDoesNotDisturb(Next(s, steps[0]), steps[1..], t, key);
    }
  }

  /** Repeatable and phantom-free reads: whatever the others do, gets and scans answer as before. */
  lemma RepeatableReads(before: seq<Step>, others: seq<Step>, t: u64, key: Bytes, prefix: Bytes)
    requires Legal(INIT, before)
    requires t in Final(INIT, before).live
    requires Legal(Final(INIT, before), others) && NoneBy(others, t)
    ensures var s, s' := Final(INIT, before), Final(Final(INIT, before), others);
      && Enabled(s, Get(t, key)) && Enabled(s', Get(t, key))
      && Out(s', Get(t, key)) == Out(s, Get(t, key))
      && Out(s', Scan(t, prefix)) == Out(s, Scan(t, prefix))
  {
    var s := Final(INIT, before);
    ReachableInv(before);
    RunDoesNotDisturb(s, others, t, key);
    var s' := Final(s, others);
    forall k: Bytes
      ensures k in ScanView(s.db, prefix, s.begun[t], t) <==> k in ScanView(s'.db, prefix, s.begun[t], t)
      ensures k in ScanView(s.db, prefix, s.begun[t], t) ==>
        ScanView(s.db, prefix, s.begun[t], t)[k] == ScanView(s'.db, prefix, s.begun[t], t)[k]
    {
      RunDoesNotDisturb(s, others, t, k);
      ScanAgreesWithGet(s.db, prefix, s.begun[t], t, k);
      ScanAgreesWithGet(s'.db, prefix, s.begun[t], t, k);
    }
    assert ScanView(s.db, prefix, s.begun[t], t) == ScanView(s'.db, prefix, s.begun[t], t);
  }

  // ---------------------------------------------------------------- rollback

  ghost predicate Mentions(k: MvccKey, t: u64) {
    !k.NextVersion? && k.version == t
  }

  /** Rollback takes away every entry of the transaction and touches nothing else. */
  lemma RollbackErases(s: Sys, t: u64, k: MvccKey)
    requires Inv(s) && t in s.live
    ensures var db' := Next(s, Rollback(t)).db;
      && (k in db' <==> k in s.db && !Mentions(k, t))
      && (k in db' ==> db'[k] == s.db[k])
  {
  }

  /** After a rollback everyone reads as if the transaction had written nothing. */
  lemma RollbackIsUnseen(s: Sys, t: u64, key: Bytes)
    requires Inv(s) && t in s.live
    ensures var s' := Next(s, Rollback(t));
      && (forall u :: u in s'.live ==> Lookup(s'.db, key, s.begun[u], u) == Lookup(s.db, key, s.begun[u], u))
      && Lookup(s'.db, key, s'.live, MAX_U64) == Lookup(s.db, key, s.live, MAX_U64)
  {
    var s' := Next(s, Rollback(t));
    forall u | u in s'.live
      ensures Lookup(s'.db, key, s.begun[u], u) == Lookup(s.db, key, s.begun[u], u)
    {
      OthersDoNotDisturb(s, Rollback(t), u, key);
    }
    forall v: u64 ensures Shows(s.db, key, s.live, MAX_U64, v) <==> Shows(s'.db, key, s'.live, MAX_U64, v) {
      RollbackErases(s, t, Version(key, v));
    }
    SameLookup(s.db, s.live, MAX_U64, s'.db, s'.live, MAX_U64, key);
  }
}
