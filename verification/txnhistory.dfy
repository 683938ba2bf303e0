/** What a transaction is answered, told by the steps before and their answers alone. */
module TxnHistory {
  import opened ByteOrder
  import opened MvccState
  import opened Runs
  import opened SnapshotStore

  // ---------------------------------------------------------------- what the steps so far amount to

  /** The value, or the deletion, that a transaction has last written under a key. */
  function LastWrite(steps: seq<Step>, outs: seq<Output>, t: u64, key: Bytes): Option<Option<Bytes>>
    requires |steps| == |outs|
  {
    if steps == [] then None else
      var n := |steps| - 1;
      if steps[n].Write? && steps[n].t == t && steps[n].key == key && outs[n].Written? then Some(steps[n].value)
      else LastWrite(steps[..n], outs[..n], t, key)
  }

  /** What the last commit of a transaction that had written the key has left there. */
  function Committed(steps: seq<Step>, outs: seq<Output>, key: Bytes): Option<Bytes>
    requires |steps| == |outs|
  {
    if steps == [] then None else
      var n := |steps| - 1;
      var written := if steps[n].Commit? then LastWrite(steps[..n], outs[..n], steps[n].t, key) else None;
      if written.Some? then written.value else Committed(steps[..n], outs[..n], key)
  }

  /** What was committed when a transaction began. */
  function AtBegin(steps: seq<Step>, outs: seq<Output>, t: u64, key: Bytes): Option<Bytes>
    requires |steps| == |outs|
  {
    if steps == [] then None else
      var n := |steps| - 1;
      if outs[n] == Began(t) then Committed(steps[..n], outs[..n], key) else AtBegin(steps[..n], outs[..n], t, key)
  }

  /** Another transaction that had written the key has committed since this one began. */
  predicate OvertakenAt(steps: seq<Step>, outs: seq<Output>, t: u64, key: Bytes)
    requires |steps| == |outs|
  {
    steps != [] &&
    var n := |steps| - 1;
    outs[n] != Began(t)
    && (OvertakenAt(steps[..n], outs[..n], t, key)
        || (steps[n].Commit? && LastWrite(steps[..n], outs[..n], steps[n].t, key).Some?))
  }

  /** The transaction has begun and is not finished. */
  predicate Running(steps: seq<Step>, outs: seq<Output>, t: u64)
    requires |steps| == |outs|
  {
    steps != [] &&
    var n := |steps| - 1;
    outs[n] == Began(t) || (Running(steps[..n], outs[..n], t) && steps[n] != Commit(t) && steps[n] != Rollback(t))
  }

  function Begun(steps: seq<Step>): nat {
    if steps == [] then 0 else Begun(steps[..|steps| - 1]) + (if steps[|steps| - 1].Begin? then 1 else 0)
  }

  /** A transaction reads what it has written itself, otherwise what was committed when it began. */
  function Seen(steps: seq<Step>, outs: seq<Output>, t: u64, key: Bytes): Option<Bytes>
    requires |steps| == |outs|
  {
    var own := LastWrite(steps, outs, t, key);
    if own.Some? then own.value else AtBegin(steps, outs, t, key)
  }

  /** The answer there should be: the next number; the value seen; all values seen under the prefix, by key; a conflict
      if an unfinished other transaction has written the key or one that had has committed since. */
  ghost predicate Expected(steps: seq<Step>, outs: seq<Output>, step: Step, out: Output)
    requires |steps| == |outs|
  {
    match step
    case Begin => Begun(steps) + 1 < MAX_U64 && out == Began(Begun(steps) + 1)
    case Get(t, key) => out == Found(Seen(steps, outs, t, key))
    case Scan(t, prefix) => out.Rows? && AreSeen(steps, outs, t, prefix, out.rows)
    case Write(t, key, _) =>
      out == if OvertakenAt(steps, outs, t, key) || OtherWriter(steps, outs, t, key) then WriteConflict else Written
    case _ => out == Finished
  }

  ghost predicate OtherWriter(steps: seq<Step>, outs: seq<Output>, t: u64, key: Bytes)
    requires |steps| == |outs|
  {
    exists u: u64 :: u != t && Running(steps, outs, u) && LastWrite(steps, outs, u, key).Some?
  }

  ghost predicate AreSeen(steps: seq<Step>, outs: seq<Output>, t: u64, prefix: Bytes, rows: seq<(Bytes, Bytes)>)
    requires |steps| == |outs|
  {
    && (forall i, j :: 0 <= i < j < |rows| ==> Less(rows[i].0, rows[j].0))
    && (forall key, value :: (key, value) in rows <==> prefix <= key && Seen(steps, outs, t, key) == Some(value))
  }

  /** The steps there may be: a new transaction while numbers last, and anything of a running one. */
  predicate Allowed(steps: seq<Step>, outs: seq<Output>, step: Step)
    requires |steps| == |outs|
  {
    if step.Begin? then Begun(steps) + 1 < MAX_U64 else Running(steps, outs, step.t)
  }

  // ---------------------------------------------------------------- the store agrees

  ghost predicate Describes(a: Store, steps: seq<Step>, outs: seq<Output>)
    requires |steps| == |outs|
  {
    && a.next == Begun(steps) + 1
    && (forall key :: Find(a.committed, key) == Committed(steps, outs, key))
    && (forall t: u64 :: t in a.txns <==> Running(steps, outs, t))
    && (forall t: u64 :: t in a.txns ==> DescribesTxn(a.txns[t], t, steps, outs))
    && (forall t: u64, key :: t >= a.next ==> LastWrite(steps, outs, t, key) == None)
    && (forall t: u64 :: t in a.txns ==> t < a.next)
  }

  ghost predicate DescribesTxn(txn: Txn, t: u64, steps: seq<Step>, outs: seq<Output>)
    requires |steps| == |outs|
  {
    && (forall key :: Find(txn.writes, key) == LastWrite(steps, outs, t, key))
    && (forall key :: Find(txn.snapshot, key) == AtBegin(steps, outs, t, key))
    && (forall key :: key in txn.stale <==> OvertakenAt(steps, outs, t, key))
  }

  /** What one more step changes. */
  lemma HistoryNext(steps: seq<Step>, outs: seq<Output>, step: Step, out: Output)
    requires |steps| == |outs|
    ensures Begun(steps + [step]) == Begun(steps) + (if step.Begin? then 1 else 0)
    ensures var steps', outs' := steps + [step], outs + [out];
      && (forall t: u64, key :: LastWrite(steps', outs', t, key) ==
            if step == Write(t, key, WrittenBy(step)) && out.Written? then Some(WrittenBy(step))
            else LastWrite(steps, outs, t, key))
      && (forall key :: Committed(steps', outs', key) ==
            if step.Commit? && LastWrite(steps, outs, step.t, key).Some? then LastWrite(steps, outs, step.t, key).value
            else Committed(steps, outs, key))
      && (forall t: u64, key :: AtBegin(steps', outs', t, key) ==
            if out == Began(t) then Committed(steps, outs, key) else AtBegin(steps, outs, t, key))
      && (forall t: u64, key :: OvertakenAt(steps', outs', t, key) <==>
            out != Began(t) && (OvertakenAt(steps, outs, t, key)
                                || (step.Commit? && LastWrite(steps, outs, step.t, key).Some?)))
      && (forall t: u64 :: Running(steps', outs', t) <==>
            out == Began(t) || (Running(steps, outs, t) && step != Commit(t) && step != Rollback(t)))
  {
    assert (steps + [step])[..|steps|] == steps && (outs + [out])[..|outs|] == outs;
  }

  function WrittenBy(step: Step): Option<Bytes> {
    if step.Write? then step.value else None
  }

  lemma BeginDescribed(a: Store, steps: seq<Step>, outs: seq<Output>)
    requires |steps| == |outs| && Describes(a, steps, outs) && StoreEnabled(a, Begin)
    ensures Describes(StoreNext(a, Begin), steps + [Begin], outs + [StoreOut(a, Begin)])
  {
    HistoryNext(steps, outs, Begin, StoreOut(a, Begin));
    var steps', outs' := steps + [Begin], outs + [StoreOut(a, Begin)];
    assert DescribesTxn(Txn(a.committed, map[], {}), a.next, steps', outs') by {
      forall key ensures !OvertakenAt(steps', outs', a.next, key) {}
    }
    forall t: u64 | t in a.txns ensures DescribesTxn(a.txns[t], t, steps', outs') {
      assert DescribesTxn(a.txns[t], t, steps, outs);
    }
  }

  lemma WriteDescribed(a: Store, steps: seq<Step>, outs: seq<Output>, step: Step)
    requires |steps| == |outs| && Describes(a, steps, outs) && StoreEnabled(a, step) && step.Write?
    ensures Describes(StoreNext(a, step), steps + [step], outs + [StoreOut(a, step)])
  {
    HistoryNext(steps, outs, step, StoreOut(a, step));
    forall t: u64 | t in a.txns
      ensures DescribesTxn(StoreNext(a, step).txns[t], t, steps + [step], outs + [StoreOut(a, step)])
    {
      assert DescribesTxn(a.txns[t], t, steps, outs);
    }
  }

  lemma CommitDescribed(a: Store, steps: seq<Step>, outs: seq<Output>, step: Step)
    requires |steps| == |outs| && Describes(a, steps, outs) && StoreEnabled(a, step) && step.Commit?
    ensures Describes(StoreNext(a, step), steps + [step], outs + [StoreOut(a, step)])
  {
    HistoryNext(steps, outs, step, StoreOut(a, step));
    var a' := StoreNext(a, step);
    assert DescribesTxn(a.txns[step.t], step.t, steps, outs);
    forall key ensures Find(a'.committed, key) == Committed(steps + [step], outs + [StoreOut(a, step)], key) {
      assert Find(a.txns[step.t].writes, key) == LastWrite(steps, outs, step.t, key);
      assert Find(a.committed, key) == Committed(steps, outs, key);
    }
    forall t: u64 | t in a'.txns ensures DescribesTxn(a'.txns[t], t, steps + [step], outs + [StoreOut(a, step)]) {
      assert DescribesTxn(a.txns[t], t, steps, outs);
      forall key ensures key in a'.txns[t].stale <==> OvertakenAt(steps + [step], outs + [StoreOut(a, step)], t, key) {
        assert Find(a.txns[step.t].writes, key) == LastWrite(steps, outs, step.t, key);
      }
    }
  }

  lemma OtherDescribed(a: Store, steps: seq<Step>, outs: seq<Output>, step: Step)
    requires |steps| == |outs| && Describes(a, steps, outs) && StoreEnabled(a, step)
    requires step.Get? || step.Scan? || step.Rollback?
    ensures Describes(StoreNext(a, step), steps + [step], outs + [StoreOut(a, step)])
  {
    HistoryNext(steps, outs, step, StoreOut(a, step));
    forall t: u64 | t in StoreNext(a, step).txns
      ensures DescribesTxn(StoreNext(a, step).txns[t], t, steps + [step], outs + [StoreOut(a, step)])
    {
      assert DescribesTxn(a.txns[t], t, steps, outs);
    }
  }

  lemma StepDescribed(a: Store, steps: seq<Step>, outs: seq<Output>, step: Step)
    requires |steps| == |outs| && Describes(a, steps, outs) && StoreEnabled(a, step)
    ensures Describes(StoreNext(a, step), steps + [step], outs + [StoreOut(a, step)])
  {
    match step {
      case Begin => BeginDescribed(a, steps, outs);
      case Write(_, _, _) => WriteDescribed(a, steps, outs, step);
      case Commit(_) => CommitDescribed(a, steps, outs, step);
      case _ => OtherDescribed(a, steps, outs, step);
    }
  }

  lemma StepExpected(a: Store, steps: seq<Step>, outs: seq<Output>, step: Step)
    requires |steps| == |outs| && Describes(a, steps, outs)
    ensures StoreEnabled(a, step) <==> Allowed(steps, outs, step)
    ensures StoreEnabled(a, step) ==> Expected(steps, outs, step, StoreOut(a, step))
  {
    if StoreEnabled(a, step) && !step.Begin? {
      assert DescribesTxn(a.txns[step.t], step.t, steps, outs);
      forall key ensures Read(a.txns[step.t], key) == Seen(steps, outs, step.t, key) {
        assert Find(a.txns[step.t].writes, key) == LastWrite(steps, outs, step.t, key);
      }
      if step.Scan? { RowsAreSeen(a, steps, outs, step.t, step.prefix); }
      if step.Write? { ConflictIs(a, steps, outs, step.t, step.key); }
    }
  }

  lemma RowsAreSeen(a: Store, steps: seq<Step>, outs: seq<Output>, t: u64, prefix: Bytes)
    requires |steps| == |outs| && t in a.txns
    requires forall key :: Read(a.txns[t], key) == Seen(steps, outs, t, key)
    ensures AreSeen(steps, outs, t, prefix, RowsOf(ReadAll(a.txns[t], prefix)))
  {
    var all := ReadAll(a.txns[t], prefix);
    RowsAreSorted(all);
    forall key ensures Find(all, key) == if prefix <= key then Seen(steps, outs, t, key) else None {
      assert Read(a.txns[t], key) == Seen(steps, outs, t, key);
    }
  }

  lemma ConflictIs(a: Store, steps: seq<Step>, outs: seq<Output>, t: u64, key: Bytes)
    requires |steps| == |outs| && Describes(a, steps, outs) && t in a.txns
    ensures Conflicts(a, t, key) <==> OvertakenAt(steps, outs, t, key) || OtherWriter(steps, outs, t, key)
  {
    assert DescribesTxn(a.txns[t], t, steps, outs);
    forall u: u64 | u in a.txns ensures key in a.txns[u].writes <==> LastWrite(steps, outs, u, key).Some? {
      assert DescribesTxn(a.txns[u], u, steps, outs);
      assert Find(a.txns[u].writes, key) == LastWrite(steps, outs, u, key);
    }
  }

  // ---------------------------------------------------------------- whole runs

  /** Every answer is the one that the steps and answers before it make one expect, and every step is allowed. */
  ghost predicate AllExpected(steps: seq<Step>, outs: seq<Output>) {
    |steps| == |outs| && forall n :: 0 <= n < |steps| ==> ExpectedAt(steps, outs, n)
  }

  ghost predicate ExpectedAt(steps: seq<Step>, outs: seq<Output>, n: nat)
    requires n < |steps| == |outs|
  {
    Allowed(steps[..n], outs[..n], steps[n]) && Expected(steps[..n], outs[..n], steps[n], outs[n])
  }

  /** A run of the transaction layer is legal and gives these answers exactly when that is so. */
  lemma AnswersExactly(steps: seq<Step>, outs: seq<Output>)
    ensures Legal(INIT, steps) && Outputs(INIT, steps) == outs <==> AllExpected(steps, outs)
  {
    RefinesSnapshotIsolation(steps);
    assert Describes(EMPTY, [], []);
    StoreRunExactly(EMPTY, [], [], steps, outs);
    assert [] + steps == steps && [] + outs == outs;
    assert ExpectedFrom([], [], steps, outs) <==> AllExpected(steps, outs);
  }

  /** The same from some point of a run on. */
  ghost predicate ExpectedFrom(done: seq<Step>, got: seq<Output>, steps: seq<Step>, outs: seq<Output>)
    requires |done| == |got|
  {
    |steps| == |outs| && forall n :: |done| <= n < |done + steps| ==> ExpectedAt(done + steps, got + outs, n)
  }

  lemma {:induction false} StoreRunExactly(a: Store, done: seq<Step>, got: seq<Output>, steps: seq<Step>,
      outs: seq<Output>)
    requires |done| == |got| && Describes(a, done, got)
    ensures StoreLegal(a, steps) && StoreOutputs(a, steps) == outs <==> ExpectedFrom(done, got, steps, outs)
    decreases steps
  {
    if steps != [] && outs != [] {
      ExpectedFirst(done, got, steps, outs);
      StepExpected(a, done, got, steps[0]);
      if StoreEnabled(a, steps[0]) {
        OneAnswer(done, got, steps[0], outs[0], StoreOut(a, steps[0]));
        if outs[0] == StoreOut(a, steps[0]) {
          StepDescribed(a, done, got, steps[0]);
          StoreRunExactly(StoreNext(a, steps[0]), done + [steps[0]], got + [outs[0]], steps[1..], outs[1..]);
          assert outs == [outs[0]] + outs[1..];
        }
      }
    }
  }

  lemma ExpectedFirst(done: seq<Step>, got: seq<Output>, steps: seq<Step>, outs: seq<Output>)
    requires |done| == |got| && steps != [] && outs != []
    ensures ExpectedFrom(done, got, steps, outs) <==>
      && Allowed(done, got, steps[0]) && Expected(done, got, steps[0], outs[0])
      && ExpectedFrom(done + [steps[0]], got + [outs[0]], steps[1..], outs[1..])
  {
    var all, alls := done + steps, got + outs;
    assert all[..|done|] == done && alls[..|got|] == got;
    assert done + [steps[0]] + steps[1..] == all && got + [outs[0]] + outs[1..] == alls;
    if |steps| == |outs| {
      assert ExpectedAt(all, alls, |done|) <==>
        Allowed(done, got, steps[0]) && Expected(done, got, steps[0], outs[0]);
    }
  }

  /** There is one answer to expect. */
  lemma OneAnswer(steps: seq<Step>, outs: seq<Output>, step: Step, out: Output, out': Output)
    requires |steps| == |outs| && Expected(steps, outs, step, out')
    ensures Expected(steps, outs, step, out) <==> out == out'
  {
    if step.Scan? && out.Rows? && Expected(steps, outs, step, out) {
      forall row ensures row in out.rows <==> row in out'.rows { assert row == (row.0, row.1); }
      SameRows(out.rows, out'.rows);
    }
  }

  /** Rows in the order of their keys are determined by which they are. */
  lemma {:induction false} SameRows(rows: seq<(Bytes, Bytes)>, rows': seq<(Bytes, Bytes)>)
    requires forall i, j :: 0 <= i < j < |rows| ==> Less(rows[i].0, rows[j].0)
    requires forall i, j :: 0 <= i < j < |rows'| ==> Less(rows'[i].0, rows'[j].0)
    requires forall row :: row in rows <==> row in rows'
    ensures rows == rows'
  {
    if rows == [] {
      if rows' != [] { HasFirst(rows'); }
    } else {
      assert rows[0] in rows';
      FirstIsLeast(rows, rows');
      FirstIsLeast(rows', rows);
      if rows[0] != rows'[0] { LessAsymmetric(rows[0].0, rows'[0].0); }
      forall row ensures row in rows[1..] <==> row in rows'[1..] {
        RestOf(rows, row);
        RestOf(rows', row);
      }
      SameRows(rows[1..], rows'[1..]);
      assert rows == [rows[0]] + rows[1..] && rows' == [rows'[0]] + rows'[1..];
    }
  }

  lemma HasFirst(rows: seq<(Bytes, Bytes)>)
    requires rows != []
    ensures exists row :: row in rows
  {
    assert rows[0] in rows;
  }

  lemma RestOf(rows: seq<(Bytes, Bytes)>, row: (Bytes, Bytes))
    requires rows != [] && forall i, j :: 0 <= i < j < |rows| ==> Less(rows[i].0, rows[j].0)
    ensures row in rows[1..] <==> row in rows && row != rows[0]
  {
    if row in rows[1..] {
      var i :| 0 < i < |rows| && rows[i] == row;
      LessIrreflexive(row.0);
    }
  }

  lemma FirstIsLeast(rows: seq<(Bytes, Bytes)>, rows': seq<(Bytes, Bytes)>)
    requires rows != [] && rows' != [] && rows[0] in rows'
    requires forall i, j :: 0 <= i < j < |rows'| ==> Less(rows'[i].0, rows'[j].0)
    ensures rows[0] == rows'[0] || Less(rows'[0].0, rows[0].0)
  {
  }
}
