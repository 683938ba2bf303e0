/** What rows a table has after a run, told by the operations alone. */
module RowHistory {
  import opened Ast
  import opened ByteOrder
  import opened Joins
  import opened Tables

  // ---------------------------------------------------------------- what is checked

  /** A row is admitted exactly when each of its values is NULL in a nullable column or has the column's type. */
  lemma AdmittedExactly(t: Schema, row: Row)
    requires |t.columns| <= |row|
    ensures Admitted(t, row) <==> forall i :: 0 <= i < |t.columns| ==>
      match row[i]
      case Null => t.columns[i].nullable
      case Boolean(_) => t.columns[i].dataType == BooleanType
      case Integer(_) => t.columns[i].dataType == IntegerType
      case Float(_) => t.columns[i].dataType == FloatType
      case String(_) => t.columns[i].dataType == StringType
  {
  }

  /** A table is valid exactly when it has one primary key, which is not nullable, and every default is NULL or a
      value of its column's type. */
  lemma ValidatedExactly(t: Schema)
    ensures Validated(t) <==>
      && (exists k :: 0 <= k < |t.columns| && t.columns[k].primaryKey && !t.columns[k].nullable
            && forall i :: 0 <= i < |t.columns| && t.columns[i].primaryKey ==> i == k)
      && (forall i :: 0 <= i < |t.columns| ==>
            match t.columns[i].default
            case Some(Boolean(_)) => t.columns[i].dataType == BooleanType
            case Some(Integer(_)) => t.columns[i].dataType == IntegerType
            case Some(Float(_)) => t.columns[i].dataType == FloatType
            case Some(String(_)) => t.columns[i].dataType == StringType
            case _ => true)
  {
    if Validated(t) {
      var k :| 0 <= k < |t.columns| && t.columns[k].primaryKey;
      assert ValidColumn(t.columns[k]);
      forall i | 0 <= i < |t.columns| && t.columns[i].primaryKey ensures i == k {
        assert OneKey(t, |t.columns|);
      }
      assert forall i :: 0 <= i < |t.columns| ==> ValidColumn(t.columns[i]);
    }
  }

  /** Creating succeeds exactly on an admitted row with a new key. */
  lemma CreateSucceedsExactly(t: Schema, s: TableState, row: Row)
    requires Usable(t) && |t.columns| <= |row|
    ensures CreateNext(t, s, row).ok <==> Admitted(t, row) && row[KeyOf(t)] !in s.rows
    ensures !CreateNext(t, s, row).ok ==> CreateNext(t, s, row).state == s
  {
  }

  // ---------------------------------------------------------------- the rows after a run

  /** The operation stores this row under this id, where these ids are taken: an update in place does without a check,
      a creation or an update of the key needs an admitted row and a key that is not taken. */
  ghost predicate Puts(t: Schema, taken: set<Value>, op: RowOp, id: Value, row: Row)
    requires Usable(t)
  {
    match op
    case Create(r) => r == row && |t.columns| <= |row| && row[KeyOf(t)] == id && Admitted(t, row) && id !in taken
    case Update(k, r) =>
      r == row && |t.columns| <= |row| && row[KeyOf(t)] == id && (k == id || (Admitted(t, row) && id !in taken))
    case _ => false
  }

  /** One operation: the row it puts there, none if it takes it away, otherwise the row that was there. */
  lemma OpRows(t: Schema, s: TableState, op: RowOp, id: Value)
    requires Usable(t) && Called(t, s, op)
    ensures var rows, rows' := s.rows, OpNext(t, s, op).state.rows;
      && (forall row :: Puts(t, rows.Keys, op, id, row) ==> id in rows' && rows'[id] == row)
      && (TakesAway(t, op, id) ==> id !in rows')
      && ((forall row :: !Puts(t, rows.Keys, op, id, row)) && !TakesAway(t, op, id) ==>
            (id in rows' <==> id in rows) && (id in rows ==> rows'[id] == rows[id]))
  {
    match op {
      case Create(row) =>
        CreateSucceedsExactly(t, s, row);
        assert Puts(t, s.rows.Keys, op, id, row) <==> row[KeyOf(t)] == id && CreateNext(t, s, row).ok;
      case Update(k, row) =>
        assert k != id || row[KeyOf(t)] == id || TakesAway(t, op, id);
        assert row[KeyOf(t)] == id ==> (Puts(t, s.rows.Keys, op, id, row) <==> UpdateNext(t, s, k, row).ok);
      case _ =>
    }
  }

  /** The n-th operation puts this row under this id. */
  ghost predicate PutsAt(t: Schema, ops: seq<RowOp>, n: nat, id: Value, row: Row) {
    && Usable(t) && n < |ops| && After(t, ops[..n]).Some?
    && Puts(t, After(t, ops[..n]).value.rows.Keys, ops[n], id, row)
  }

  /** The n-th operation puts a row under this id or takes it away. */
  ghost predicate Concerns(t: Schema, ops: seq<RowOp>, n: nat, id: Value) {
    Usable(t) && n < |ops| && (TakesAway(t, ops[n], id) || exists row :: PutsAt(t, ops, n, id, row))
  }

  /** The n-th operation put this row under this id, and none since has concerned that. */
  ghost predicate PutLast(t: Schema, ops: seq<RowOp>, n: nat, id: Value, row: Row) {
    PutsAt(t, ops, n, id, row) && forall k: nat :: n < k < |ops| ==> !Concerns(t, ops, k, id)
  }

  /** After any run, the row under an id is the one that was put there last, and there is none if it was taken away
      since or never put. */
  lemma {:induction false} RowIsPutLast(t: Schema, ops: seq<RowOp>, id: Value, row: Row)
    requires Usable(t) && After(t, ops).Some?
    ensures Stored(After(t, ops).value, id, row) <==> exists n: nat :: PutLast(t, ops, n, id, row)
    decreases |ops|
  {
    if ops != [] {
      var front, last := ops[..|ops| - 1], |ops| - 1;
      RowIsPutLast(t, front, id, row);
      OneMoreOp(t, ops, id, row);
      forall n: nat | n < last
        ensures PutLast(t, ops, n, id, row) <==> PutLast(t, front, n, id, row) && !Concerns(t, ops, last, id)
      {
        EarlierPut(t, ops, n, id, row);
      }
      assert PutLast(t, ops, last, id, row) <==> PutsAt(t, ops, last, id, row);
      assert Concerns(t, ops, last, id) || !PutsAt(t, ops, last, id, row);
    }
  }

  ghost predicate Stored(s: TableState, id: Value, row: Row) {
    id in s.rows && s.rows[id] == row
  }

  lemma OneMoreOp(t: Schema, ops: seq<RowOp>, id: Value, row: Row)
    requires Usable(t) && ops != [] && After(t, ops).Some?
    ensures var last, front := |ops| - 1, After(t, ops[..|ops| - 1]);
      front.Some? && (Stored(After(t, ops).value, id, row)
        <==> PutsAt(t, ops, last, id, row) || (!Concerns(t, ops, last, id) && Stored(front.value, id, row)))
  {
    var last, s := |ops| - 1, After(t, ops[..|ops| - 1]).value;
    OpRows(t, s, ops[last], id);
    forall other ensures PutsAt(t, ops, last, id, other) <==> Puts(t, s.rows.Keys, ops[last], id, other) {}
    if TakesAway(t, ops[last], id) { assert !PutsAt(t, ops, last, id, row); }
  }

  lemma EarlierPut(t: Schema, ops: seq<RowOp>, n: nat, id: Value, row: Row)
    requires n < |ops| - 1
    ensures PutLast(t, ops, n, id, row)
       <==> PutLast(t, ops[..|ops| - 1], n, id, row) && !Concerns(t, ops, |ops| - 1, id)
  {
    var front, last := ops[..|ops| - 1], |ops| - 1;
    forall k: nat, other | k < last ensures PutsAt(t, ops, k, id, other) <==> PutsAt(t, front, k, id, other) {
      assert front[..k] == ops[..k];
    }
    forall k: nat | k < last ensures Concerns(t, ops, k, id) <==> Concerns(t, front, k, id) {}
  }
}
