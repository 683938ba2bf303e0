/** One table as rows under their primary keys and an index, and what creating, updating and deleting rows do to it. */
module Tables {
  import opened Ast
  import opened ByteOrder
  import opened Joins

  datatype DataType = BooleanType | IntegerType | FloatType | StringType

  datatype Column = Column(name: Text, dataType: DataType, nullable: bool, default: Option<Value>, primaryKey: bool,
                           indexed: bool)

  datatype Schema = Schema(name: Text, columns: seq<Column>)

  function TypeOf(v: Value): Option<DataType> {
    match v
    case Null => None
    case Boolean(_) => Some(BooleanType)
    case Integer(_) => Some(IntegerType)
    case Float(_) => Some(FloatType)
    case String(_) => Some(StringType)
  }

  ghost predicate DistinctNames(cols: seq<Column>) {
    forall i, j :: 0 <= i < j < |cols| ==> cols[i].name != cols[j].name
  }

  /** What validation checks: one primary key, which is not nullable, and defaults of the column's type or NULL. */
  ghost predicate Validated(t: Schema) {
    && (exists i :: 0 <= i < |t.columns| && t.columns[i].primaryKey)
    && OneKey(t, |t.columns|)
    && (forall i :: 0 <= i < |t.columns| ==> ValidColumn(t.columns[i]))
  }

  ghost predicate OneKey(t: Schema, n: nat)
    requires n <= |t.columns|
  {
    forall i, j :: 0 <= i < j < n ==> !(t.columns[i].primaryKey && t.columns[j].primaryKey)
  }

  predicate ValidColumn(c: Column) {
    !(c.primaryKey && c.nullable) && (c.default.None? || TypeOf(c.default.value) in {None, Some(c.dataType)})
  }

  method Validate(t: Schema) returns (ok: bool)
    ensures ok <==> Validated(t)
  {
    if |t.columns| == 0 { return false; }
    var keys := 0;
    for i := 0 to |t.columns|
      invariant keys >= 0 && (keys == 0 <==> forall j :: 0 <= j < i ==> !t.columns[j].primaryKey)
      invariant keys <= 1 <==> OneKey(t, i)
    {
      if t.columns[i].primaryKey {
        assert OneKey(t, i + 1) <==> OneKey(t, i) && forall j :: 0 <= j < i ==> !t.columns[j].primaryKey;
        keys := keys + 1;
      } else {
        assert OneKey(t, i + 1) <==> OneKey(t, i);
      }
    }
    if keys != 1 { return false; }
    for i := 0 to |t.columns|
      invariant forall j :: 0 <= j < i ==> ValidColumn(t.columns[j])
    {
      if t.columns[i].primaryKey && t.columns[i].nullable { return false; }
      if t.columns[i].default.Some? {
        var dataType := TypeOf(t.columns[i].default.value);
        if dataType.Some? && dataType.value != t.columns[i].dataType { return false; }
      }
    }
    return true;
  }

  /** What validation checks, what CREATE TABLE arranges, and column names that differ. */
  ghost predicate Usable(t: Schema) {
    && Validated(t)
    && (forall i :: 0 <= i < |t.columns| && t.columns[i].primaryKey ==> !t.columns[i].indexed)
    && DistinctNames(t.columns)
  }

  /** The position of the primary key. */
  function KeyPosition(cols: seq<Column>): (p: nat)
    requires exists i :: 0 <= i < |cols| && cols[i].primaryKey
    ensures p < |cols| && cols[p].primaryKey
  {
    if cols[0].primaryKey then 0 else
      assert exists i :: 0 <= i < |cols[1..]| && cols[1..][i].primaryKey by {
        var i :| 0 <= i < |cols| && cols[i].primaryKey;
        assert cols[1..][i - 1].primaryKey;
      }
      KeyPosition(cols[1..]) + 1
  }

  ghost function KeyOf(t: Schema): (p: nat)
    requires Usable(t)
    ensures p < |t.columns| && t.columns[p].primaryKey && !t.columns[p].indexed
  {
    KeyPosition(t.columns)
  }

  function Names(t: Schema): (names: Columns)
    ensures |names| == |t.columns|
    ensures forall i :: 0 <= i < |names| ==> names[i] == t.columns[i].name
  {
    seq(|t.columns|, i requires 0 <= i < |t.columns| => t.columns[i].name)
  }

  // ---------------------------------------------------------------- the state of a table

  type Index = map<(Text, Value), set<Value>>

  datatype TableState = TableState(rows: map<Value, Row>, index: Index)

  const NEW_TABLE := TableState(map[], map[])

  function IndexAt(index: Index, column: Text, v: Value): set<Value> {
    if (column, v) in index then index[(column, v)] else {}
  }

  /** Empty sets are deleted, not stored. */
  function PutIndex(index: Index, column: Text, v: Value, ids: set<Value>): Index {
    if ids == {} then index - {(column, v)} else index[(column, v) := ids]
  }

  /** The index after a new row has been entered under its first n columns. */
  function EnterIndex(cols: seq<Column>, n: nat, index: Index, row: Row, id: Value): Index
    requires n <= |cols| <= |row|
  {
    if n == 0 then index else
      var before, c, v := EnterIndex(cols, n - 1, index, row, id), cols[n - 1], row[n - 1];
      if c.indexed then PutIndex(before, c.name, v, IndexAt(before, c.name, v) + {id}) else before
  }

  /** The index after a row has been moved from its old to its new values in its first n columns. */
  function MoveIndex(cols: seq<Column>, n: nat, index: Index, oldRow: Row, row: Row, id: Value): Index
    requires n <= |cols| <= |row| && |cols| <= |oldRow|
  {
    if n == 0 then index else
      MoveEntry(cols[n - 1], MoveIndex(cols, n - 1, index, oldRow, row, id), oldRow[n - 1], row[n - 1], id)
  }

  function MoveEntry(c: Column, index: Index, from: Value, to: Value, id: Value): Index {
    if !c.indexed || from == to then index else
      var without := PutIndex(index, c.name, from, IndexAt(index, c.name, from) - {id});
      PutIndex(without, c.name, to, IndexAt(without, c.name, to) + {id})
  }

  // ---------------------------------------------------------------- row operations

  datatype Outcome = Outcome(ok: bool, state: TableState)

  predicate FitsColumn(c: Column, v: Value) {
    match TypeOf(v)
    case None => c.nullable
    case Some(dt) => dt == c.dataType
  }

  ghost predicate Admitted(t: Schema, row: Row)
    requires |t.columns| <= |row|
  {
    forall i :: 0 <= i < |t.columns| ==> FitsColumn(t.columns[i], row[i])
  }

  ghost function CreateNext(t: Schema, s: TableState, row: Row): Outcome
    requires Usable(t) && |t.columns| <= |row|
  {
    var id := row[KeyOf(t)];
    if !Admitted(t, row) || id in s.rows then Outcome(false, s)
    else Outcome(true, TableState(s.rows[id := row], EnterIndex(t.columns, |t.columns|, s.index, row, id)))
  }

  /** Deleting leaves the index as it is: the shortened set is never written back. */
  function DeleteNext(s: TableState, id: Value): TableState {
    TableState(s.rows - {id}, s.index)
  }

  /** Dropping a table removes its rows and its schema, and leaves the index, too, as it is. */
  function RecreateNext(s: TableState): TableState {
    TableState(map[], s.index)
  }

  /** A new primary key makes an update a deletion and a creation, of which the second may fail. */
  ghost function UpdateNext(t: Schema, s: TableState, id: Value, row: Row): Outcome
    requires Usable(t) && |t.columns| <= |row| && RowsLongEnough(t, s)
  {
    if id != row[KeyOf(t)] then CreateNext(t, DeleteNext(s, id), row)
    else Outcome(true, TableState(s.rows[id := row], MovedIndex(t, s, id, row)))
  }

  /** The index after an update in place; there is nothing to move for an id without a row. */
  function MovedIndex(t: Schema, s: TableState, id: Value, row: Row): Index
    requires |t.columns| <= |row| && (id in s.rows ==> |t.columns| <= |s.rows[id]|)
  {
    MovedUpTo(t, s, id, row, |t.columns|)
  }

  function MovedUpTo(t: Schema, s: TableState, id: Value, row: Row, n: nat): Index
    requires n <= |t.columns| <= |row| && (id in s.rows ==> |t.columns| <= |s.rows[id]|)
  {
    if id in s.rows then MoveIndex(t.columns, n, s.index, s.rows[id], row, id) else s.index
  }

  ghost predicate RowsLongEnough(t: Schema, s: TableState) {
    forall id :: id in s.rows ==> |t.columns| <= |s.rows[id]|
  }

  // ---------------------------------------------------------------- the index after one operation

  lemma {:induction false} EnteredAt(cols: seq<Column>, n: nat, index: Index, row: Row, id: Value, i: nat, v: Value)
    requires n <= |cols| <= |row| && DistinctNames(cols) && i < |cols| && cols[i].indexed
    ensures IndexAt(EnterIndex(cols, n, index, row, id), cols[i].name, v)
         == IndexAt(index, cols[i].name, v) + (if i < n && row[i] == v then {id} else {})
  {
    if n > 0 { EnteredAt(cols, n - 1, index, row, id, i, v); }
  }

  lemma {:induction false} MovedAt(cols: seq<Column>, n: nat, index: Index, oldRow: Row, row: Row, id: Value, i: nat,
      v: Value)
    requires n <= |cols| <= |row| && |cols| <= |oldRow| && DistinctNames(cols) && i < |cols| && cols[i].indexed
    ensures IndexAt(MoveIndex(cols, n, index, oldRow, row, id), cols[i].name, v)
         == if n <= i || oldRow[i] == row[i] then IndexAt(index, cols[i].name, v)
            else if v == row[i] then IndexAt(index, cols[i].name, v) + {id}
            else if v == oldRow[i] then IndexAt(index, cols[i].name, v) - {id}
            else IndexAt(index, cols[i].name, v)
  {
    if n > 0 { MovedAt(cols, n - 1, index, oldRow, row, id, i, v); }
  }

  // ---------------------------------------------------------------- what operations keep

  /** Rows are stored under their own primary key, which has the declared type. */
  ghost predicate Keyed(t: Schema, s: TableState)
    requires Usable(t)
  {
    forall id :: id in s.rows ==> OwnKey(t, id, s.rows[id])
  }

  ghost predicate OwnKey(t: Schema, id: Value, row: Row)
    requires Usable(t)
  {
    |t.columns| <= |row| && row[KeyOf(t)] == id && TypeOf(id) == Some(t.columns[KeyOf(t)].dataType)
  }

  /** Every live row is listed under each of its indexed values. */
  ghost predicate Covered(t: Schema, s: TableState)
    requires RowsLongEnough(t, s)
  {
    forall id, i: nat :: id in s.rows && i < |t.columns| && t.columns[i].indexed ==> ListedAt(t, s, id, i)
  }

  ghost predicate ListedAt(t: Schema, s: TableState, id: Value, i: nat)
    requires i < |t.columns| && id in s.rows && |t.columns| <= |s.rows[id]|
  {
    id in IndexAt(s.index, t.columns[i].name, s.rows[id][i])
  }

  /** The index lists nothing else. */
  ghost predicate Precise(t: Schema, s: TableState)
    requires RowsLongEnough(t, s)
  {
    forall i: nat, v, id :: i < |t.columns| && t.columns[i].indexed && id in IndexAt(s.index, t.columns[i].name, v)
      ==> Holds(s, id, i, v)
  }

  ghost predicate Holds(s: TableState, id: Value, i: nat, v: Value) {
    id in s.rows && i < |s.rows[id]| && s.rows[id][i] == v
  }

  /** Whatever the index lists has been a primary key. */
  ghost predicate ListsKeys(t: Schema, s: TableState)
    requires Usable(t)
  {
    forall i: nat, v, id :: i < |t.columns| && t.columns[i].indexed && id in IndexAt(s.index, t.columns[i].name, v)
      ==> TypeOf(id) == Some(t.columns[KeyOf(t)].dataType)
  }

  ghost predicate Sound(t: Schema, s: TableState)
    requires Usable(t)
  {
    Keyed(t, s) && RowsLongEnough(t, s) && Covered(t, s) && ListsKeys(t, s)
  }

  lemma CreateKeeps(t: Schema, s: TableState, row: Row)
    requires Usable(t) && Sound(t, s) && |t.columns| <= |row|
    ensures var r := CreateNext(t, s, row);
      Sound(t, r.state) && (r.ok && Precise(t, s) ==> Precise(t, r.state))
  {
    var r, id := CreateNext(t, s, row), row[KeyOf(t)];
    if r.ok {
      assert FitsColumn(t.columns[KeyOf(t)], id);
      forall i: nat, v | i < |t.columns| && t.columns[i].indexed
        ensures IndexAt(r.state.index, t.columns[i].name, v)
             == IndexAt(s.index, t.columns[i].name, v) + (if row[i] == v then {id} else {})
      {
        EnteredAt(t.columns, |t.columns|, s.index, row, id, i, v);
      }
      forall k, i: nat | k in r.state.rows && i < |t.columns| && t.columns[i].indexed
        ensures ListedAt(t, r.state, k, i)
      {
        if k != id { assert ListedAt(t, s, k, i); }
      }
      if Precise(t, s) {
        forall i: nat, v, k |
          i < |t.columns| && t.columns[i].indexed && k in IndexAt(r.state.index, t.columns[i].name, v)
          ensures Holds(r.state, k, i, v)
        {
          if k in IndexAt(s.index, t.columns[i].name, v) { assert Holds(s, k, i, v); }
        }
      }
    }
  }

  lemma DeleteKeeps(t: Schema, s: TableState, id: Value)
    requires Usable(t) && Sound(t, s)
    ensures Sound(t, DeleteNext(s, id))
  {
  }

  /** Deleting a row keeps the index precise exactly when the row is missing or the table has no index. */
  lemma DeleteLeavesStaleEntries(t: Schema, s: TableState, id: Value)
    requires Usable(t) && Sound(t, s) && Precise(t, s)
    ensures RowsLongEnough(t, DeleteNext(s, id))
    ensures Precise(t, DeleteNext(s, id))
       <==> id !in s.rows || forall i :: 0 <= i < |t.columns| ==> !t.columns[i].indexed
  {
  }

  lemma MoveKeeps(t: Schema, s: TableState, id: Value, row: Row)
    requires Usable(t) && Sound(t, s) && |t.columns| <= |row|
    requires id in s.rows && id == row[KeyOf(t)]
    ensures var r := UpdateNext(t, s, id, row);
      r.ok && Sound(t, r.state) && (Precise(t, s) ==> Precise(t, r.state))
  {
    var s', oldRow := UpdateNext(t, s, id, row).state, s.rows[id];
    forall i: nat, v | i < |t.columns| && t.columns[i].indexed
      ensures IndexAt(s'.index, t.columns[i].name, v)
           == if oldRow[i] == row[i] then IndexAt(s.index, t.columns[i].name, v)
              else if v == row[i] then IndexAt(s.index, t.columns[i].name, v) + {id}
              else if v == oldRow[i] then IndexAt(s.index, t.columns[i].name, v) - {id}
              else IndexAt(s.index, t.columns[i].name, v)
    {
      MovedAt(t.columns, |t.columns|, s.index, oldRow, row, id, i, v);
    }
    forall k, i: nat | k in s'.rows && i < |t.columns| && t.columns[i].indexed ensures ListedAt(t, s', k, i) {
      assert ListedAt(t, s, k, i);
    }
    if Precise(t, s) {
      forall i: nat, v, k | i < |t.columns| && t.columns[i].indexed && k in IndexAt(s'.index, t.columns[i].name, v)
        ensures Holds(s', k, i, v)
      {
        if k in IndexAt(s.index, t.columns[i].name, v) { assert Holds(s, k, i, v); }
      }
    }
  }

  // ---------------------------------------------------------------- runs

  /** Re-creating is dropping the table and creating it again. */
  datatype RowOp = Create(row: Row) | Update(id: Value, row: Row) | Delete(id: Value) | Recreate

  /** Rows have a value for every column; those that are updated have just been read. */
  ghost predicate Called(t: Schema, s: TableState, op: RowOp) {
    && RowsLongEnough(t, s)
    && (op.Create? || op.Update? ==> |t.columns| <= |op.row|)
    && (op.Update? ==> op.id in s.rows)
  }

  ghost function OpNext(t: Schema, s: TableState, op: RowOp): Outcome
    requires Usable(t) && Called(t, s, op)
  {
    match op
    case Create(row) => CreateNext(t, s, row)
    case Update(id, row) => UpdateNext(t, s, id, row)
    case Delete(id) => Outcome(true, DeleteNext(s, id))
    case Recreate => Outcome(true, RecreateNext(s))
  }

  /** The table after a run of operations on a new one; operations may fail half-way and be followed by others. */
  ghost function After(t: Schema, ops: seq<RowOp>): Option<TableState>
    requires Usable(t)
  {
    if ops == [] then Some(NEW_TABLE) else
      match After(t, ops[..|ops| - 1])
      case None => None
      case Some(s) => if Called(t, s, ops[|ops| - 1]) then Some(OpNext(t, s, ops[|ops| - 1]).state) else None
  }

  /** Takes no row away. */
  ghost predicate KeepsRows(t: Schema, op: RowOp)
    requires Usable(t)
  {
    !op.Delete? && !op.Recreate? && (op.Update? && |t.columns| <= |op.row| ==> op.id == op.row[KeyOf(t)])
  }

  lemma OpKeeps(t: Schema, s: TableState, op: RowOp)
    requires Usable(t) && Sound(t, s) && Called(t, s, op)
    ensures Sound(t, OpNext(t, s, op).state)
    ensures KeepsRows(t, op) && Precise(t, s) ==> Precise(t, OpNext(t, s, op).state)
  {
    match op {
      case Create(row) => CreateKeeps(t, s, row);
      case Delete(id) => DeleteKeeps(t, s, id);
      case Update(id, row) =>
        if id == row[KeyOf(t)] {
          MoveKeeps(t, s, id, row);
        } else {
          DeleteKeeps(t, s, id);
          CreateKeeps(t, DeleteNext(s, id), row);
        }
      case Recreate =>
    }
  }

  /** After any run of operations every row is stored under its own key and listed under its values;
      when nothing was deleted, the index lists nothing else. */
  lemma {:induction false} RunKeeps(t: Schema, ops: seq<RowOp>)
    requires Usable(t) && After(t, ops).Some?
    ensures var s := After(t, ops).value;
      Sound(t, s) && ((forall i :: 0 <= i < |ops| ==> KeepsRows(t, ops[i])) ==> Precise(t, s))
  {
    if ops != [] {
      RunKeeps(t, ops[..|ops| - 1]);
      OpKeeps(t, After(t, ops[..|ops| - 1]).value, ops[|ops| - 1]);
    }
  }

  /** A run that can be carried out can be carried out up to any point of it. */
  lemma {:induction false} AfterNext(t: Schema, ops: seq<RowOp>, i: nat)
    requires Usable(t) && i < |ops| && After(t, ops).Some?
    ensures After(t, ops[..i]).Some? && Called(t, After(t, ops[..i]).value, ops[i])
    ensures After(t, ops[..i + 1]) == Some(OpNext(t, After(t, ops[..i]).value, ops[i]).state)
    decreases |ops|
  {
    assert ops[..i + 1][..i] == ops[..i];
    if i + 1 == |ops| {
      assert ops[..i + 1] == ops && ops[..|ops| - 1] == ops[..i];
    } else {
      var front := ops[..|ops| - 1];
      AfterNext(t, front, i);
      assert front[..i] == ops[..i] && front[..i + 1] == ops[..i + 1];
    }
  }

  lemma AfterOneMore(t: Schema, ops: seq<RowOp>, op: RowOp)
    requires Usable(t) && After(t, ops).Some? && Called(t, After(t, ops).value, op)
    ensures After(t, ops + [op]) == Some(OpNext(t, After(t, ops).value, op).state)
  {
    assert (ops + [op])[..|ops|] == ops;
  }

  // ---------------------------------------------------------------- what the index lists after a run

  /** Takes the row with this id away: by deleting it, by giving it another primary key, or with the whole table. */
  ghost predicate TakesAway(t: Schema, op: RowOp, id: Value)
    requires Usable(t)
  {
    op == Delete(id) || op.Recreate? || (op.Update? && op.id == id && |t.columns| <= |op.row| && op.row[KeyOf(t)] != id)
  }

  ghost predicate UpdatesInPlace(t: Schema, op: RowOp, id: Value)
    requires Usable(t)
  {
    op.Update? && op.id == id && |t.columns| <= |op.row| && op.row[KeyOf(t)] == id
  }

  /** A row with this id was taken away while it held the value, and none with that id has been moved off the
      value by an update in place since. */
  ghost predicate LeftBehind(t: Schema, ops: seq<RowOp>, id: Value, i: nat, v: Value)
    requires Usable(t) && i < |t.columns| && After(t, ops).Some?
    decreases |ops|
  {
    ops != [] &&
    var front, op := ops[..|ops| - 1], ops[|ops| - 1];
    var held := Holds(After(t, front).value, id, i, v);
    if TakesAway(t, op, id) && held then true
    else LeftBehind(t, front, id, i, v) && !(UpdatesInPlace(t, op, id) && held && op.row[i] != v)
  }

  /** After any run the index lists an id under a value exactly when its row holds the value or left it behind. */
  lemma {:induction false} IndexListsExactly(t: Schema, ops: seq<RowOp>, id: Value, i: nat, v: Value)
    requires Usable(t) && After(t, ops).Some? && i < |t.columns| && t.columns[i].indexed
    ensures var s := After(t, ops).value;
      id in IndexAt(s.index, t.columns[i].name, v) <==> Holds(s, id, i, v) || LeftBehind(t, ops, id, i, v)
    decreases |ops|
  {
    if ops != [] {
      var front, op := ops[..|ops| - 1], ops[|ops| - 1];
      IndexListsExactly(t, front, id, i, v);
      OpLists(t, After(t, front).value, op, id, i, v);
    }
  }

  /** Moves the row with this id off the value. */
  ghost predicate MovesOff(t: Schema, s: TableState, op: RowOp, id: Value, i: nat, v: Value)
    requires Usable(t) && i < |t.columns|
  {
    UpdatesInPlace(t, op, id) && Holds(s, id, i, v) && op.row[i] != v
  }

  /** One operation lists an id under a value it newly holds and takes it off a value it is moved off, and a row
      stops holding a value in these ways only. */
  lemma OpLists(t: Schema, s: TableState, op: RowOp, id: Value, i: nat, v: Value)
    requires Usable(t) && Called(t, s, op) && i < |t.columns| && t.columns[i].indexed
    ensures OpListed(t, s, op, OpNext(t, s, op).state, id, i, v)
  {
    match op {
      case Create(row) => CreateLists(t, s, row, id, i, v);
      case Delete(_) =>
      case Update(k, row) =>
        if k == row[KeyOf(t)] { MoveLists(t, s, op, id, i, v); } else { RekeyLists(t, s, op, id, i, v); }
      case Recreate =>
    }
  }

  ghost predicate OpListed(t: Schema, s: TableState, op: RowOp, s': TableState, id: Value, i: nat, v: Value)
    requires Usable(t) && i < |t.columns|
  {
    var name := t.columns[i].name;
    && (id in IndexAt(s'.index, name, v) <==>
          !MovesOff(t, s, op, id, i, v)
          && (id in IndexAt(s.index, name, v) || (Holds(s', id, i, v) && !Holds(s, id, i, v))))
    && (MovesOff(t, s, op, id, i, v) ==> !Holds(s', id, i, v))
    && (Holds(s, id, i, v) && !Holds(s', id, i, v) ==> TakesAway(t, op, id) || MovesOff(t, s, op, id, i, v))
  }

  lemma MoveLists(t: Schema, s: TableState, op: RowOp, id: Value, i: nat, v: Value)
    requires Usable(t) && Called(t, s, op) && i < |t.columns| && t.columns[i].indexed
    requires op.Update? && op.id == op.row[KeyOf(t)]
    ensures OpListed(t, s, op, OpNext(t, s, op).state, id, i, v)
  {
    MovedAt(t.columns, |t.columns|, s.index, s.rows[op.id], op.row, op.id, i, v);
  }

  lemma RekeyLists(t: Schema, s: TableState, op: RowOp, id: Value, i: nat, v: Value)
    requires Usable(t) && Called(t, s, op) && i < |t.columns| && t.columns[i].indexed
    requires op.Update? && op.id != op.row[KeyOf(t)]
    ensures OpListed(t, s, op, OpNext(t, s, op).state, id, i, v)
  {
    CreateLists(t, DeleteNext(s, op.id), op.row, id, i, v);
  }

  lemma CreateLists(t: Schema, s: TableState, row: Row, id: Value, i: nat, v: Value)
    requires Usable(t) && |t.columns| <= |row| && i < |t.columns| && t.columns[i].indexed
    ensures var s', name := CreateNext(t, s, row).state, t.columns[i].name;
      (id in IndexAt(s'.index, name, v))
      == (id in IndexAt(s.index, name, v) || (Holds(s', id, i, v) && !Holds(s, id, i, v)))
    ensures Holds(s, id, i, v) ==> Holds(CreateNext(t, s, row).state, id, i, v)
  {
    EnteredAt(t.columns, |t.columns|, s.index, row, row[KeyOf(t)], i, v);
  }

  /** Nothing is left behind by a run that takes no row away. */
  lemma {:induction false} NothingLeftBehind(t: Schema, ops: seq<RowOp>, id: Value, i: nat, v: Value)
    requires Usable(t) && After(t, ops).Some? && i < |t.columns|
    requires forall j :: 0 <= j < |ops| ==> KeepsRows(t, ops[j])
    ensures !LeftBehind(t, ops, id, i, v)
    decreases |ops|
  {
    if ops != [] { NothingLeftBehind(t, ops[..|ops| - 1], id, i, v); }
  }

  // ---------------------------------------------------------------- updates that fail

  /** An update of a live row fails exactly when it changes the primary key and the new row is not admitted or its
      key is taken; the old row is then gone, and nothing else has changed. */
  lemma UpdateFailsExactly(t: Schema, s: TableState, id: Value, row: Row)
    requires Usable(t) && |t.columns| <= |row| && RowsLongEnough(t, s) && id in s.rows
    ensures var r := UpdateNext(t, s, id, row);
      && (!r.ok <==> row[KeyOf(t)] != id && (!Admitted(t, row) || row[KeyOf(t)] in s.rows))
      && (!r.ok ==> r.state == TableState(s.rows - {id}, s.index))
  {
  }

  /** In a run, a failed update loses the row and leaves its id listed under every value the row held. */
  lemma FailedUpdateLosesRow(t: Schema, ops: seq<RowOp>, id: Value, row: Row)
    requires Usable(t) && After(t, ops).Some? && Called(t, After(t, ops).value, Update(id, row))
    requires !UpdateNext(t, After(t, ops).value, id, row).ok
    ensures var s, later := After(t, ops).value, After(t, ops + [Update(id, row)]);
      && later.Some? && later.value.rows == s.rows - {id}
      && forall i: nat :: i < |t.columns| && t.columns[i].indexed ==>
           LeftBehind(t, ops + [Update(id, row)], id, i, s.rows[id][i])
           && id in IndexAt(later.value.index, t.columns[i].name, s.rows[id][i])
  {
    var s, op := After(t, ops).value, Update(id, row);
    AfterOneMore(t, ops, op);
    UpdateFailsExactly(t, s, id, row);
    assert (ops + [op])[..|ops|] == ops;
    forall i: nat | i < |t.columns| && t.columns[i].indexed
      ensures LeftBehind(t, ops + [op], id, i, s.rows[id][i])
      ensures id in IndexAt(After(t, ops + [op]).value.index, t.columns[i].name, s.rows[id][i])
    {
      assert Holds(s, id, i, s.rows[id][i]) && TakesAway(t, op, id);
      IndexListsExactly(t, ops + [op], id, i, s.rows[id][i]);
    }
  }

  // ---------------------------------------------------------------- rows that fit their columns

  ghost predicate AllAdmitted(t: Schema, s: TableState) {
    forall id :: id in s.rows ==> |t.columns| <= |s.rows[id]| && Admitted(t, s.rows[id])
  }

  /** Only an update in place is not checked. */
  ghost predicate Checked(t: Schema, op: RowOp)
    requires Usable(t)
  {
    op.Update? && |t.columns| <= |op.row| && op.id == op.row[KeyOf(t)] ==> Admitted(t, op.row)
  }

  /** An operation keeps all rows fitting exactly when it is not an update in place to a row that does not fit. */
  lemma KeepsAdmittedExactly(t: Schema, s: TableState, op: RowOp)
    requires Usable(t) && Called(t, s, op) && AllAdmitted(t, s)
    ensures AllAdmitted(t, OpNext(t, s, op).state) <==> Checked(t, op)
  {
    if op.Update? && op.id == op.row[KeyOf(t)] {
      assert OpNext(t, s, op).state.rows[op.id] == op.row;
    }
  }

  /** If all updates in place are to rows that fit, all rows fit their columns, and so do all values left behind. */
  lemma {:induction false} RunAdmits(t: Schema, ops: seq<RowOp>)
    requires Usable(t) && After(t, ops).Some? && forall j :: 0 <= j < |ops| ==> Checked(t, ops[j])
    ensures AllAdmitted(t, After(t, ops).value)
    ensures forall id, i: nat, v :: i < |t.columns| && LeftBehind(t, ops, id, i, v) ==> FitsColumn(t.columns[i], v)
    decreases |ops|
  {
    if ops != [] {
      var front := ops[..|ops| - 1];
      RunAdmits(t, front);
      KeepsAdmittedExactly(t, After(t, front).value, ops[|ops| - 1]);
    }
  }
}
