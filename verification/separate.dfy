/** When tables disturb each other: names are written without terminators, so some of them share keys. */
module Separation {
  import opened Ast
  import opened ByteOrder
  import opened StorageEngine
  import opened TableKeys
  import opened Joins
  import opened Tables
  import opened AccessPaths
  import opened KvTables

  /** The keys of a table, and all that a scan of it reads. */
  ghost predicate ReadFor(key: Bytes, u: Schema, bits: FloatBits) {
    || key == Encode(TableKey(u.name), bits)
    || RowPrefix(u.name) <= key
    || exists j: nat, v :: IsEntryKey(key, u, j, v, bits)
  }

  ghost predicate ShareEntries(t: Schema, u: Schema) {
    exists i, j :: 0 <= i < |t.columns| && 0 <= j < |u.columns| && SameEntries(t, i, u, j)
  }

  predicate SameEntries(t: Schema, i: nat, u: Schema, j: nat)
    requires i < |t.columns| && j < |u.columns|
  {
    t.columns[i].indexed && u.columns[j].indexed && t.name + t.columns[i].name == u.name + u.columns[j].name
  }

  ghost predicate CanDisturb(t: Schema, u: Schema, drops: bool) {
    u.name <= t.name || (drops && t.name <= u.name) || ShareEntries(t, u)
  }

  /** Operations on one table may write a key that is read for another exactly when the name of the other begins the
      name of the one, or the one is dropped and its name begins that of the other, or index entries coincide. */
  lemma DisturbsExactly(t: Schema, u: Schema, drops: bool, bits: FloatBits)
    requires WellNamed(t) && WellNamed(u)
    ensures (exists key :: Writes(key, t, drops, bits) && ReadFor(key, u, bits)) <==> CanDisturb(t, u, drops)
  {
    if key :| Writes(key, t, drops, bits) && ReadFor(key, u, bits) { WrittenAndRead(key, t, u, drops, bits); }
    if CanDisturb(t, u, drops) { var key := KeyInCommon(t, u, drops, bits); }
  }

  lemma WrittenAndRead(key: Bytes, t: Schema, u: Schema, drops: bool, bits: FloatBits)
    requires WellNamed(t) && WellNamed(u) && Writes(key, t, drops, bits) && ReadFor(key, u, bits)
    ensures CanDisturb(t, u, drops)
  {
    if id :| IsRowKey(key, t.name, id, bits) {
      RowIsRead(key, t, id, u, bits);
    } else if i: nat, v :| IsEntryKey(key, t, i, v, bits) {
      EntryIsRead(key, t, i, v, u, bits);
    } else if RowPrefix(u.name) <= key {
      BothBegin(t.name, u.name, key);
    } else {
      NotInRange(key, t, u, bits);
    }
  }

  lemma RowIsRead(key: Bytes, t: Schema, id: Value, u: Schema, bits: FloatBits)
    requires WellNamed(t) && WellNamed(u) && IsRowKey(key, t.name, id, bits) && ReadFor(key, u, bits)
    ensures u.name <= t.name
  {
    RowPrefixExact(u.name, RowKey(t.name, id), bits);
    NotAnEntry(key, u, bits);
  }

  lemma EntryIsRead(key: Bytes, t: Schema, i: nat, v: Value, u: Schema, bits: FloatBits)
    requires WellNamed(t) && WellNamed(u) && IsEntryKey(key, t, i, v, bits) && ReadFor(key, u, bits)
    ensures ShareEntries(t, u)
  {
    var k := IndexKey(t.name, t.columns[i].name, v);
    OtherKinds(u, key, k, bits);
    var j: nat, w :| IsEntryKey(key, u, j, w, bits);
    KeysCoincideExactly(k, IndexKey(u.name, u.columns[j].name, w), bits);
    assert SameEntries(t, i, u, j);
  }

  lemma NotAnEntry(key: Bytes, u: Schema, bits: FloatBits)
    requires key != [] && key[0] == 1
    ensures key != Encode(TableKey(u.name), bits)
    ensures !exists j: nat, v :: IsEntryKey(key, u, j, v, bits)
  {
  }

  lemma NotInRange(key: Bytes, t: Schema, u: Schema, bits: FloatBits)
    requires RowPrefix(t.name) <= key && ReadFor(key, u, bits)
    ensures RowPrefix(u.name) <= key
  {
    assert key[0] == RowPrefix(t.name)[0];
    NotAnEntry(key, u, bits);
  }

  lemma BothBegin(a: Text, b: Text, key: Bytes)
    requires RowPrefix(a) <= key && RowPrefix(b) <= key
    ensures a <= b || b <= a
  {
    assert a == key[1..][..|a|] && b == key[1..][..|b|];
  }

  lemma KeyInCommon(t: Schema, u: Schema, drops: bool, bits: FloatBits) returns (key: Bytes)
    requires WellNamed(t) && WellNamed(u) && CanDisturb(t, u, drops)
    ensures Writes(key, t, drops, bits) && ReadFor(key, u, bits)
  {
    if u.name <= t.name {
      key := Encode(RowKey(t.name, Null), bits);
      RowPrefixExact(u.name, RowKey(t.name, Null), bits);
      assert IsRowKey(key, t.name, Null, bits);
    } else if drops && t.name <= u.name {
      key := Encode(RowKey(u.name, Null), bits);
      RowPrefixExact(t.name, RowKey(u.name, Null), bits);
      RowPrefixExact(u.name, RowKey(u.name, Null), bits);
    } else {
      var i, j :| 0 <= i < |t.columns| && 0 <= j < |u.columns| && SameEntries(t, i, u, j);
      key := Encode(IndexKey(t.name, t.columns[i].name, Null), bits);
      KeysCoincideExactly(IndexKey(t.name, t.columns[i].name, Null), IndexKey(u.name, u.columns[j].name, Null), bits);
      assert IsEntryKey(key, t, i, Null, bits) && IsEntryKey(key, u, j, Null, bits);
    }
  }

  /** Tables keep their own rows and index sets unless the entries coincide or the table goes with another one that
      is dropped; a scan of them still reads their rows alone unless the name of the table begins the other's. */
  lemma OtherTablesKept(before: Store, after: Store, t: Schema, u: Schema, s: TableState, drops: bool, bits: FloatBits)
    requires WellNamed(t) && OthersKept(before, after, t, drops, bits) && Stores(before, u, s, bits)
    requires t.name != u.name && !ShareEntries(t, u) && !(drops && t.name <= u.name)
    ensures Stores(after, u, s, bits)
    ensures !(u.name <= t.name) && OnlyRows(before, u.name, s.rows, bits) ==> OnlyRows(after, u.name, s.rows, bits)
  {
    forall id ensures SameAt(before, after, Encode(RowKey(u.name, id), bits)) {
      RowUnwritten(t, u, id, drops, bits);
    }
    forall c, v | IsIndexField(u, c) && Machine(v, bits)
      ensures SameAt(before, after, Encode(IndexKey(u.name, c, v), bits))
    {
      EntryUnwritten(t, u, c, v, drops, bits);
    }
    SchemaUnwritten(t, u, drops, bits);
    assert SameAt(before, after, Encode(TableKey(u.name), bits));
    assert StoresIndex(after, u, s.index, bits);
    if !(u.name <= t.name) && OnlyRows(before, u.name, s.rows, bits) {
      forall key | key in after && RowPrefix(u.name) <= key ensures IsRowOf(key, u.name, s.rows, bits) {
        if Writes(key, t, drops, bits) { WrittenAndRead(key, t, u, drops, bits); }
        assert SameAt(before, after, key);
      }
    }
  }

  ghost predicate SameAt(before: Store, after: Store, key: Bytes) {
    Find(before, key) == Find(after, key)
  }

  lemma SchemaUnwritten(t: Schema, u: Schema, drops: bool, bits: FloatBits)
    requires WellNamed(t) && WellNamed(u)
    ensures !Writes(Encode(TableKey(u.name), bits), t, drops, bits)
  {
    var key := Encode(TableKey(u.name), bits);
    OtherKinds(t, key, TableKey(u.name), bits);
    assert key[0] == 0;
  }

  lemma RowUnwritten(t: Schema, u: Schema, id: Value, drops: bool, bits: FloatBits)
    requires WellNamed(t) && WellNamed(u) && t.name != u.name && !(drops && t.name <= u.name)
    ensures !Writes(Encode(RowKey(u.name, id), bits), t, drops, bits)
  {
    var key := Encode(RowKey(u.name, id), bits);
    RowPrefixExact(t.name, RowKey(u.name, id), bits);
    if k :| IsRowKey(key, t.name, k, bits) { KeysCoincideExactly(RowKey(t.name, k), RowKey(u.name, id), bits); }
    NotAnEntry(key, t, bits);
  }

  lemma EntryUnwritten(t: Schema, u: Schema, c: Text, v: Value, drops: bool, bits: FloatBits)
    requires WellNamed(t) && WellNamed(u) && !ShareEntries(t, u) && IsIndexField(u, c) && Machine(v, bits)
    ensures !Writes(Encode(IndexKey(u.name, c, v), bits), t, drops, bits)
  {
    var key := Encode(IndexKey(u.name, c, v), bits);
    OtherKinds(t, key, IndexKey(u.name, c, v), bits);
    var j :| 0 <= j < |u.columns| && u.columns[j].name == c && u.columns[j].indexed;
    if i: nat, w :| IsEntryKey(key, t, i, w, bits) {
      KeysCoincideExactly(IndexKey(t.name, t.columns[i].name, w), IndexKey(u.name, c, v), bits);
      assert SameEntries(t, i, u, j);
    }
  }

  /** Dropping a table empties the tables whose names extend its own, and leaves the others as they are. */
  lemma DropEmptiesExtensions(data: Store, name: Text, u: Schema, s: TableState, bits: FloatBits)
    requires Identifier(name) && name != u.name && Stores(data, u, s, bits)
    ensures Stores(Dropped(data, name, bits), u, if name <= u.name then RecreateNext(s) else s, bits)
  {
    var after := Dropped(data, name, bits);
    forall id ensures var key := Encode(RowKey(u.name, id), bits);
        Find(after, key) == if name <= u.name then None else Find(data, key)
    {
      RowPrefixExact(name, RowKey(u.name, id), bits);
      KeysCoincideExactly(RowKey(u.name, id), TableKey(name), bits);
    }
    forall c, v | IsIndexField(u, c) ensures SameAt(data, after, Encode(IndexKey(u.name, c, v), bits)) {
      RowPrefixExact(name, IndexKey(u.name, c, v), bits);
      KeysCoincideExactly(IndexKey(u.name, c, v), TableKey(name), bits);
    }
    RowPrefixExact(name, TableKey(u.name), bits);
    KeysCoincideExactly(TableKey(u.name), TableKey(name), bits);
    assert StoresIndex(after, u, s.index, bits);
  }

  // ---------------------------------------------------------------- runs over many tables

  ghost predicate Separate(tables: seq<Schema>) {
    forall i, j :: 0 <= i < |tables| && 0 <= j < |tables| && i != j ==> !CanDisturb(tables[i], tables[j], true)
  }

  /** The operations of a run on one of its tables. */
  function OpsOn(ops: seq<(nat, RowOp)>, i: nat): seq<RowOp> {
    if ops == [] then [] else
      var (table, op) := ops[|ops| - 1];
      OpsOn(ops[..|ops| - 1], i) + (if table == i then [op] else [])
  }

  /** The run can be carried out on each table for itself. */
  ghost predicate CanRun(tables: seq<Schema>, ops: seq<(nat, RowOp)>, bits: FloatBits) {
    && (forall i :: 0 <= i < |tables| ==> CanRunOn(tables[i], OpsOn(ops, i)))
    && (forall k :: 0 <= k < |ops| ==> ops[k].0 < |tables| && MachineOp(ops[k].1, bits))
  }

  ghost predicate CanRunOn(t: Schema, ops: seq<RowOp>) {
    Usable(t) && After(t, ops).Some?
  }

  /** The store holds what these operations leave the table with, and a scan reads nothing else. */
  ghost predicate TableIs(data: Store, t: Schema, ops: seq<RowOp>, bits: FloatBits) {
    && CanRunOn(t, ops)
    && Stores(data, t, After(t, ops).value, bits) && OnlyRows(data, t.name, After(t, ops).value.rows, bits)
  }

  ghost predicate AllAre(data: Store, tables: seq<Schema>, ops: seq<(nat, RowOp)>, bits: FloatBits) {
    forall i :: 0 <= i < |tables| ==> TableIs(data, tables[i], OpsOn(ops, i), bits)
  }

  /** On an empty store: tables that cannot disturb each other, after any interleaving of operations on them, are what
      their own operations leave them with. */
  method RunTables(kv: KvTransaction, tables: seq<Schema>, ops: seq<(nat, RowOp)>)
    requires kv.txn.data == map[] && Separate(tables) && CanRun(tables, ops, kv.bits)
    requires forall i :: 0 <= i < |tables| ==> WellNamed(tables[i])
    modifies kv.txn
    ensures AllAre(kv.txn.data, tables, ops, kv.bits)
    decreases |ops|
  {
    if ops == [] {
      SeparateAreNamed(tables);
      CreateTables(kv, tables);
    } else {
      FrontRuns(tables, ops, kv.bits);
      RunTables(kv, tables, ops[..|ops| - 1]);
      RunLast(kv, tables, ops);
    }
  }

  method RunLast(kv: KvTransaction, tables: seq<Schema>, ops: seq<(nat, RowOp)>)
    requires ops != [] && AllAre(kv.txn.data, tables, ops[..|ops| - 1], kv.bits)
    requires Separate(tables) && CanRun(tables, ops, kv.bits)
    modifies kv.txn
    ensures AllAre(kv.txn.data, tables, ops, kv.bits)
  {
    var (i, op) := ops[|ops| - 1];
    ghost var front := OpsOn(ops[..|ops| - 1], i);
    assert TableIs(kv.txn.data, tables[i], front, kv.bits) && CanRunOn(tables[i], OpsOn(ops, i));
    LastOp(tables[i], front, op);
    kv.RunRowOp(tables[i], op, After(tables[i], front).value);
    OthersKeepTheirs(old(kv.txn.data), kv.txn.data, tables, ops, kv.bits);
  }

  lemma FrontRuns(tables: seq<Schema>, ops: seq<(nat, RowOp)>, bits: FloatBits)
    requires ops != [] && CanRun(tables, ops, bits)
    ensures CanRun(tables, ops[..|ops| - 1], bits)
  {
    var front := ops[..|ops| - 1];
    forall i | 0 <= i < |tables| ensures CanRunOn(tables[i], OpsOn(front, i)) {
      assert CanRunOn(tables[i], OpsOn(ops, i));
      if ops[|ops| - 1].0 == i { LastOp(tables[i], OpsOn(front, i), ops[|ops| - 1].1); }
      assert OpsOn(front, i) + [] == OpsOn(front, i);
    }
  }

  lemma LastOp(t: Schema, front: seq<RowOp>, op: RowOp)
    requires CanRunOn(t, front + [op])
    ensures After(t, front).Some? && Called(t, After(t, front).value, op)
    ensures After(t, front + [op]).value == OpNext(t, After(t, front).value, op).state
  {
    assert (front + [op])[..|front|] == front;
  }

  lemma OthersKeepTheirs(before: Store, after: Store, tables: seq<Schema>, ops: seq<(nat, RowOp)>, bits: FloatBits)
    requires ops != [] && AllAre(before, tables, ops[..|ops| - 1], bits) && Separate(tables)
    requires ops[|ops| - 1].0 < |tables|
    requires var (i, op) := ops[|ops| - 1];
      TableIs(after, tables[i], OpsOn(ops, i), bits) && OthersKept(before, after, tables[i], op.Recreate?, bits)
    ensures AllAre(after, tables, ops, bits)
  {
    var front := ops[..|ops| - 1];
    var (i, op) := ops[|ops| - 1];
    forall j | 0 <= j < |tables| ensures TableIs(after, tables[j], OpsOn(ops, j), bits) {
      if j != i {
        OpsOnOthers(ops, j);
        assert TableIs(before, tables[j], OpsOn(front, j), bits) && !CanDisturb(tables[i], tables[j], true);
        OtherKeepsItsOwn(before, after, tables[i], tables[j], OpsOn(front, j), op.Recreate?, bits);
      }
    }
  }

  lemma OpsOnOthers(ops: seq<(nat, RowOp)>, j: nat)
    requires ops != [] && ops[|ops| - 1].0 != j
    ensures OpsOn(ops, j) == OpsOn(ops[..|ops| - 1], j)
  {
    assert OpsOn(ops, j) == OpsOn(ops[..|ops| - 1], j) + [];
  }

  lemma OtherKeepsItsOwn(before: Store, after: Store, t: Schema, u: Schema, ops: seq<RowOp>, drops: bool,
      bits: FloatBits)
    requires WellNamed(t) && !CanDisturb(t, u, true) && OthersKept(before, after, t, drops, bits)
    requires TableIs(before, u, ops, bits)
    ensures TableIs(after, u, ops, bits)
  {
    OtherTablesKept(before, after, t, u, After(u, ops).value, drops, bits);
  }

  method CreateTables(kv: KvTransaction, tables: seq<Schema>)
    requires kv.txn.data == map[] && DifferentlyNamed(tables)
    requires forall i :: 0 <= i < |tables| ==> Usable(tables[i]) && WellNamed(tables[i])
    modifies kv.txn
    ensures OnlySchemas(kv.txn.data, tables, kv.bits) && AllAre(kv.txn.data, tables, [], kv.bits)
  {
    for i := 0 to |tables|
      invariant OnlySchemas(kv.txn.data, tables[..i], kv.bits)
    {
      NameIsNew(kv.txn.data, tables, i, kv.bits);
      var ok := kv.CreateTable(tables[i]);
    }
    assert tables[..|tables|] == tables;
    forall i | 0 <= i < |tables| ensures TableIs(kv.txn.data, tables[i], [], kv.bits) {
      NewTableStored(kv.txn.data, tables, i, kv.bits);
    }
  }

  ghost predicate DifferentlyNamed(tables: seq<Schema>) {
    forall i, j :: 0 <= i < j < |tables| ==> tables[i].name != tables[j].name
  }

  lemma SeparateAreNamed(tables: seq<Schema>)
    requires Separate(tables)
    ensures DifferentlyNamed(tables)
  {
    forall i, j | 0 <= i < j < |tables| ensures tables[i].name != tables[j].name {
      assert !CanDisturb(tables[i], tables[j], true);
    }
  }

  /** The store after these tables were created. */
  ghost predicate OnlySchemas(data: Store, tables: seq<Schema>, bits: FloatBits) {
    && (forall i :: 0 <= i < |tables| ==> StoresSchema(data, tables[i], bits))
    && (forall key :: key in data ==> IsSchemaKey(key, tables, bits))
  }

  ghost predicate IsSchemaKey(key: Bytes, tables: seq<Schema>, bits: FloatBits) {
    exists i :: 0 <= i < |tables| && key == Encode(TableKey(tables[i].name), bits)
  }

  lemma NameIsNew(data: Store, tables: seq<Schema>, i: nat, bits: FloatBits)
    requires i < |tables| && DifferentlyNamed(tables) && OnlySchemas(data, tables[..i], bits)
    requires forall j :: 0 <= j < |tables| ==> WellNamed(tables[j])
    ensures Encode(TableKey(tables[i].name), bits) !in data
    ensures OnlySchemas(data[Encode(TableKey(tables[i].name), bits) := SchemaRecord(tables[i])], tables[..i + 1], bits)
  {
    var key := Encode(TableKey(tables[i].name), bits);
    if key in data {
      var j :| 0 <= j < i && key == Encode(TableKey(tables[..i][j].name), bits);
      KeysCoincideExactly(TableKey(tables[j].name), TableKey(tables[i].name), bits);
    }
    SchemaAdded(data, tables[..i], tables[i], bits);
    assert tables[..i + 1] == tables[..i] + [tables[i]];
  }

  lemma SchemaAdded(data: Store, tables: seq<Schema>, t: Schema, bits: FloatBits)
    requires OnlySchemas(data, tables, bits) && Encode(TableKey(t.name), bits) !in data
    ensures OnlySchemas(data[Encode(TableKey(t.name), bits) := SchemaRecord(t)], tables + [t], bits)
  {
    var data', more := data[Encode(TableKey(t.name), bits) := SchemaRecord(t)], tables + [t];
    forall j | 0 <= j < |more| ensures StoresSchema(data', more[j], bits) {
      if j < |tables| { assert StoresSchema(data, tables[j], bits); }
    }
    forall key | key in data' ensures IsSchemaKey(key, more, bits) {
      if key in data {
        var j :| 0 <= j < |tables| && key == Encode(TableKey(tables[j].name), bits);
        assert more[j] == tables[j];
      } else {
        assert more[|tables|] == t;
      }
    }
  }

  lemma NewTableStored(data: Store, tables: seq<Schema>, i: nat, bits: FloatBits)
    requires i < |tables| && WellNamed(tables[i]) && OnlySchemas(data, tables, bits)
    ensures Stores(data, tables[i], NEW_TABLE, bits) && OnlyRows(data, tables[i].name, map[], bits)
  {
    var t := tables[i];
    assert forall key :: key in data ==> key[0] == 0;
    forall key | key in data ensures !(RowPrefix(t.name) <= key) { assert RowPrefix(t.name)[0] == 1; }
    forall id ensures Encode(RowKey(t.name, id), bits) !in data { assert Encode(RowKey(t.name, id), bits)[0] == 1; }
    forall c, v ensures Encode(IndexKey(t.name, c, v), bits) !in data {
      assert Encode(IndexKey(t.name, c, v), bits)[0] == 2;
    }
    assert StoresSchema(data, t, bits);
  }

  // ---------------------------------------------------------------- runs on tables that disturb each other

  /** Two tables whose entries coincide have one index between them. */
  lemma SharedIndex(data: Store, t: Schema, s: TableState, i: nat, u: Schema, s': TableState, j: nat, v: Value,
      bits: FloatBits)
    requires Stores(data, t, s, bits) && Stores(data, u, s', bits) && Machine(v, bits)
    requires i < |t.columns| && j < |u.columns| && SameEntries(t, i, u, j)
    ensures IndexAt(s.index, t.columns[i].name, v) == IndexAt(s'.index, u.columns[j].name, v)
  {
    var c, d := t.columns[i].name, u.columns[j].name;
    KeysCoincideExactly(IndexKey(t.name, c, v), IndexKey(u.name, d, v), bits);
    assert IsIndexField(t, c) && IsIndexField(u, d);
    assert Find(data, Encode(IndexKey(t.name, c, v), bits)) == Find(data, Encode(IndexKey(u.name, d, v), bits));
  }

  /** CREATE TABLE name (a INT PRIMARY KEY). */
  function OneColumn(name: Text): (t: Schema)
    ensures Usable(t) && KeyOf(t) == 0 && t.name == name
    ensures |t.columns| == 1 && !t.columns[0].indexed && t.columns[0].name == A && t.columns[0].dataType == IntegerType
  {
    var t := Schema(name, [Column(A, IntegerType, false, None, true, false)]);
    assert t.columns[0].primaryKey;
    t
  }

  /** Tables t and tx, and a row in tx: `SELECT * FROM t` reads it, and after `DROP TABLE t` it is gone from tx. */
  method ForeignRowIsReadAndDropped(bits: FloatBits, widen: i64 -> real)
    returns (read: Result<seq<Row>>, left: Result<seq<Row>>)
    ensures read == Ok([[Integer(1)]]) && left == Ok([])
  {
    var engine := new MemoryEngine<Record>();
    var kv := new KvTransaction(engine, bits);
    var t, tx := OneColumn([116]), OneColumn([116, 120]);
    read, left := ReadAndDrop(kv, t, tx, widen);
  }

  method ReadAndDrop(kv: KvTransaction, t: Schema, tx: Schema, widen: i64 -> real)
    returns (read: Result<seq<Row>>, left: Result<seq<Row>>)
    requires WellNamed(t) && WellNamed(tx) && t.name < tx.name && t == OneColumn(t.name) && tx == OneColumn(tx.name)
    requires kv.txn.data == map[]
    modifies kv.txn
    ensures read == Ok([[Integer(1)]]) && left == Ok([])
  {
    ghost var s := RowInExtension(kv, t, tx);
    read := kv.Select(t.name, None, widen, t, NEW_TABLE);
    ReadsOne(kv.txn.data, t, Encode(RowKey(tx.name, Integer(1)), kv.bits), [Integer(1)], widen, read);
    kv.DropTable(t.name);
    left := kv.Select(tx.name, None, widen, tx, RecreateNext(s));
    NothingSelected(tx, RecreateNext(s), widen, left);
  }

  method RowInExtension(kv: KvTransaction, t: Schema, tx: Schema) returns (ghost s: TableState)
    requires WellNamed(t) && WellNamed(tx) && t.name < tx.name && t == OneColumn(t.name) && tx == OneColumn(tx.name)
    requires kv.txn.data == map[]
    modifies kv.txn
    ensures var data, bits, key := kv.txn.data, kv.bits, Encode(RowKey(tx.name, Integer(1)), kv.bits);
      && Stores(data, t, NEW_TABLE, bits) && OnlyUnder(data, t.name, key) && data[key] == RowRecord([Integer(1)])
      && Stores(Dropped(data, t.name, bits), tx, RecreateNext(s), bits)
      && OnlyRows(Dropped(data, t.name, bits), tx.name, map[], bits)
  {
    CreateTwo(kv, t, tx);
    ghost var before := kv.txn.data;
    var ok := kv.CreateRow(tx.name, [Integer(1)], tx, NEW_TABLE);
    s := CreateNext(tx, NEW_TABLE, [Integer(1)]).state;
    ForeignRow(before, kv.txn.data, t, tx, s, kv.bits);
  }

  method CreateTwo(kv: KvTransaction, t: Schema, u: Schema)
    requires kv.txn.data == map[] && t.name != u.name
    requires Usable(t) && WellNamed(t) && Usable(u) && WellNamed(u)
    modifies kv.txn
    ensures OnlySchemas(kv.txn.data, [t, u], kv.bits)
    ensures Stores(kv.txn.data, t, NEW_TABLE, kv.bits) && Stores(kv.txn.data, u, NEW_TABLE, kv.bits)
  {
    CreateTables(kv, [t, u]);
    assert TableIs(kv.txn.data, [t, u][0], [], kv.bits) && TableIs(kv.txn.data, [t, u][1], [], kv.bits);
  }

  lemma ForeignRow(before: Store, after: Store, t: Schema, tx: Schema, s: TableState, bits: FloatBits)
    requires WellNamed(t) && WellNamed(tx) && t.name < tx.name && t == OneColumn(t.name) && tx == OneColumn(tx.name)
    requires OnlySchemas(before, [t, tx], bits) && Stores(before, t, NEW_TABLE, bits)
    requires Stores(after, tx, s, bits) && OthersKept(before, after, tx, false, bits)
    requires s == CreateNext(tx, NEW_TABLE, [Integer(1)]).state
    ensures var key := Encode(RowKey(tx.name, Integer(1)), bits);
      && Stores(after, t, NEW_TABLE, bits) && OnlyUnder(after, t.name, key) && after[key] == RowRecord([Integer(1)])
      && Stores(Dropped(after, t.name, bits), tx, RecreateNext(s), bits)
      && OnlyRows(Dropped(after, t.name, bits), tx.name, map[], bits)
  {
    assert FitsColumn(tx.columns[0], Integer(1));
    OtherTablesKept(before, after, tx, t, NEW_TABLE, false, bits);
    OneForeignRow(before, after, t, tx, s, bits);
    assert Find(after, Encode(RowKey(tx.name, Integer(1)), bits)) == Some(RowRecord([Integer(1)]));
    DropEmptiesExtensions(after, t.name, tx, s, bits);
    NothingUnder(after, t.name, tx.name, bits);
  }

  ghost predicate OnlyUnder(data: Store, table: Text, own: Bytes) {
    forall key :: key in data && RowPrefix(table) <= key <==> key == own
  }

  lemma NothingUnder(data: Store, name: Text, longer: Text, bits: FloatBits)
    requires name <= longer
    ensures OnlyRows(Dropped(data, name, bits), longer, map[], bits)
  {
    assert RowPrefix(name) <= RowPrefix(longer);
  }

  lemma OneForeignRow(before: Store, after: Store, t: Schema, tx: Schema, s: TableState, bits: FloatBits)
    requires WellNamed(t) && WellNamed(tx) && t.name <= tx.name && OnlySchemas(before, [t, tx], bits)
    requires Stores(after, tx, s, bits) && OthersKept(before, after, tx, false, bits)
    requires s.rows.Keys == {Integer(1)}
    ensures OnlyUnder(after, t.name, Encode(RowKey(tx.name, Integer(1)), bits))
  {
    var own := Encode(RowKey(tx.name, Integer(1)), bits);
    RowPrefixExact(t.name, RowKey(tx.name, Integer(1)), bits);
    assert Find(after, own).Some?;
    forall key | key in after && RowPrefix(t.name) <= key ensures key == own {
      if id :| IsRowKey(key, tx.name, id, bits) {
        assert Find(after, Encode(RowKey(tx.name, id), bits)).Some?;
      } else {
        assert key[0] == RowPrefix(t.name)[0];
        NotAnEntry(key, tx, bits);
        assert Find(before, key) == Find(after, key) && key in before;
        SchemaKeysDiffer(before, [t, tx], key, bits);
      }
    }
  }

  lemma SchemaKeysDiffer(data: Store, tables: seq<Schema>, key: Bytes, bits: FloatBits)
    requires OnlySchemas(data, tables, bits) && key in data
    ensures key[..1] == [0]
  {
    assert IsSchemaKey(key, tables, bits);
  }

  lemma ReadsOne(data: Store, t: Schema, key: Bytes, row: Row, widen: i64 -> real, r: Result<seq<Row>>)
    requires OnlyUnder(data, t.name, key) && data[key] == RowRecord(row) && ScanReturns(data, t, None, widen, r)
    ensures r == Ok([row])
  {
    OneItem(data, t.name, key);
    var items := [(key, RowRecord(row))];
    assert Under(data, t.name) == items && ItemPasses(t, None, items[0], widen) == Yes;
    assert KeptItems(items, 0, t, None, widen) == [];
    assert KeptItems(items, 1, t, None, widen) == [] + [row] == [row];
  }

  lemma OneItem(data: Store, table: Text, key: Bytes)
    requires OnlyUnder(data, table, key)
    ensures key in data && Under(data, table) == [(key, data[key])]
  {
    var keys := set k | k in data && RowPrefix(table) <= k;
    assert key in data && RowPrefix(table) <= key;
    assert keys == {key};
    var sorted := Sorted(keys);
    assert |sorted| == 1 && sorted[0] in sorted;
    assert Entries(data, sorted) == [(key, data[key])];
  }

  lemma NothingSelected(t: Schema, s: TableState, widen: i64 -> real, r: Result<seq<Row>>)
    requires s.rows == map[] && Answers(r, Selected(t, s, None, widen))
    ensures r == Ok([])
  {
    ListsAsMany(r.value, {});
  }

  lemma {:induction false} ListsAsMany(rows: seq<Row>, wanted: set<Row>)
    requires Lists(rows, wanted)
    ensures |rows| == |wanted|
  {
    if rows == [] {
      assert wanted == {};
    } else {
      var front, last := rows[..|rows| - 1], rows[|rows| - 1];
      assert rows == front + [last];
      assert last in rows;
      ListsAsMany(front, wanted - {last});
    }
  }

  /** CREATE TABLE name (a INT PRIMARY KEY, column INT INDEX). */
  function TwoColumns(name: Text, column: Text): (t: Schema)
    requires column != A
    ensures Usable(t) && KeyOf(t) == 0 && t.name == name
    ensures |t.columns| == 2 && t.columns[0].name == A && t.columns[1].name == column && t.columns[1].indexed
    ensures forall i :: 0 <= i < 2 ==> t.columns[i].dataType == IntegerType
  {
    var t := Schema(name, [Column(A, IntegerType, false, None, true, false),
                           Column(column, IntegerType, true, Some(Null), false, true)]);
    assert t.columns[0].primaryKey;
    t
  }

  /** Tables u (a, si) and us (a, i), and rows (1, 5) and (1, 7) in them: `SELECT * FROM us WHERE i = 5` returns
      (1, 7), although the filter drops it. */
  method ForeignEntryIsFound(bits: FloatBits, widen: i64 -> real) returns (read: Result<seq<Row>>, kept: Verdict)
    ensures read == Ok([[Integer(1), Integer(7)]]) && kept == No
  {
    var engine := new MemoryEngine<Record>();
    var kv := new KvTransaction(engine, bits);
    var c, d := [115, 105], [105];
    var u, us := TwoColumns([117], c), TwoColumns([117, 115], d);
    assert u.name + c == us.name + d;
    EntryInOther(kv, u, c, us, d);
    read, kept := ReadByEntry(kv, us, d, widen);
  }

  method ReadByEntry(kv: KvTransaction, us: Schema, d: Text, widen: i64 -> real)
    returns (read: Result<seq<Row>>, kept: Verdict)
    requires d != A && us == TwoColumns(us.name, d)
    requires Stores(kv.txn.data, us, TableState(map[], OneEntry(d, 5)), kv.bits)
    modifies kv.txn
    ensures read == Ok([TwoValues(7)]) && kept == No
  {
    var filter, row := FieldIs(d, Integer(5)), TwoValues(7);
    ghost var later := OneRowMore(kv, us, d);
    RowFoundByEntry(us, d, later, widen);
    read := kv.Select(us.name, Some(filter), widen, us, later);
    if read.Ok? { ListsOne(read.value, row); }
    kept := Keeps(us, filter, row, widen);
    ConstantTest(us, 1, Integer(5), row, widen);
  }

  function TwoValues(v: i64): (row: Row)
    ensures |row| == 2
  {
    [Integer(1), Integer(v)]
  }

  lemma ListsOne(rows: seq<Row>, row: Row)
    requires Lists(rows, {row})
    ensures rows == [row]
  {
    ListsAsMany(rows, {row});
    assert rows[0] in rows;
  }

  function OneEntry(column: Text, v: i64): Index {
    map[(column, Integer(v)) := {Integer(1)}]
  }

  lemma RowEntered(t: Schema, column: Text, index: Index, v: i64)
    requires column != A && t == TwoColumns(t.name, column)
    ensures CreateNext(t, TableState(map[], index), TwoValues(v))
         == Outcome(true, TableState(map[Integer(1) := TwoValues(v)],
              PutIndex(index, column, Integer(v), IndexAt(index, column, Integer(v)) + {Integer(1)})))
  {
    var row := TwoValues(v);
    assert forall i :: 0 <= i < 2 ==> FitsColumn(t.columns[i], row[i]);
    assert EnterIndex(t.columns, 1, index, row, Integer(1)) == index by {
      assert EnterIndex(t.columns, 0, index, row, Integer(1)) == index;
      assert !t.columns[0].indexed;
    }
  }

  lemma FirstEntry(t: Schema, column: Text, v: i64)
    requires column != A && t == TwoColumns(t.name, column)
    ensures CreateNext(t, NEW_TABLE, TwoValues(v))
         == Outcome(true, TableState(map[Integer(1) := TwoValues(v)], OneEntry(column, v)))
  {
    RowEntered(t, column, map[], v);
    assert IndexAt(map[], column, Integer(v)) + {Integer(1)} == {Integer(1)};
  }

  /** The row (1, 7) entered beside the entry of the other table. */
  method OneRowMore(kv: KvTransaction, us: Schema, d: Text) returns (ghost later: TableState)
    requires d != A && us == TwoColumns(us.name, d)
    requires Stores(kv.txn.data, us, TableState(map[], OneEntry(d, 5)), kv.bits)
    modifies kv.txn
    ensures later == CreateNext(us, TableState(map[], OneEntry(d, 5)), TwoValues(7)).state
    ensures Stores(kv.txn.data, us, later, kv.bits)
  {
    var ok := kv.CreateRow(us.name, TwoValues(7), us, TableState(map[], OneEntry(d, 5)));
    later := CreateNext(us, TableState(map[], OneEntry(d, 5)), TwoValues(7)).state;
  }

  lemma RowFoundByEntry(us: Schema, d: Text, later: TableState, widen: i64 -> real)
    requires d != A && us == TwoColumns(us.name, d)
    requires later == CreateNext(us, TableState(map[], OneEntry(d, 5)), TwoValues(7)).state
    ensures Sound(us, later)
    ensures var filter := Some(FieldIs(d, Integer(5)));
      && BuildScan(Some(us), filter) == IndexPlan(d, Integer(5))
      && ParseScanFilter(filter.value) == Found(d, Integer(5))
      && PlannedRows(us, later, BuildScan(Some(us), filter), widen) == Ok({TwoValues(7)})
  {
    CreateKeeps(us, TableState(map[], OneEntry(d, 5)), TwoValues(7));
    RowEntered(us, d, OneEntry(d, 5), 7);
    FieldIsFound(d, Integer(5));
    PlanOfFilter(us, 1, FieldIs(d, Integer(5)), Integer(5));
    assert RowsListed(later, d, Integer(5)) == {TwoValues(7)} by { assert later.rows[Integer(1)] == TwoValues(7); }
  }

  /** The row (1, 5) entered into the one table leaves its entry with the other. */
  method EntryInOther(kv: KvTransaction, u: Schema, c: Text, us: Schema, d: Text)
    requires kv.txn.data == map[] && WellNamed(u) && WellNamed(us) && u.name != us.name && u.name + c == us.name + d
    requires c != A && u == TwoColumns(u.name, c) && d != A && us == TwoColumns(us.name, d)
    modifies kv.txn
    ensures Stores(kv.txn.data, us, TableState(map[], OneEntry(d, 5)), kv.bits)
  {
    CreateTwo(kv, u, us);
    ghost var before := kv.txn.data;
    FirstEntry(u, c, 5);
    var ok := kv.CreateRow(u.name, TwoValues(5), u, NEW_TABLE);
    EntryIsShared(before, kv.txn.data, u, c, us, d, CreateNext(u, NEW_TABLE, TwoValues(5)).state, kv.bits);
  }

  lemma OneEntryShared(data: Store, u: Schema, c: Text, us: Schema, d: Text, s: TableState, v: Value, bits: FloatBits)
    requires c != A && u == TwoColumns(u.name, c) && Identifier(us.name) && Identifier(d) && Machine(v, bits)
    requires Stores(data, u, s, bits) && u.name + c == us.name + d && s.index == OneEntry(c, 5)
    ensures Find(data, Encode(IndexKey(us.name, d, v), bits))
         == if v == Integer(5) then Some(IndexRecord({Integer(1)})) else None
  {
    assert u.columns[1].name == c && IsIndexField(u, c);
    KeysCoincideExactly(IndexKey(u.name, c, v), IndexKey(us.name, d, v), bits);
  }

  lemma EntryIsShared(before: Store, after: Store, u: Schema, c: Text, us: Schema, d: Text, s: TableState,
      bits: FloatBits)
    requires c != A && u == TwoColumns(u.name, c) && d != A && us == TwoColumns(us.name, d)
    requires WellNamed(u) && u.name != us.name && u.name + c == us.name + d
    requires Stores(before, us, NEW_TABLE, bits) && Stores(after, u, s, bits)
    requires OthersKept(before, after, u, false, bits) && s.index == OneEntry(c, 5)
    ensures Stores(after, us, TableState(map[], OneEntry(d, 5)), bits)
  {
    forall id ensures SameAt(before, after, Encode(RowKey(us.name, id), bits)) {
      RowUnwritten(u, us, id, false, bits);
    }
    SchemaUnwritten(u, us, false, bits);
    assert SameAt(before, after, Encode(TableKey(us.name), bits));
    forall v | Machine(v, bits)
      ensures Find(after, Encode(IndexKey(us.name, d, v), bits))
           == if v == Integer(5) then Some(IndexRecord({Integer(1)})) else None
    {
      OneEntryShared(after, u, c, us, d, s, v, bits);
    }
    assert forall e :: IsIndexField(us, e) ==> e == d;
  }
}
