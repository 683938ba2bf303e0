/** The table layer over a transaction's view of the store: rows and index sets under encoded keys. */
module KvTables {
  import opened Ast
  import opened ByteOrder
  import opened KeyCode
  import opened StorageEngine
  import opened TableKeys
  import opened Joins
  import opened Tables
  import opened AccessPaths
  import opened ValueOrder

  /** What a stored value deserializes to. */
  datatype Record = SchemaRecord(schema: Schema) | RowRecord(row: Row) | IndexRecord(ids: set<Value>)

  type Store = map<Bytes, Record>

  // ---------------------------------------------------------------- how a table lies in the store

  ghost predicate WellNamed(t: Schema) {
    Identifier(t.name) && forall i :: 0 <= i < |t.columns| ==> Identifier(t.columns[i].name)
  }

  /** The store holds exactly this state under the keys of this table. It may hold anything under other keys, even
      under keys a scan of this table reads. */
  ghost predicate Stores(data: Store, t: Schema, s: TableState, bits: FloatBits) {
    && WellNamed(t)
    && StoresSchema(data, t, bits)
    && StoresRows(data, t.name, s.rows, bits)
    && StoresIndex(data, t, s.index, bits)
  }

  /** There is a table by this name. */
  ghost predicate HasTable(data: Store, name: Text, bits: FloatBits) {
    Encode(TableKey(name), bits) in data
  }

  ghost predicate StoresSchema(data: Store, t: Schema, bits: FloatBits) {
    Encode(TableKey(t.name), bits) in data && data[Encode(TableKey(t.name), bits)] == SchemaRecord(t)
  }

  ghost predicate StoresRows(data: Store, table: Text, rows: map<Value, Row>, bits: FloatBits) {
    && (forall id :: id in rows ==> Machine(id, bits) && MachineRow(rows[id], bits))
    && (forall id {:trigger Encode(RowKey(table, id), bits)} :: Machine(id, bits) ==>
          Find(data, Encode(RowKey(table, id), bits)) == if id in rows then Some(RowRecord(rows[id])) else None)
  }

  ghost predicate MachineRow(row: Row, bits: FloatBits) {
    forall i :: 0 <= i < |row| ==> Machine(row[i], bits)
  }

  /** No other key lies in the range a scan of the table reads. */
  ghost predicate OnlyRows(data: Store, table: Text, rows: map<Value, Row>, bits: FloatBits) {
    forall key :: key in data && RowPrefix(table) <= key ==> IsRowOf(key, table, rows, bits)
  }

  ghost predicate IsRowOf(key: Bytes, table: Text, rows: map<Value, Row>, bits: FloatBits) {
    exists id :: id in rows && key == Encode(RowKey(table, id), bits)
  }

  ghost predicate StoresIndex(data: Store, t: Schema, index: Index, bits: FloatBits) {
    && (forall c, v :: (c, v) in index ==> IsIndexField(t, c) && Machine(v, bits) && MachineIds(index[(c, v)], bits))
    && (forall c, v {:trigger Encode(IndexKey(t.name, c, v), bits)} :: IsIndexField(t, c) && Machine(v, bits) ==>
          Find(data, Encode(IndexKey(t.name, c, v), bits))
            == if (c, v) in index then Some(IndexRecord(index[(c, v)])) else None)
  }

  /** Stored index sets are not empty. */
  ghost predicate MachineIds(ids: set<Value>, bits: FloatBits) {
    ids != {} && forall id :: id in ids ==> Machine(id, bits)
  }

  lemma RowSet(data: Store, t: Schema, s: TableState, id: Value, row: Row, bits: FloatBits)
    requires Stores(data, t, s, bits) && Machine(id, bits) && MachineRow(row, bits)
    ensures Stores(data[Encode(RowKey(t.name, id), bits) := RowRecord(row)], t, s.(rows := s.rows[id := row]), bits)
  {
    var key := Encode(RowKey(t.name, id), bits);
    OtherKinds(t, key, RowKey(t.name, id), bits);
    OnlyKey(t.name, id, bits);
    assert StoresIndex(data[key := RowRecord(row)], t, s.index, bits);
  }

  lemma RowRemoved(data: Store, t: Schema, s: TableState, id: Value, bits: FloatBits)
    requires Stores(data, t, s, bits) && Machine(id, bits)
    ensures Stores(data - {Encode(RowKey(t.name, id), bits)}, t, s.(rows := s.rows - {id}), bits)
  {
    var key := Encode(RowKey(t.name, id), bits);
    OtherKinds(t, key, RowKey(t.name, id), bits);
    OnlyKey(t.name, id, bits);
    assert StoresIndex(data - {key}, t, s.index, bits);
  }

  lemma OnlyKey(table: Text, id: Value, bits: FloatBits)
    requires Identifier(table) && Machine(id, bits)
    ensures forall k :: Machine(k, bits) ==>
      (Encode(RowKey(table, k), bits) == Encode(RowKey(table, id), bits) <==> k == id)
  {
    forall k | Machine(k, bits)
      ensures Encode(RowKey(table, k), bits) == Encode(RowKey(table, id), bits) <==> k == id
    {
      KeysCoincideExactly(RowKey(table, k), RowKey(table, id), bits);
    }
  }

  /** Keys of one kind are never keys of another. */
  lemma OtherKinds(t: Schema, key: Bytes, k: Key, bits: FloatBits)
    requires WellNamed(t) && ProperlyNamed(k) && key == Encode(k, bits)
    ensures !k.TableKey? ==> key != Encode(TableKey(t.name), bits)
    ensures !k.RowKey? ==> forall id :: key != Encode(RowKey(t.name, id), bits)
    ensures !k.RowKey? ==> !(RowPrefix(t.name) <= key)
    ensures !k.IndexKey? ==> forall c, v :: Identifier(c) ==> key != Encode(IndexKey(t.name, c, v), bits)
  {
    assert key[0] == Tag(k);
    assert Encode(TableKey(t.name), bits)[0] == 0;
    forall id ensures Encode(RowKey(t.name, id), bits)[0] == 1 {}
    forall c, v ensures Encode(IndexKey(t.name, c, v), bits)[0] == 2 {}
    RowPrefixExact(t.name, k, bits);
  }

  lemma IndexPut(data: Store, t: Schema, s: TableState, c: Text, v: Value, ids: set<Value>, bits: FloatBits)
    requires Stores(data, t, s, bits) && IsIndexField(t, c) && Machine(v, bits) && (ids == {} || MachineIds(ids, bits))
    ensures Stores(WithEntry(data, t.name, c, v, ids, bits), t, s.(index := PutIndex(s.index, c, v, ids)), bits)
  {
    var key := Encode(IndexKey(t.name, c, v), bits);
    OtherKinds(t, key, IndexKey(t.name, c, v), bits);
    var data' := WithEntry(data, t.name, c, v, ids, bits);
    assert forall k :: k != key ==> Find(data', k) == Find(data, k);
    IndexEntryPut(data, t, s.index, c, v, ids, bits);
    assert StoresRows(data', t.name, s.rows, bits);
  }

  ghost function WithEntry(data: Store, table: Text, c: Text, v: Value, ids: set<Value>, bits: FloatBits): Store {
    var key := Encode(IndexKey(table, c, v), bits);
    if ids == {} then data - {key} else data[key := IndexRecord(ids)]
  }

  lemma IndexEntryPut(data: Store, t: Schema, index: Index, c: Text, v: Value, ids: set<Value>, bits: FloatBits)
    requires WellNamed(t) && StoresIndex(data, t, index, bits) && IsIndexField(t, c) && Machine(v, bits)
    requires ids == {} || MachineIds(ids, bits)
    ensures StoresIndex(WithEntry(data, t.name, c, v, ids, bits), t, PutIndex(index, c, v, ids), bits)
  {
    var key := Encode(IndexKey(t.name, c, v), bits);
    forall d, w | Identifier(d) && Machine(w, bits)
      ensures Encode(IndexKey(t.name, d, w), bits) == key <==> d == c && w == v
    {
      KeysCoincideExactly(IndexKey(t.name, d, w), IndexKey(t.name, c, v), bits);
      assert (t.name + d)[|t.name|..] == d && (t.name + c)[|t.name|..] == c;
    }
  }

  // ---------------------------------------------------------------- what operations write

  /** The keys row operations on a table may write. */
  ghost predicate OfTable(key: Bytes, t: Schema, bits: FloatBits) {
    || (exists id :: IsRowKey(key, t.name, id, bits))
    || (exists i: nat, v :: IsEntryKey(key, t, i, v, bits))
  }

  ghost predicate IsRowKey(key: Bytes, table: Text, id: Value, bits: FloatBits) {
    Machine(id, bits) && key == Encode(RowKey(table, id), bits)
  }

  ghost predicate IsEntryKey(key: Bytes, t: Schema, i: nat, v: Value, bits: FloatBits) {
    && i < |t.columns| && t.columns[i].indexed && Machine(v, bits)
    && key == Encode(IndexKey(t.name, t.columns[i].name, v), bits)
  }

  /** Dropping the table deletes all that a scan of it reads. */
  ghost predicate Writes(key: Bytes, t: Schema, drops: bool, bits: FloatBits) {
    OfTable(key, t, bits) || (drops && RowPrefix(t.name) <= key)
  }

  ghost predicate OthersKept(before: Store, after: Store, t: Schema, drops: bool, bits: FloatBits) {
    forall key :: !Writes(key, t, drops, bits) ==> Find(before, key) == Find(after, key)
  }

  /** Where the row range held nothing but the rows, row operations keep it so. */
  lemma OnlyRowsKept(before: Store, after: Store, t: Schema, s: TableState, s': TableState, bits: FloatBits)
    requires Stores(before, t, s, bits) && Stores(after, t, s', bits) && OthersKept(before, after, t, false, bits)
    requires OnlyRows(before, t.name, s.rows, bits)
    ensures OnlyRows(after, t.name, s'.rows, bits)
  {
    forall key | key in after && RowPrefix(t.name) <= key ensures IsRowOf(key, t.name, s'.rows, bits) {
      if id :| IsRowKey(key, t.name, id, bits) {
        assert Find(after, Encode(RowKey(t.name, id), bits)).Some?;
      } else if i: nat, v :| IsEntryKey(key, t, i, v, bits) {
        RowPrefixExact(t.name, IndexKey(t.name, t.columns[i].name, v), bits);
      } else {
        assert Find(before, key) == Find(after, key) && IsRowOf(key, t.name, s.rows, bits);
        var id :| id in s.rows && key == Encode(RowKey(t.name, id), bits);
        assert IsRowKey(key, t.name, id, bits);
      }
    }
  }

  // ---------------------------------------------------------------- what scans read

  ghost function KeyBytes(row: Row, t: Schema, bits: FloatBits): Bytes
    requires Usable(t) && |t.columns| <= |row|
  {
    Encode(RowKey(t.name, row[KeyOf(t)]), bits)
  }

  ghost predicate InKeyOrder(rows: seq<Row>, t: Schema, bits: FloatBits)
    requires Usable(t)
  {
    && (forall i :: 0 <= i < |rows| ==> |t.columns| <= |rows[i]|)
    && (forall i, j :: 0 <= i < j < |rows| ==> KeyBefore(rows[i], rows[j], t, bits))
  }

  ghost predicate KeyBefore(row: Row, next: Row, t: Schema, bits: FloatBits) {
    && Usable(t)
    && |t.columns| <= |row| && |t.columns| <= |next|
    && Less(KeyBytes(row, t, bits), KeyBytes(next, t, bits))
  }

  /** The rows of a set, once each. */
  ghost predicate Lists(rows: seq<Row>, wanted: set<Row>) {
    && (forall row :: row in rows <==> row in wanted)
    && (forall i, j :: 0 <= i < j < |rows| ==> rows[i] != rows[j])
  }

  ghost predicate Reads(items: seq<(Bytes, Record)>, rows: seq<Row>) {
    |items| == |rows| && forall i :: 0 <= i < |rows| ==> items[i].1 == RowRecord(rows[i])
  }

  ghost predicate IsRow(s: TableState, row: Row) {
    exists id :: id in s.rows && s.rows[id] == row
  }

  ghost predicate AllRows(rows: seq<Row>, s: TableState) {
    forall row :: row in rows <==> IsRow(s, row)
  }

  /** What a scan of a table reads: all there is under its row prefix. */
  ghost function Under(data: Store, table: Text): seq<(Bytes, Record)> {
    Entries(data, Sorted(set k | k in data && RowPrefix(table) <= k))
  }

  /** Where nothing but its rows is there, that is the rows of the table, all of them, once each. */
  lemma ScanReadsRows(data: Store, t: Schema, s: TableState, bits: FloatBits) returns (rows: seq<Row>)
    requires Stores(data, t, s, bits) && OnlyRows(data, t.name, s.rows, bits) && Usable(t) && Sound(t, s)
    ensures Reads(Under(data, t.name), rows)
    ensures InKeyOrder(rows, t, bits) && AllRows(rows, s)
  {
    var keys := set k | k in data && RowPrefix(t.name) <= k;
    var items := Entries(data, Sorted(keys));
    EntriesAre(data, keys);
    forall i | 0 <= i < |items| ensures ItemIsRow(items[i], t, s, bits) {
      assert (items[i].0, items[i].1) in items;
      RowOfItem(data, t, s, items[i].0, bits);
    }
    forall id | id in s.rows ensures (Encode(RowKey(t.name, id), bits), RowRecord(s.rows[id])) in items {
      ItemOfRow(data, t, s, id, bits);
    }
    rows := RowsRead(items, t, s, bits);
    EveryRowIsRead(items, rows, t, s, bits);
  }

  lemma EveryRowIsRead(items: seq<(Bytes, Record)>, rows: seq<Row>, t: Schema, s: TableState, bits: FloatBits)
    requires Reads(items, rows)
    requires forall id :: id in s.rows ==> (Encode(RowKey(t.name, id), bits), RowRecord(s.rows[id])) in items
    ensures forall row :: IsRow(s, row) ==> row in rows
  {
  }

  lemma RowsRead(items: seq<(Bytes, Record)>, t: Schema, s: TableState, bits: FloatBits) returns (rows: seq<Row>)
    requires Usable(t) && forall i :: 0 <= i < |items| ==> ItemIsRow(items[i], t, s, bits)
    requires forall i, j :: 0 <= i < j < |items| ==> Less(items[i].0, items[j].0)
    ensures Reads(items, rows) && InKeyOrder(rows, t, bits)
    ensures forall row :: row in rows ==> IsRow(s, row)
  {
    rows := seq(|items|, i requires 0 <= i < |items| && ItemIsRow(items[i], t, s, bits) => items[i].1.row);
    forall i | 0 <= i < |rows|
      ensures |t.columns| <= |rows[i]| && items[i].1 == RowRecord(rows[i])
      ensures items[i].0 == KeyBytes(rows[i], t, bits) && IsRow(s, rows[i])
    {
      assert ItemIsRow(items[i], t, s, bits);
    }
  }

  lemma ItemOfRow(data: Store, t: Schema, s: TableState, id: Value, bits: FloatBits)
    requires Stores(data, t, s, bits) && id in s.rows
    ensures var key := Encode(RowKey(t.name, id), bits);
      key in data && data[key] == RowRecord(s.rows[id]) && RowPrefix(t.name) <= key
  {
  }

  ghost predicate ItemIsRow(item: (Bytes, Record), t: Schema, s: TableState, bits: FloatBits)
    requires Usable(t)
  {
    && item.1.RowRecord? && |t.columns| <= |item.1.row| && item.0 == KeyBytes(item.1.row, t, bits)
    && IsRow(s, item.1.row)
  }

  lemma RowOfItem(data: Store, t: Schema, s: TableState, key: Bytes, bits: FloatBits)
    requires Stores(data, t, s, bits) && OnlyRows(data, t.name, s.rows, bits) && Usable(t) && Sound(t, s)
    requires key in data && RowPrefix(t.name) <= key
    ensures ItemIsRow((key, data[key]), t, s, bits)
  {
  }

  function Passes(t: Schema, filter: Option<Expression>, row: Row, widen: i64 -> real): Verdict {
    if filter.None? then Yes else if |row| < |t.columns| then Bad else Keeps(t, filter.value, row, widen)
  }

  function Filtered(rows: seq<Row>, n: nat, t: Schema, filter: Option<Expression>, widen: i64 -> real): seq<Row>
    requires n <= |rows|
  {
    if n == 0 then [] else
      Filtered(rows, n - 1, t, filter, widen)
        + (if Passes(t, filter, rows[n - 1], widen) == Yes then [rows[n - 1]] else [])
  }

  /** A stored value that is not a row fails to deserialize. */
  function ItemPasses(t: Schema, filter: Option<Expression>, item: (Bytes, Record), widen: i64 -> real): Verdict {
    if item.1.RowRecord? then Passes(t, filter, item.1.row, widen) else Bad
  }

  function KeptItems(items: seq<(Bytes, Record)>, n: nat, t: Schema, filter: Option<Expression>, widen: i64 -> real)
    : seq<Row>
    requires n <= |items|
  {
    if n == 0 then [] else
      KeptItems(items, n - 1, t, filter, widen)
        + (if ItemPasses(t, filter, items[n - 1], widen) == Yes then [items[n - 1].1.row] else [])
  }

  /** What a scan returns, whoever the rows it reads belong to. */
  ghost predicate ScanReturns(data: Store, t: Schema, filter: Option<Expression>, widen: i64 -> real,
      r: Result<seq<Row>>) {
    var items := Under(data, t.name);
    && (r.Err? <==> exists i :: 0 <= i < |items| && ItemPasses(t, filter, items[i], widen) == Bad)
    && (r.Ok? ==> r.value == KeptItems(items, |items|, t, filter, widen))
  }

  /** A filter can be evaluated on all that a scan has read. */
  ghost predicate LongEnough(items: seq<(Bytes, Record)>, t: Schema) {
    forall i :: 0 <= i < |items| && items[i].1.RowRecord? ==> |t.columns| <= |items[i].1.row|
  }

  /** The answer has the wanted rows, once each, or there is an error where one is wanted. */
  ghost predicate Answers(r: Result<seq<Row>>, wanted: Result<set<Row>>) {
    (r.Ok? <==> wanted.Ok?) && (r.Ok? ==> Lists(r.value, wanted.value))
  }

  lemma OwnRowsAreLongEnough(data: Store, t: Schema, s: TableState, bits: FloatBits)
    requires Stores(data, t, s, bits) && OnlyRows(data, t.name, s.rows, bits) && RowsLongEnough(t, s)
    ensures LongEnough(Under(data, t.name), t)
  {
    var items := Under(data, t.name);
    EntriesAre(data, set key | key in data && RowPrefix(t.name) <= key);
    forall i | 0 <= i < |items| ensures items[i].1.RowRecord? ==> |t.columns| <= |items[i].1.row| {
      assert (items[i].0, items[i].1) in items;
      OwnRowIsLongEnough(data, t, s, items[i].0, bits);
    }
  }

  lemma OwnRowIsLongEnough(data: Store, t: Schema, s: TableState, key: Bytes, bits: FloatBits)
    requires Stores(data, t, s, bits) && OnlyRows(data, t.name, s.rows, bits) && RowsLongEnough(t, s)
    requires key in data && RowPrefix(t.name) <= key
    ensures data[key].RowRecord? && |t.columns| <= |data[key].row|
  {
    assert IsRowOf(key, t.name, s.rows, bits);
  }

  lemma {:induction false} KeptAreFiltered(items: seq<(Bytes, Record)>, rows: seq<Row>, n: nat, t: Schema,
      filter: Option<Expression>, widen: i64 -> real)
    requires Reads(items, rows) && n <= |items|
    ensures KeptItems(items, n, t, filter, widen) == Filtered(rows, n, t, filter, widen)
  {
    if n > 0 { KeptAreFiltered(items, rows, n - 1, t, filter, widen); }
  }

  /** Where nothing but the rows of the table is there, a scan returns the rows the filter keeps. */
  lemma ScanIsSelected(data: Store, t: Schema, s: TableState, filter: Option<Expression>, widen: i64 -> real,
      bits: FloatBits, r: Result<seq<Row>>)
    requires Stores(data, t, s, bits) && OnlyRows(data, t.name, s.rows, bits) && Usable(t) && Sound(t, s)
    requires ScanReturns(data, t, filter, widen, r)
    ensures Answers(r, Selected(t, s, filter, widen)) && (r.Ok? ==> InKeyOrder(r.value, t, bits))
  {
    var rows := ScanReadsRows(data, t, s, bits);
    FilteredIsSelected(rows, t, s, filter, widen, bits);
    KeptAreFiltered(Under(data, t.name), rows, |rows|, t, filter, widen);
    assert forall i :: 0 <= i < |rows| ==>
      ItemPasses(t, filter, Under(data, t.name)[i], widen) == Passes(t, filter, rows[i], widen);
  }

  /** Reading the whole table returns its rows, once each, exactly when nothing else is there. */
  lemma ScanIsExact(data: Store, t: Schema, s: TableState, widen: i64 -> real, bits: FloatBits, r: Result<seq<Row>>)
    requires Stores(data, t, s, bits) && Usable(t) && Sound(t, s) && ScanReturns(data, t, None, widen, r)
    ensures Answers(r, Selected(t, s, None, widen)) <==> OnlyRows(data, t.name, s.rows, bits)
  {
    if OnlyRows(data, t.name, s.rows, bits) { ScanIsSelected(data, t, s, None, widen, bits, r); }
    if Answers(r, Selected(t, s, None, widen)) {
      forall key | key in data && RowPrefix(t.name) <= key ensures IsRowOf(key, t.name, s.rows, bits) {
        KeptIsOwn(data, t, s, widen, bits, key, r.value);
      }
    }
  }

  /** If the scan returns the rows of the table once each, any key it reads is the key of the row it reads there. */
  lemma KeptIsOwn(data: Store, t: Schema, s: TableState, widen: i64 -> real, bits: FloatBits, key: Bytes,
      rows: seq<Row>)
    requires Stores(data, t, s, bits) && key in data && RowPrefix(t.name) <= key
    requires ScanReturns(data, t, None, widen, Ok(rows)) && Lists(rows, set id | id in s.rows :: s.rows[id])
    ensures IsRowOf(key, t.name, s.rows, bits)
  {
    var items := Under(data, t.name);
    ReadUnder(data, t.name, key);
    var i := AllAreKept(items, key, data[key], t, widen);
    assert rows[i] in rows;
    var id :| id in s.rows && s.rows[id] == rows[i];
    ItemOfRow(data, t, s, id, bits);
    ReadUnder(data, t.name, Encode(RowKey(t.name, id), bits));
    var j := AllAreKept(items, Encode(RowKey(t.name, id), bits), RowRecord(s.rows[id]), t, widen);
  }

  lemma ReadUnder(data: Store, table: Text, key: Bytes)
    requires key in data && RowPrefix(table) <= key
    ensures exists i :: 0 <= i < |Under(data, table)| && Under(data, table)[i] == (key, data[key])
  {
    EntriesAre(data, set k | k in data && RowPrefix(table) <= k);
    assert (key, data[key]) in Under(data, table);
  }

  lemma AllAreKept(items: seq<(Bytes, Record)>, key: Bytes, record: Record, t: Schema, widen: i64 -> real)
    returns (i: nat)
    requires forall j :: 0 <= j < |items| ==> ItemPasses(t, None, items[j], widen) != Bad
    requires exists j :: 0 <= j < |items| && items[j] == (key, record)
    ensures i < |items| == |KeptItems(items, |items|, t, None, widen)| && items[i].0 == key
    ensures record == RowRecord(KeptItems(items, |items|, t, None, widen)[i])
  {
    i :| i < |items| && items[i] == (key, record);
    KeptInPlace(items, |items|, t, widen);
  }

  lemma {:induction false} KeptInPlace(items: seq<(Bytes, Record)>, n: nat, t: Schema, widen: i64 -> real)
    requires n <= |items| && forall j :: 0 <= j < n ==> ItemPasses(t, None, items[j], widen) != Bad
    ensures var kept := KeptItems(items, n, t, None, widen);
      |kept| == n && forall j :: 0 <= j < n ==> items[j].1 == RowRecord(kept[j])
  {
    if n > 0 { KeptInPlace(items, n - 1, t, widen); }
  }

  lemma {:induction false} FilteredMembers(rows: seq<Row>, n: nat, t: Schema, filter: Option<Expression>,
      widen: i64 -> real, row: Row)
    requires n <= |rows|
    ensures row in Filtered(rows, n, t, filter, widen) <==> row in rows[..n] && Passes(t, filter, row, widen) == Yes
  {
    if n > 0 {
      FilteredMembers(rows, n - 1, t, filter, widen, row);
      assert rows[..n] == rows[..n - 1] + [rows[n - 1]];
    }
  }

  ghost predicate Ordered(rows: seq<Row>, before: (Row, Row) -> bool) {
    forall i, j :: 0 <= i < j < |rows| ==> before(rows[i], rows[j])
  }

  /** Filtering keeps any order. */
  lemma {:induction false} FilteredOrdered(rows: seq<Row>, n: nat, t: Schema, filter: Option<Expression>,
      widen: i64 -> real, before: (Row, Row) -> bool)
    requires n <= |rows| && Ordered(rows, before)
    ensures Ordered(Filtered(rows, n, t, filter, widen), before)
  {
    if n > 0 {
      var front, last := Filtered(rows, n - 1, t, filter, widen), rows[n - 1];
      FilteredOrdered(rows, n - 1, t, filter, widen, before);
      forall i | 0 <= i < |front| ensures before(front[i], last) {
        FilteredMembers(rows, n - 1, t, filter, widen, front[i]);
        BeforeLast(rows, n - 1, front[i], before);
      }
      assert Ordered(front + [last], before);
      assert front + [] == front;
    }
  }

  lemma BeforeLast(rows: seq<Row>, n: nat, row: Row, before: (Row, Row) -> bool)
    requires n < |rows| && Ordered(rows, before) && row in rows[..n]
    ensures before(row, rows[n])
  {
    var k :| 0 <= k < |rows[..n]| && rows[..n][k] == row;
    assert rows[k] == row;
  }

  lemma FilteredInOrder(rows: seq<Row>, t: Schema, filter: Option<Expression>, widen: i64 -> real, bits: FloatBits)
    requires Usable(t) && InKeyOrder(rows, t, bits)
    ensures InKeyOrder(Filtered(rows, |rows|, t, filter, widen), t, bits)
  {
    var kept := Filtered(rows, |rows|, t, filter, widen);
    FilteredOrdered(rows, |rows|, t, filter, widen, (row, next) => KeyBefore(row, next, t, bits));
    forall i | 0 <= i < |kept| ensures |t.columns| <= |kept[i]| {
      FilteredMembers(rows, |rows|, t, filter, widen, kept[i]);
      assert rows[..|rows|] == rows;
    }
  }

  lemma FilteredIsSelected(rows: seq<Row>, t: Schema, s: TableState, filter: Option<Expression>, widen: i64 -> real,
      bits: FloatBits)
    requires Usable(t) && Sound(t, s) && InKeyOrder(rows, t, bits) && AllRows(rows, s)
    ensures (exists i :: 0 <= i < |rows| && Passes(t, filter, rows[i], widen) == Bad)
       <==> Selected(t, s, filter, widen).Err?
    ensures var kept := Filtered(rows, |rows|, t, filter, widen);
      InKeyOrder(kept, t, bits)
      && (Selected(t, s, filter, widen).Ok? ==> Lists(kept, Selected(t, s, filter, widen).value))
  {
    var kept := Filtered(rows, |rows|, t, filter, widen);
    FilteredInOrder(rows, t, filter, widen, bits);
    OrderedAreDistinct(kept, t, bits);
    BadRowFound(rows, t, s, filter, widen);
    if Selected(t, s, filter, widen).Ok? {
      forall row ensures row in kept <==> row in Selected(t, s, filter, widen).value {
        FilteredMembers(rows, |rows|, t, filter, widen, row);
        assert rows[..|rows|] == rows;
        SelectedMembers(t, s, filter, widen, row);
      }
    }
  }

  lemma OrderedAreDistinct(rows: seq<Row>, t: Schema, bits: FloatBits)
    requires Usable(t) && InKeyOrder(rows, t, bits)
    ensures forall i, j :: 0 <= i < j < |rows| ==> rows[i] != rows[j]
  {
    forall i, j | 0 <= i < j < |rows| ensures rows[i] != rows[j] { LessIrreflexive(KeyBytes(rows[i], t, bits)); }
  }

  lemma BadRowFound(rows: seq<Row>, t: Schema, s: TableState, filter: Option<Expression>, widen: i64 -> real)
    requires RowsLongEnough(t, s) && AllRows(rows, s)
    ensures (exists i :: 0 <= i < |rows| && Passes(t, filter, rows[i], widen) == Bad)
       <==> Selected(t, s, filter, widen).Err?
  {
    if i :| 0 <= i < |rows| && Passes(t, filter, rows[i], widen) == Bad {
      assert rows[i] in rows && IsRow(s, rows[i]);
    }
    if Selected(t, s, filter, widen).Err? {
      var id :| id in s.rows && Keeps(t, filter.value, s.rows[id], widen) == Bad;
      assert IsRow(s, s.rows[id]) && s.rows[id] in rows;
    }
  }

  lemma SelectedMembers(t: Schema, s: TableState, filter: Option<Expression>, widen: i64 -> real, row: Row)
    requires RowsLongEnough(t, s) && Selected(t, s, filter, widen).Ok?
    ensures row in Selected(t, s, filter, widen).value <==> IsRow(s, row) && Passes(t, filter, row, widen) == Yes
  {
  }

  /** A full scan returns what it reads; a plan returns its rows, a full scan if nothing else is under its prefix. */
  ghost predicate PlanAnswered(data: Store, t: Schema, s: TableState, plan: Plan, widen: i64 -> real, bits: FloatBits,
      r: Result<seq<Row>>)
    requires RowsLongEnough(t, s)
  {
    && (plan.ScanPlan? ==> ScanReturns(data, t, plan.filter, widen, r))
    && (!plan.ScanPlan? || OnlyRows(data, t.name, s.rows, bits) ==> Answers(r, PlannedRows(t, s, plan, widen)))
  }

  lemma PlanIsNamed(t: Schema, filter: Option<Expression>)
    ensures var plan := BuildScan(Some(t), filter);
      && (plan.ScanPlan? ==> plan.filter == filter)
      && (plan.IndexPlan? ==> IsIndexField(t, plan.field))
      && (plan.KeyPlan? || plan.IndexPlan? ==>
            filter.Some? && ParseScanFilter(filter.value).Found? && plan.value == ParseScanFilter(filter.value).value)
  {
  }

  // ---------------------------------------------------------------- the operations

  class KvTransaction {
    /** What the transaction reads and writes: its own view of the store. */
    const txn: MemoryEngine<Record>
    const bits: FloatBits

    constructor (txn: MemoryEngine<Record>, bits: FloatBits)
      ensures this.txn == txn && this.bits == bits
    {
      this.txn, this.bits := txn, bits;
    }

    method MustGetTable(name: Text) returns (r: Result<Schema>)
      ensures r == match Find<Record>(txn.data, Encode(TableKey(name), bits))
                   case Some(SchemaRecord(t)) => Ok(t) case _ => Err
    {
      var key := EncodeKey(TableKey(name), bits);
      var found := txn.Get(key);
      match found {
        case Some(SchemaRecord(t)) => return Ok(t);
        case _ => return Err;
      }
    }

    method ReadById(name: Text, id: Value) returns (r: Result<Option<Row>>)
      ensures r == match Find<Record>(txn.data, Encode(RowKey(name, id), bits))
                   case None => Ok(None) case Some(RowRecord(row)) => Ok(Some(row)) case _ => Err
    {
      var key := EncodeKey(RowKey(name, id), bits);
      var found := txn.Get(key);
      match found {
        case None => return Ok(None);
        case Some(RowRecord(row)) => return Ok(Some(row));
        case _ => return Err;
      }
    }

    method LoadIndex(name: Text, column: Text, v: Value) returns (r: Result<set<Value>>)
      ensures r == match Find<Record>(txn.data, Encode(IndexKey(name, column, v), bits))
                   case None => Ok({}) case Some(IndexRecord(ids)) => Ok(ids) case _ => Err
    {
      var key := EncodeKey(IndexKey(name, column, v), bits);
      var found := txn.Get(key);
      match found {
        case None => return Ok({});
        case Some(IndexRecord(ids)) => return Ok(ids);
        case _ => return Err;
      }
    }

    method SaveIndex(name: Text, column: Text, v: Value, ids: set<Value>)
      modifies txn
      ensures txn.data == WithEntry(old(txn.data), name, column, v, ids, bits)
    {
      var key := EncodeKey(IndexKey(name, column, v), bits);
      if ids == {} { txn.Delete(key); } else { txn.Set(key, IndexRecord(ids)); }
    }

    /** Puts an id into the index set of one value, or takes it out. */
    method ChangeEntry(t: Schema, i: nat, v: Value, id: Value, listed: bool, ghost s: TableState) returns (ok: bool)
      requires Stores(txn.data, t, s, bits) && i < |t.columns| && t.columns[i].indexed
      requires Machine(v, bits) && Machine(id, bits)
      modifies txn
      ensures ok && OthersKept(old(txn.data), txn.data, t, false, bits)
      ensures var name := t.columns[i].name;
        var ids := if listed then IndexAt(s.index, name, v) + {id} else IndexAt(s.index, name, v) - {id};
        Stores(txn.data, t, s.(index := PutIndex(s.index, name, v, ids)), bits)
    {
      var loaded := LoadIndex(t.name, t.columns[i].name, v);
      assert loaded == Ok(IndexAt(s.index, t.columns[i].name, v));
      if loaded.Err? { return false; }
      var index := if listed then loaded.value + {id} else loaded.value - {id};
      IndexPut(txn.data, t, s, t.columns[i].name, v, index, bits);
      SaveIndex(t.name, t.columns[i].name, v, index);
      assert IsEntryKey(Encode(IndexKey(t.name, t.columns[i].name, v), bits), t, i, v, bits);
      return true;
    }

    method CreateRow(name: Text, row: Row, ghost t: Schema, ghost s: TableState) returns (ok: bool)
      requires Usable(t) && name == t.name && |t.columns| <= |row| && MachineRow(row, bits)
      requires HasTable(txn.data, name, bits) ==> Stores(txn.data, t, s, bits)
      modifies txn
      ensures !HasTable(old(txn.data), name, bits) ==> !ok && txn.data == old(txn.data)
      ensures HasTable(old(txn.data), name, bits) ==>
        && ok == CreateNext(t, s, row).ok
        && Stores(txn.data, t, CreateNext(t, s, row).state, bits)
        && OthersKept(old(txn.data), txn.data, t, false, bits)
    {
      var found := MustGetTable(name);
      assert HasTable(txn.data, name, bits) ==> found == Ok(t);
      if found.Err? { return false; }
      var table := found.value;
      ok := CheckRow(table, row);
      if !ok { return; }
      var pk := row[KeyPosition(table.columns)];
      var id := EncodeKey(RowKey(name, pk), bits);
      var existing := txn.Get(id);
      assert existing == if pk in s.rows then Some(RowRecord(s.rows[pk])) else None;
      if existing.Some? { return false; }
      RowSet(txn.data, t, s, pk, row, bits);
      assert IsRowKey(id, t.name, pk, bits);
      txn.Set(id, RowRecord(row));
      ok := EnterRow(table, row, pk, TableState(s.rows[pk := row], s.index));
    }

    static method CheckRow(table: Schema, row: Row) returns (ok: bool)
      requires |table.columns| <= |row|
      ensures ok <==> Admitted(table, row)
    {
      for i := 0 to |table.columns|
        invariant forall j :: 0 <= j < i ==> FitsColumn(table.columns[j], row[j])
      {
        match TypeOf(row[i]) {
          case None => if !table.columns[i].nullable { return false; }
          case Some(dataType) => if dataType != table.columns[i].dataType { return false; }
        }
      }
      return true;
    }

    /** The index loop of `create_row`. */
    method EnterRow(table: Schema, row: Row, pk: Value, ghost s: TableState) returns (ok: bool)
      requires Stores(txn.data, table, s, bits) && |table.columns| <= |row|
      requires MachineRow(row, bits) && Machine(pk, bits)
      modifies txn
      ensures ok && OthersKept(old(txn.data), txn.data, table, false, bits)
      ensures Stores(txn.data, table, s.(index := EnterIndex(table.columns, |table.columns|, s.index, row, pk)), bits)
    {
      for i := 0 to |table.columns|
        invariant Stores(txn.data, table, s.(index := EnterIndex(table.columns, i, s.index, row, pk)), bits)
        invariant OthersKept(old(txn.data), txn.data, table, false, bits)
      {
        var done := EnterColumn(table, i, row, pk, s);
        if !done { return false; }
      }
      return true;
    }

    /** One turn of that loop. */
    method EnterColumn(table: Schema, i: nat, row: Row, pk: Value, ghost s: TableState) returns (ok: bool)
      requires i < |table.columns| <= |row| && MachineRow(row, bits) && Machine(pk, bits)
      requires Stores(txn.data, table, s.(index := EnterIndex(table.columns, i, s.index, row, pk)), bits)
      modifies txn
      ensures ok && OthersKept(old(txn.data), txn.data, table, false, bits)
      ensures Stores(txn.data, table, s.(index := EnterIndex(table.columns, i + 1, s.index, row, pk)), bits)
    {
      if !table.columns[i].indexed { return true; }
      ok := ChangeEntry(table, i, row[i], pk, true, s.(index := EnterIndex(table.columns, i, s.index, row, pk)));
    }

    /** A new primary key deletes the old row before the new one is checked. */
    method UpdateRow(table: Schema, id: Value, row: Row, ghost s: TableState) returns (ok: bool)
      requires Stores(txn.data, table, s, bits) && Usable(table) && |table.columns| <= |row| && MachineRow(row, bits)
      requires RowsLongEnough(table, s) && Machine(id, bits)
      modifies txn
      ensures ok == UpdateNext(table, s, id, row).ok
      ensures Stores(txn.data, table, UpdateNext(table, s, id, row).state, bits)
      ensures OthersKept(old(txn.data), txn.data, table, false, bits)
    {
      var newPk := row[KeyPosition(table.columns)];
      if id != newPk {
        ok := DeleteRow(table, id, s);
        if !ok { return false; }
        ok := CreateRow(table.name, row, table, DeleteNext(s, id));
        return;
      }
      ok := UpdateInPlace(table, id, row, s);
    }

    method UpdateInPlace(table: Schema, id: Value, row: Row, ghost s: TableState) returns (ok: bool)
      requires Stores(txn.data, table, s, bits) && |table.columns| <= |row| && MachineRow(row, bits)
      requires RowsLongEnough(table, s) && Machine(id, bits)
      modifies txn
      ensures ok && OthersKept(old(txn.data), txn.data, table, false, bits)
      ensures Stores(txn.data, table, TableState(s.rows[id := row], MovedIndex(table, s, id, row)), bits)
    {
      ok := MoveRow(table, id, row, s);
      if !ok { return false; }
      var key := EncodeKey(RowKey(table.name, id), bits);
      RowSet(txn.data, table, s.(index := MovedIndex(table, s, id, row)), id, row, bits);
      assert IsRowKey(key, table.name, id, bits);
      txn.Set(key, RowRecord(row));
      return true;
    }

    /** The index loop of `update_row`, which reads the old row again for each column. */
    method MoveRow(table: Schema, id: Value, row: Row, ghost s: TableState) returns (ok: bool)
      requires Stores(txn.data, table, s, bits) && |table.columns| <= |row| && MachineRow(row, bits)
      requires RowsLongEnough(table, s) && Machine(id, bits)
      modifies txn
      ensures ok && OthersKept(old(txn.data), txn.data, table, false, bits)
      ensures Stores(txn.data, table, s.(index := MovedIndex(table, s, id, row)), bits)
    {
      for i := 0 to |table.columns|
        invariant Stores(txn.data, table, s.(index := MovedUpTo(table, s, id, row, i)), bits)
        invariant OthersKept(old(txn.data), txn.data, table, false, bits)
      {
        var done := MoveIfChanged(table, i, id, row, s);
        if !done { return false; }
      }
      return true;
    }

    /** One turn of that loop. */
    method MoveIfChanged(table: Schema, i: nat, id: Value, row: Row, ghost s: TableState) returns (ok: bool)
      requires i < |table.columns| <= |row| && MachineRow(row, bits) && RowsLongEnough(table, s) && Machine(id, bits)
      requires Stores(txn.data, table, s.(index := MovedUpTo(table, s, id, row, i)), bits)
      modifies txn
      ensures ok && OthersKept(old(txn.data), txn.data, table, false, bits)
      ensures Stores(txn.data, table, s.(index := MovedUpTo(table, s, id, row, i + 1)), bits)
    {
      if !table.columns[i].indexed { return true; }
      var found := ReadById(table.name, id);
      assert found == Ok(if id in s.rows then Some(s.rows[id]) else None);
      if found.Err? { return false; }
      if found.value.Some? && found.value.value[i] != row[i] {
        ok := MoveColumn(table, i, found.value.value[i], row[i], id, s.(index := MovedUpTo(table, s, id, row, i)));
        return;
      }
      return true;
    }

    /** Out of the old value's set, then into the new value's. */
    method MoveColumn(table: Schema, i: nat, from: Value, to: Value, id: Value, ghost s: TableState) returns (ok: bool)
      requires Stores(txn.data, table, s, bits) && i < |table.columns| && table.columns[i].indexed && from != to
      requires Machine(from, bits) && Machine(to, bits) && Machine(id, bits)
      modifies txn
      ensures ok && OthersKept(old(txn.data), txn.data, table, false, bits)
      ensures Stores(txn.data, table, s.(index := MoveEntry(table.columns[i], s.index, from, to, id)), bits)
    {
      ok := ChangeEntry(table, i, from, id, false, s);
      if !ok { return false; }
      ghost var name := table.columns[i].name;
      ghost var without := PutIndex(s.index, name, from, IndexAt(s.index, name, from) - {id});
      ok := ChangeEntry(table, i, to, id, true, s.(index := without));
    }

    /** Takes the id out of a copy of each index set, which is then dropped. */
    method DeleteRow(table: Schema, id: Value, ghost s: TableState) returns (ok: bool)
      requires Stores(txn.data, table, s, bits) && RowsLongEnough(table, s) && Machine(id, bits)
      modifies txn
      ensures ok && Stores(txn.data, table, DeleteNext(s, id), bits)
      ensures OthersKept(old(txn.data), txn.data, table, false, bits)
    {
      var found := ReadById(table.name, id);
      assert found == Ok(if id in s.rows then Some(s.rows[id]) else None);
      if found.Err? { return false; }
      if found.value.Some? {
        var row := found.value.value;
        for i := 0 to |table.columns|
          invariant txn.data == old(txn.data)
        {
          if table.columns[i].indexed {
            var loaded := LoadIndex(table.name, table.columns[i].name, row[i]);
            if loaded.Err? { return false; }
            var index := loaded.value - {id};
            loaded := LoadIndex(table.name, table.columns[i].name, row[i]);
          }
        }
      }
      RowRemoved(txn.data, table, s, id, bits);
      var key := EncodeKey(RowKey(table.name, id), bits);
      assert IsRowKey(key, table.name, id, bits);
      txn.Delete(key);
      return true;
    }

    // -------------------------------------------------------------- reading

    /** What is read under the row prefix and kept by the filter: the rows of the table that the filter keeps, in the
        order of their encoded keys, where nothing but rows of the table is there. */
    method ScanTable(name: Text, filter: Option<Expression>, widen: i64 -> real, ghost t: Schema, ghost s: TableState)
      returns (r: Result<seq<Row>>)
      requires Usable(t) && Sound(t, s) && name == t.name
      requires HasTable(txn.data, name, bits) ==> Stores(txn.data, t, s, bits)
      requires filter.Some? ==> LongEnough(Under(txn.data, t.name), t)
      ensures !HasTable(txn.data, name, bits) ==> r == Err
      ensures HasTable(txn.data, name, bits) ==> ScanReturns(txn.data, t, filter, widen, r)
      ensures HasTable(txn.data, name, bits) && OnlyRows(txn.data, t.name, s.rows, bits) ==>
        Answers(r, Selected(t, s, filter, widen)) && (r.Ok? ==> InKeyOrder(r.value, t, bits))
    {
      var found := MustGetTable(name);
      assert HasTable(txn.data, name, bits) ==> found == Ok(t);
      if found.Err? { return Err; }
      var results := txn.ScanPrefix(RowPrefix(name));
      assert results == Under(txn.data, name);
      r := FilterRows(found.value, results, filter, widen);
      if OnlyRows(txn.data, t.name, s.rows, bits) { ScanIsSelected(txn.data, t, s, filter, widen, bits, r); }
    }

    /** The loop of `scan_table` over what the prefix scan returned. */
    static method FilterRows(table: Schema, results: seq<(Bytes, Record)>, filter: Option<Expression>,
        widen: i64 -> real)
      returns (r: Result<seq<Row>>)
      requires filter.Some? ==> LongEnough(results, table)
      ensures r.Err? <==> exists i :: 0 <= i < |results| && ItemPasses(table, filter, results[i], widen) == Bad
      ensures r.Ok? ==> r.value == KeptItems(results, |results|, table, filter, widen)
    {
      var rows: seq<Row> := [];
      for i := 0 to |results|
        invariant rows == KeptItems(results, i, table, filter, widen)
        invariant forall j :: 0 <= j < i ==> ItemPasses(table, filter, results[j], widen) != Bad
      {
        assert ItemPasses(table, filter, results[i], widen) == Bad
          ==> exists j :: 0 <= j < |results| && ItemPasses(table, filter, results[j], widen) == Bad;
        if !results[i].1.RowRecord? { return Err; }
        var row := results[i].1.row;
        if filter.Some? {
          match Keeps(table, filter.value, row, widen) {
            case Bad => return Err;
            case Yes => rows := rows + [row];
            case No =>
          }
        } else {
          rows := rows + [row];
        }
      }
      return Ok(rows);
    }

    /** The rows the index lists under a value and that still exist, in the order of their primary keys. */
    method IndexScan(name: Text, field: Text, value: Value, widen: i64 -> real, ghost t: Schema, ghost s: TableState)
      returns (r: Result<seq<Row>>)
      requires Stores(txn.data, t, s, bits) && Usable(t) && Sound(t, s) && name == t.name
      requires IsIndexField(t, field) && Machine(value, bits)
      ensures Answers(r, Ok(RowsListed(s, field, value))) && r.Ok? && InIdOrder(r.value, t, widen)
    {
      var loaded := LoadIndex(name, field, value);
      assert loaded == Ok(IndexAt(s.index, field, value));
      if loaded.Err? { return Err; }
      IdsHaveOneType(t, s, field, value);
      var pks := SortedIds(loaded.value, widen);
      r := ReadRows(name, pks, s);
      LiveRowsAre(t, s, IndexAt(s.index, field, value), pks, widen);
    }

    /** The loop over the ids, which may have lost their rows. */
    method ReadRows(name: Text, pks: seq<Value>, ghost s: TableState) returns (r: Result<seq<Row>>)
      requires StoresRows(txn.data, name, s.rows, bits)
      requires forall i :: 0 <= i < |pks| ==> Machine(pks[i], bits)
      ensures r == Ok(LiveRows(s, pks, |pks|))
    {
      var rows: seq<Row> := [];
      for i := 0 to |pks|
        invariant rows == LiveRows(s, pks, i)
      {
        var found := ReadById(name, pks[i]);
        assert found == Ok(if pks[i] in s.rows then Some(s.rows[pks[i]]) else None);
        if found.Err? { return Err; }
        if found.value.Some? { rows := rows + [found.value.value]; }
      }
      return Ok(rows);
    }

    /** At most the row whose primary key the constant stands for. */
    method PrimaryKeyScan(name: Text, value: Value, ghost t: Schema, ghost s: TableState) returns (r: Result<seq<Row>>)
      requires Stores(txn.data, t, s, bits) && name == t.name && Machine(value, bits)
      ensures Answers(r, Ok(RowsAt(s, IdOf(value))))
    {
      var found := ReadById(name, IdOf(value));
      assert found == Ok(if IdOf(value) in s.rows then Some(s.rows[IdOf(value)]) else None);
      if found.Err? { return Err; }
      return Ok(if found.value.Some? then [found.value.value] else []);
    }

    /** SELECT * FROM name WHERE filter: planned, then executed. */
    method Select(name: Text, filter: Option<Expression>, widen: i64 -> real, ghost t: Schema, ghost s: TableState)
      returns (r: Result<seq<Row>>)
      requires Usable(t) && Sound(t, s) && name == t.name
      requires HasTable(txn.data, name, bits) ==> Stores(txn.data, t, s, bits)
      requires filter.Some? && ParseScanFilter(filter.value).Found? ==>
        Machine(ParseScanFilter(filter.value).value, bits)
      requires filter.Some? && BuildScan(Some(t), filter).ScanPlan? ==> LongEnough(Under(txn.data, t.name), t)
      ensures !HasTable(txn.data, name, bits) ==> r == Err
      ensures HasTable(txn.data, name, bits) ==>
        PlanAnswered(txn.data, t, s, BuildScan(Some(t), filter), widen, bits, r)
      ensures HasTable(txn.data, name, bits) && IsOrder(filter) ==>
        && ScanReturns(txn.data, t, filter, widen, r)
        && (OnlyRows(txn.data, t.name, s.rows, bits) ==> Answers(r, Selected(t, s, filter, widen)))
    {
      var found := MustGetTable(name);
      assert HasTable(txn.data, name, bits) ==> found == Ok(t);
      var plan := BuildScan(if found.Ok? then Some(found.value) else None, filter);
      PlanIsNamed(t, filter);
      ComparisonsAreScanned(t, filter);
      r := Execute(name, plan, widen, t, s);
    }

    method Execute(name: Text, plan: Plan, widen: i64 -> real, ghost t: Schema, ghost s: TableState)
      returns (r: Result<seq<Row>>)
      requires Usable(t) && Sound(t, s) && name == t.name
      requires HasTable(txn.data, name, bits) ==> Stores(txn.data, t, s, bits)
      requires plan.ScanPlan? && plan.filter.Some? ==> LongEnough(Under(txn.data, t.name), t)
      requires plan.KeyPlan? || plan.IndexPlan? ==> HasTable(txn.data, name, bits) && Machine(plan.value, bits)
      requires plan.IndexPlan? ==> IsIndexField(t, plan.field)
      ensures !HasTable(txn.data, name, bits) ==> r == Err
      ensures HasTable(txn.data, name, bits) ==> PlanAnswered(txn.data, t, s, plan, widen, bits, r)
    {
      match plan {
        case ScanPlan(e) => r := ScanTable(name, e, widen, t, s);
        case KeyPlan(v) => r := PrimaryKeyScan(name, v, t, s);
        case IndexPlan(f, v) => r := IndexScan(name, f, v, widen, t, s);
        case _ => r := Err;
      }
    }

    // -------------------------------------------------------------- tables

    method CreateTable(t: Schema) returns (ok: bool)
      modifies txn
      ensures ok <==> Encode(TableKey(t.name), bits) !in old(txn.data) && Validated(t)
      ensures txn.data ==
        if ok then old(txn.data)[Encode(TableKey(t.name), bits) := SchemaRecord(t)] else old(txn.data)
    {
      var key := EncodeKey(TableKey(t.name), bits);
      var found := txn.Get(key);
      if found.Some? { return false; }
      ok := Validate(t);
      if ok { txn.Set(key, SchemaRecord(t)); }
    }

    /** Deletes all there is under the row prefix, and the schema; index entries stay. */
    method DropTable(name: Text)
      modifies txn
      ensures txn.data == Dropped(old(txn.data), name, bits)
    {
      var results := txn.ScanPrefix(RowPrefix(name));
      AllDropped(txn.data, name, results, bits);
      DeleteAll(results);
      var key := EncodeKey(TableKey(name), bits);
      txn.Delete(key);
    }

    /** The loop of `drop_table`. */
    method DeleteAll(results: seq<(Bytes, Record)>)
      modifies txn
      ensures txn.data == old(txn.data) - KeysOf(results, |results|)
    {
      for i := 0 to |results|
        invariant txn.data == old(txn.data) - KeysOf(results, i)
      {
        txn.Delete(results[i].0);
      }
    }

    // -------------------------------------------------------------- runs

    /** One operation of a run. */
    method RunRowOp(t: Schema, op: RowOp, ghost s: TableState)
      requires Stores(txn.data, t, s, bits) && Usable(t) && Called(t, s, op) && MachineOp(op, bits)
      modifies txn
      ensures Stores(txn.data, t, OpNext(t, s, op).state, bits)
      ensures OthersKept(old(txn.data), txn.data, t, op.Recreate?, bits)
      ensures OnlyRows(old(txn.data), t.name, s.rows, bits) ==>
        OnlyRows(txn.data, t.name, OpNext(t, s, op).state.rows, bits)
    {
      var ok;
      match op {
        case Create(row) => ok := CreateRow(t.name, row, t, s);
        case Update(id, row) => ok := UpdateRow(t, id, row, s);
        case Delete(id) => ok := DeleteRow(t, id, s);
        case Recreate =>
          DropTable(t.name);
          ok := CreateTable(t);
          TableRecreated(old(txn.data), txn.data, t, s, bits);
      }
      if !op.Recreate? && OnlyRows(old(txn.data), t.name, s.rows, bits) {
        OnlyRowsKept(old(txn.data), txn.data, t, s, OpNext(t, s, op).state, bits);
      }
    }

    /** Any run of operations on a table, which leaves the store with what the run leaves the table with. */
    method RunRowOps(t: Schema, ops: seq<RowOp>)
      requires Stores(txn.data, t, NEW_TABLE, bits) && Usable(t)
      requires After(t, ops).Some?
      requires forall i :: 0 <= i < |ops| ==> MachineOp(ops[i], bits)
      modifies txn
      ensures Stores(txn.data, t, After(t, ops).value, bits)
      ensures OthersKept(old(txn.data), txn.data, t, Recreates(ops), bits)
      ensures OnlyRows(old(txn.data), t.name, map[], bits) ==>
        OnlyRows(txn.data, t.name, After(t, ops).value.rows, bits)
    {
      for i := 0 to |ops|
        invariant After(t, ops[..i]).Some? && Stores(txn.data, t, After(t, ops[..i]).value, bits)
        invariant OthersKept(old(txn.data), txn.data, t, Recreates(ops), bits)
        invariant OnlyRows(old(txn.data), t.name, map[], bits) ==>
          OnlyRows(txn.data, t.name, After(t, ops[..i]).value.rows, bits)
      {
        AfterNext(t, ops, i);
        RunRowOp(t, ops[i], After(t, ops[..i]).value);
      }
      assert ops[..|ops|] == ops;
    }
  }

  ghost predicate Recreates(ops: seq<RowOp>) {
    exists i :: 0 <= i < |ops| && ops[i].Recreate?
  }

  ghost function Dropped(data: Store, name: Text, bits: FloatBits): Store {
    map key | key in data && !(RowPrefix(name) <= key) && key != Encode(TableKey(name), bits) :: data[key]
  }

  function KeysOf(items: seq<(Bytes, Record)>, n: nat): set<Bytes>
    requires n <= |items|
  {
    if n == 0 then {} else KeysOf(items, n - 1) + {items[n - 1].0}
  }

  lemma {:induction false} KeysOfSome(items: seq<(Bytes, Record)>, n: nat, sorted: seq<Bytes>, key: Bytes)
    requires n <= |items| == |sorted| && forall i :: 0 <= i < n ==> items[i].0 == sorted[i]
    ensures key in KeysOf(items, n) <==> key in sorted[..n]
  {
    if n > 0 { KeysOfSome(items, n - 1, sorted, key); }
  }

  lemma KeysOfAll(items: seq<(Bytes, Record)>, sorted: seq<Bytes>, keys: set<Bytes>)
    requires |items| == |sorted| && forall i :: 0 <= i < |items| ==> items[i].0 == sorted[i]
    requires forall key :: key in sorted <==> key in keys
    ensures KeysOf(items, |items|) == keys
  {
    forall key ensures key in KeysOf(items, |items|) <==> key in keys {
      KeysOfSome(items, |items|, sorted, key);
      assert sorted[..|items|] == sorted;
    }
  }

  lemma KeysUnder(data: Store, name: Text)
    ensures var items := Under(data, name); KeysOf(items, |items|) == set key | key in data && RowPrefix(name) <= key
  {
    var keys := set key | key in data && RowPrefix(name) <= key;
    KeysOfAll(Under(data, name), Sorted(keys), keys);
  }

  lemma AllDropped(data: Store, name: Text, items: seq<(Bytes, Record)>, bits: FloatBits)
    requires items == Under(data, name)
    ensures data - KeysOf(items, |items|) - {Encode(TableKey(name), bits)} == Dropped(data, name, bits)
  {
    KeysUnder(data, name);
  }

  lemma TableRecreated(before: Store, after: Store, t: Schema, s: TableState, bits: FloatBits)
    requires Stores(before, t, s, bits)
    requires after == Dropped(before, t.name, bits)[Encode(TableKey(t.name), bits) := SchemaRecord(t)]
    ensures Stores(after, t, RecreateNext(s), bits) && OnlyRows(after, t.name, map[], bits)
    ensures OthersKept(before, after, t, true, bits)
  {
    OtherKinds(t, Encode(TableKey(t.name), bits), TableKey(t.name), bits);
    forall c, v | IsIndexField(t, c)
      ensures var key := Encode(IndexKey(t.name, c, v), bits); Find(before, key) == Find(after, key)
    {
      OtherKinds(t, Encode(IndexKey(t.name, c, v), bits), IndexKey(t.name, c, v), bits);
    }
    forall id ensures RowPrefix(t.name) <= Encode(RowKey(t.name, id), bits) {}
  }

  /** All floats an operation mentions are floats. */
  ghost predicate MachineOp(op: RowOp, bits: FloatBits) {
    && (op.Update? || op.Delete? ==> Machine(op.id, bits))
    && (op.Create? || op.Update? ==> MachineRow(op.row, bits))
  }

  // ---------------------------------------------------------------- the order of an index scan

  ghost predicate InIdOrder(rows: seq<Row>, t: Schema, widen: i64 -> real)
    requires Usable(t)
  {
    && (forall i :: 0 <= i < |rows| ==> |t.columns| <= |rows[i]|)
    && (forall i, j :: 0 <= i < j < |rows| ==> PartialCmp(rows[i][KeyOf(t)], rows[j][KeyOf(t)], widen).Below?)
  }

  function LiveRows(s: TableState, pks: seq<Value>, n: nat): seq<Row>
    requires n <= |pks|
  {
    if n == 0 then [] else
      LiveRows(s, pks, n - 1) + (if pks[n - 1] in s.rows then [s.rows[pks[n - 1]]] else [])
  }

  lemma IdsHaveOneType(t: Schema, s: TableState, field: Text, value: Value)
    requires Usable(t) && Sound(t, s) && IsIndexField(t, field)
    ensures OneType(IndexAt(s.index, field, value))
  {
  }

  lemma {:induction false} LiveRowsMembers(s: TableState, pks: seq<Value>, n: nat, row: Row)
    requires n <= |pks|
    ensures row in LiveRows(s, pks, n) <==> exists k :: 0 <= k < n && pks[k] in s.rows && s.rows[pks[k]] == row
  {
    if n > 0 { LiveRowsMembers(s, pks, n - 1, row); }
  }

  lemma {:induction false} LiveRowsInOrder(t: Schema, s: TableState, pks: seq<Value>, n: nat, widen: i64 -> real)
    requires Usable(t) && Keyed(t, s) && n <= |pks|
    requires forall i, j :: 0 <= i < j < |pks| ==> PartialCmp(pks[i], pks[j], widen).Below?
    ensures InIdOrder(LiveRows(s, pks, n), t, widen)
  {
    if n > 0 {
      LiveRowsInOrder(t, s, pks, n - 1, widen);
      var rows := LiveRows(s, pks, n - 1);
      if pks[n - 1] in s.rows {
        assert OwnKey(t, pks[n - 1], s.rows[pks[n - 1]]);
        forall i | 0 <= i < |rows| ensures PartialCmp(rows[i][KeyOf(t)], pks[n - 1], widen).Below? {
          LiveRowsMembers(s, pks, n - 1, rows[i]);
          var k :| 0 <= k < n - 1 && pks[k] in s.rows && s.rows[pks[k]] == rows[i];
          assert OwnKey(t, pks[k], s.rows[pks[k]]);
        }
      }
    }
  }

  lemma LiveRowsAre(t: Schema, s: TableState, ids: set<Value>, pks: seq<Value>, widen: i64 -> real)
    requires Usable(t) && Sound(t, s) && OneType(ids) && pks == SortedIds(ids, widen)
    ensures InIdOrder(LiveRows(s, pks, |pks|), t, widen) && Lists(LiveRows(s, pks, |pks|), RowsOf(s, ids))
  {
    var rows := LiveRows(s, pks, |pks|);
    LiveRowsInOrder(t, s, pks, |pks|, widen);
    forall row ensures row in rows <==> row in RowsOf(s, ids) {
      LiveRowsMembers(s, pks, |pks|, row);
      if row in RowsOf(s, ids) {
        var id :| id in ids && id in s.rows && s.rows[id] == row;
        assert id in pks;
      }
      if row in rows {
        var k :| 0 <= k < |pks| && pks[k] in s.rows && s.rows[pks[k]] == row;
        assert pks[k] in pks;
      }
    }
    InIdOrderDistinct(t, rows, widen);
  }

  lemma InIdOrderDistinct(t: Schema, rows: seq<Row>, widen: i64 -> real)
    requires Usable(t) && InIdOrder(rows, t, widen)
    ensures forall i, j :: 0 <= i < j < |rows| ==> rows[i] != rows[j]
  {
    forall i, j | 0 <= i < j < |rows| ensures rows[i] != rows[j] {
      OneTypeOrder(rows[i][KeyOf(t)], rows[i][KeyOf(t)], rows[i][KeyOf(t)], widen);
    }
  }
}
