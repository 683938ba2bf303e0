/** How WHERE clauses are planned as scans, and when a planned scan returns what filtering the table returns. */
module AccessPaths {
  import opened Ast
  import opened ByteOrder
  import opened Joins
  import opened Tables

  // ---------------------------------------------------------------- planning

  datatype ScanFilter = Found(field: Text, value: Value) | NotFound | FilterPanics

  /** Both sides of an equality are read alike: a field counts as NULL, a constant as a field without a name. */
  function ParseScanFilter(e: Expression): ScanFilter {
    match e
    case Field(f) => Found(f, Null)
    case Consts(c) => Found([], c)
    case Operation(Equal(l, r)) =>
      var (lv, rv) := (ParseScanFilter(l), ParseScanFilter(r));
      if lv.Found? && rv.Found? then Found(lv.field, rv.value) else FilterPanics
    case _ => NotFound
  }

  datatype Plan =
    | ScanPlan(filter: Option<Expression>)
    | KeyPlan(value: Value)
    | IndexPlan(field: Text, value: Value)
    | NoSuchTable
    | PlanPanics

  predicate IsKeyField(t: Schema, f: Text) {
    exists i :: 0 <= i < |t.columns| && t.columns[i].name == f && t.columns[i].primaryKey
  }

  predicate IsIndexField(t: Schema, f: Text) {
    exists i :: 0 <= i < |t.columns| && t.columns[i].name == f && t.columns[i].indexed
  }

  function BuildScan(table: Option<Schema>, filter: Option<Expression>): Plan {
    match filter
    case None => ScanPlan(None)
    case Some(e) =>
      match ParseScanFilter(e)
      case FilterPanics => PlanPanics
      case NotFound => ScanPlan(filter)
      case Found(f, v) =>
        if table.None? then NoSuchTable
        else if IsKeyField(table.value, f) then KeyPlan(v)
        else if IsIndexField(table.value, f) then IndexPlan(f, v)
        else ScanPlan(filter)
  }

  // ---------------------------------------------------------------- what each path returns

  function Keeps(t: Schema, e: Expression, row: Row, widen: i64 -> real): Verdict
    requires |t.columns| <= |row|
  {
    Test(e, Names(t), row[..|t.columns|], Names(t), row[..|t.columns|], widen)
  }

  /** The rows a filter keeps, an error if it cannot be evaluated to a truth value on some row. */
  ghost function Selected(t: Schema, s: TableState, filter: Option<Expression>, widen: i64 -> real): Result<set<Row>>
    requires RowsLongEnough(t, s)
  {
    if filter.None? then Ok(set id | id in s.rows :: s.rows[id])
    else if exists id :: id in s.rows && Keeps(t, filter.value, s.rows[id], widen) == Bad then Err
    else Ok(set id | id in s.rows && Keeps(t, filter.value, s.rows[id], widen) == Yes :: s.rows[id])
  }

  function RowsOf(s: TableState, ids: set<Value>): set<Row> {
    set id | id in ids && id in s.rows :: s.rows[id]
  }

  function RowsListed(s: TableState, column: Text, v: Value): set<Row> {
    RowsOf(s, IndexAt(s.index, column, v))
  }

  function RowsAt(s: TableState, id: Value): set<Row> {
    if id in s.rows then {s.rows[id]} else {}
  }

  /** A float without a fraction stands for an integer, at the limits for the nearest one. */
  function IdOf(v: Value): Value {
    if v.Float? && v.f.Floor as real == v.f then
      Integer(if v.f.Floor < -0x8000_0000_0000_0000 then -0x8000_0000_0000_0000
              else if v.f.Floor >= 0x8000_0000_0000_0000 then 0x7FFF_FFFF_FFFF_FFFF
              else v.f.Floor)
    else v
  }

  /** A whole float is looked up as that integer, one beyond the limits as the limit, anything else as it is. */
  lemma WholeFloatIsInteger(n: int)
    ensures IdOf(Float(n as real))
         == Integer(if n > 0x7FFF_FFFF_FFFF_FFFF then 0x7FFF_FFFF_FFFF_FFFF
                    else if n < -0x8000_0000_0000_0000 then -0x8000_0000_0000_0000 else n)
    ensures forall v: Value :: !v.Float? || v.f.Floor as real != v.f ==> IdOf(v) == v
  {
  }

  ghost function PlannedRows(t: Schema, s: TableState, plan: Plan, widen: i64 -> real): Result<set<Row>>
    requires RowsLongEnough(t, s)
  {
    match plan
    case ScanPlan(filter) => Selected(t, s, filter, widen)
    case KeyPlan(v) => Ok(RowsAt(s, IdOf(v)))
    case IndexPlan(f, v) => Ok(RowsListed(s, f, v))
    case _ => Err
  }

  function FieldIs(f: Text, v: Value): Expression {
    Operation(Equal(Field(f), Consts(v)))
  }

  // ---------------------------------------------------------------- when a path and a filter agree

  lemma RowsDiffer(t: Schema, s: TableState)
    requires Usable(t) && Sound(t, s)
    ensures forall k, l :: k in s.rows && l in s.rows && s.rows[k] == s.rows[l] ==> k == l
  {
    assert forall k :: k in s.rows ==> OwnKey(t, k, s.rows[k]);
  }

  /** The rows with certain ids are the rows a filter keeps exactly when the filter decides each row by its id. */
  lemma PathExact(t: Schema, s: TableState, e: Expression, ids: set<Value>, widen: i64 -> real)
    requires Usable(t) && Sound(t, s)
    ensures Ok(RowsOf(s, ids)) == Selected(t, s, Some(e), widen)
       <==> forall id :: id in s.rows ==> Keeps(t, e, s.rows[id], widen) == if id in ids then Yes else No
  {
    RowsDiffer(t, s);
    var found := RowsOf(s, ids);
    var kept := set id | id in s.rows && Keeps(t, e, s.rows[id], widen) == Yes :: s.rows[id];
    forall id | id in s.rows
      ensures id in ids <==> s.rows[id] in found
      ensures Keeps(t, e, s.rows[id], widen) == Yes <==> s.rows[id] in kept
    {
    }
    if forall id :: id in s.rows ==> Keeps(t, e, s.rows[id], widen) == if id in ids then Yes else No {
      assert found == kept;
    } else {
      var id :| id in s.rows && Keeps(t, e, s.rows[id], widen) != if id in ids then Yes else No;
      assert found == kept ==> Keeps(t, e, s.rows[id], widen) == Bad;
    }
  }

  /** A filter that is read as a field and a value is planned by the kind of the field's column. */
  lemma PlanOfFilter(t: Schema, i: nat, e: Expression, v: Value)
    requires Usable(t) && i < |t.columns| && ParseScanFilter(e) == Found(t.columns[i].name, v)
    ensures BuildScan(Some(t), Some(e))
         == if t.columns[i].primaryKey then KeyPlan(v)
            else if t.columns[i].indexed then IndexPlan(t.columns[i].name, v)
            else ScanPlan(Some(e))
  {
    assert forall j :: 0 <= j < |t.columns| && t.columns[j].name == t.columns[i].name ==> j == i;
  }

  /** Planned by the primary key, a filter returns what it keeps exactly when it keeps the row with that key alone. */
  lemma KeyPlanExact(t: Schema, s: TableState, e: Expression, v: Value, widen: i64 -> real)
    requires Usable(t) && Sound(t, s) && ParseScanFilter(e) == Found(t.columns[KeyOf(t)].name, v)
    ensures PlannedRows(t, s, BuildScan(Some(t), Some(e)), widen) == Selected(t, s, Some(e), widen)
       <==> forall id :: id in s.rows ==> Keeps(t, e, s.rows[id], widen) == if id == IdOf(v) then Yes else No
  {
    PlanOfFilter(t, KeyOf(t), e, v);
    PathExact(t, s, e, {IdOf(v)}, widen);
    assert RowsOf(s, {IdOf(v)}) == RowsAt(s, IdOf(v));
  }

  /** Planned by an index, it does exactly when it keeps the rows that hold the value or have left it behind. */
  lemma IndexPlanExact(t: Schema, ops: seq<RowOp>, i: nat, e: Expression, v: Value, widen: i64 -> real)
    requires Usable(t) && After(t, ops).Some? && i < |t.columns| && t.columns[i].indexed
    requires ParseScanFilter(e) == Found(t.columns[i].name, v)
    ensures var s := After(t, ops).value;
      && Sound(t, s)
      && (PlannedRows(t, s, BuildScan(Some(t), Some(e)), widen) == Selected(t, s, Some(e), widen)
          <==> forall id :: id in s.rows ==>
            Keeps(t, e, s.rows[id], widen) == if s.rows[id][i] == v || LeftBehind(t, ops, id, i, v) then Yes else No)
  {
    var s := After(t, ops).value;
    RunKeeps(t, ops);
    PlanOfFilter(t, i, e, v);
    PathExact(t, s, e, IndexAt(s.index, t.columns[i].name, v), widen);
    forall id | id in s.rows
      ensures id in IndexAt(s.index, t.columns[i].name, v) <==> s.rows[id][i] == v || LeftBehind(t, ops, id, i, v)
    {
      IndexListsExactly(t, ops, id, i, v);
    }
  }

  // ---------------------------------------------------------------- filters that are not searches

  /** Without a filter, and with `>`, `<` or a function as the filter, the table is scanned and filtered. */
  lemma ComparisonsAreFiltered(t: Schema, ops: seq<RowOp>, filter: Option<Expression>, widen: i64 -> real)
    requires Usable(t) && After(t, ops).Some?
    requires IsOrder(filter) || filter.value.Function?
    ensures var s := After(t, ops).value;
      RowsLongEnough(t, s) && PlannedRows(t, s, BuildScan(Some(t), filter), widen) == Selected(t, s, filter, widen)
  {
    RunKeeps(t, ops);
    ComparisonsAreScanned(t, filter);
  }

  /** No filter, or a comparison by order. */
  predicate IsOrder(filter: Option<Expression>) {
    match filter
    case None => true
    case Some(Operation(GreaterThan(_, _))) => true
    case Some(Operation(LessThan(_, _))) => true
    case _ => false
  }

  lemma ComparisonsAreScanned(t: Schema, filter: Option<Expression>)
    ensures IsOrder(filter) || (filter.Some? && filter.value.Function?) ==>
      BuildScan(Some(t), filter) == ScanPlan(filter)
  {
  }

  /** So it is with a constant on the left of an equality, unless a column has no name. */
  lemma ConstantFirstIsFiltered(t: Schema, ops: seq<RowOp>, v: Value, r: Expression, widen: i64 -> real)
    requires Usable(t) && After(t, ops).Some? && (r.Field? || r.Consts?)
    requires forall i :: 0 <= i < |t.columns| ==> t.columns[i].name != []
    ensures var s, filter := After(t, ops).value, Some(Operation(Equal(Consts(v), r)));
      RowsLongEnough(t, s) && PlannedRows(t, s, BuildScan(Some(t), filter), widen) == Selected(t, s, filter, widen)
  {
    RunKeeps(t, ops);
    assert ParseScanFilter(Consts(v)) == Found([], v) && ParseScanFilter(r).Found?;
  }

  /** An equality with a function or a comparison on either side panics. */
  lemma SearchPanics(t: Schema, l: Expression, r: Expression)
    requires l.Function? || r.Function? || (l.Operation? && !l.op.Equal?) || (r.Operation? && !r.op.Equal?)
    ensures BuildScan(Some(t), Some(Operation(Equal(l, r)))) == PlanPanics
  {
    assert !ParseScanFilter(l).Found? || !ParseScanFilter(r).Found?;
  }

  // ---------------------------------------------------------------- field = constant

  lemma {:induction false} PositionOf(t: Schema, i: nat, n: nat)
    requires DistinctNames(t.columns) && n <= i < |t.columns|
    ensures Position(Names(t)[n..], t.columns[i].name) == Some(i - n)
    decreases i - n
  {
  }

  lemma ConstantTest(t: Schema, i: nat, v: Value, row: Row, widen: i64 -> real)
    requires DistinctNames(t.columns) && i < |t.columns| <= |row|
    ensures Keeps(t, FieldIs(t.columns[i].name, v), row, widen) == VerdictOf(Compare(row[i], v, widen))
  {
    PositionOf(t, i, 0);
    assert Names(t)[0..] == Names(t);
    var e, cut := FieldIs(t.columns[i].name, v), row[..|t.columns|];
    assert Evaluate(e.op.l, Names(t), cut, Names(t), cut, widen) == Ok(row[i]);
    assert Evaluate(e.op.r, Names(t), cut, Names(t), cut, widen) == Ok(v);
  }

  lemma FieldIsFound(f: Text, v: Value)
    ensures ParseScanFilter(FieldIs(f, v)) == Found(f, v)
  {
    assert ParseScanFilter(Field(f)) == Found(f, Null) && ParseScanFilter(Consts(v)) == Found([], v);
  }

  /** What must hold for a constant to be looked up as a primary key. NULL and constants of a key type other than
      FLOAT always may be. A float without a fraction is looked up as an integer, any other constant as it is. */
  ghost predicate KeyFits(s: TableState, keyType: DataType, v: Value, widen: i64 -> real) {
    if v.Null? || (TypeOf(v) == Some(keyType) && !v.Float?) then true
    else if keyType == IntegerType && v.Float? then
      forall id :: id in s.rows && id.Integer? ==> (widen(id.i) == v.f <==> id == IdOf(v))
    else if keyType == FloatType && v.Float? then v.f.Floor as real != v.f || v !in s.rows
    else if keyType == FloatType && v.Integer? then Float(widen(v.i)) !in s.rows
    else s.rows == map[]
  }

  /** After any run, for every constant: the primary-key path returns what the filter keeps exactly when the
      constant fits the keys. */
  lemma KeyPathExact(t: Schema, ops: seq<RowOp>, v: Value, widen: i64 -> real)
    requires Usable(t) && After(t, ops).Some?
    ensures var s, filter := After(t, ops).value, Some(FieldIs(t.columns[KeyOf(t)].name, v));
      && RowsLongEnough(t, s)
      && (PlannedRows(t, s, BuildScan(Some(t), filter), widen) == Selected(t, s, filter, widen)
          <==> KeyFits(s, t.columns[KeyOf(t)].dataType, v, widen))
  {
    var k, s := KeyOf(t), After(t, ops).value;
    RunKeeps(t, ops);
    FieldIsFound(t.columns[k].name, v);
    KeyPlanExact(t, s, FieldIs(t.columns[k].name, v), v, widen);
    forall id | id in s.rows
      ensures TypeOf(id) == Some(t.columns[k].dataType)
      ensures Keeps(t, FieldIs(t.columns[k].name, v), s.rows[id], widen) == VerdictOf(Compare(id, v, widen))
    {
      assert OwnKey(t, id, s.rows[id]);
      ConstantTest(t, k, v, s.rows[id], widen);
    }
    KeyFitsExactly(s, t.columns[k].dataType, v, widen);
  }

  lemma KeyFitsExactly(s: TableState, keyType: DataType, v: Value, widen: i64 -> real)
    requires forall id :: id in s.rows ==> TypeOf(id) == Some(keyType)
    ensures KeyFits(s, keyType, v, widen)
       <==> forall id :: id in s.rows ==> VerdictOf(Compare(id, v, widen)) == if id == IdOf(v) then Yes else No
  {
    if !v.Null? && v.Float? != (keyType == FloatType) && !(keyType == IntegerType && v.Float?)
       && !(keyType == FloatType && v.Integer?) && s.rows != map[] {
      var id :| id in s.rows;
    }
  }

  /** After any run the primary-key path finds what filtering finds for a constant of the type of the key,
      unless that is FLOAT. */
  lemma KeyPathOfAnyRun(t: Schema, ops: seq<RowOp>, v: Value, widen: i64 -> real)
    requires Usable(t) && After(t, ops).Some? && !v.Float? && TypeOf(v) == Some(t.columns[KeyOf(t)].dataType)
    ensures var s, filter := After(t, ops).value, Some(FieldIs(t.columns[KeyOf(t)].name, v));
      RowsLongEnough(t, s) && PlannedRows(t, s, BuildScan(Some(t), filter), widen) == Selected(t, s, filter, widen)
  {
    KeyPathExact(t, ops, v, widen);
  }

  const MAX: i64 := 0x7FFF_FFFF_FFFF_FFFF

  predicate InRange(f: real) {
    -0x8000_0000_0000_0000 as real <= f < 0x8000_0000_0000_0000 as real
  }

  /** On an integer key whose ids are widened exactly, a float constant finds what the filter keeps exactly when it
      is in range, has a fraction, or stands for an id that is not there: beyond the limits it is clamped to them. */
  lemma KeyPathForFloats(t: Schema, ops: seq<RowOp>, v: Value, widen: i64 -> real)
    requires Usable(t) && After(t, ops).Some? && t.columns[KeyOf(t)].dataType == IntegerType && v.Float?
    requires forall id :: id in After(t, ops).value.rows && id.Integer? ==> widen(id.i) == id.i as real
    ensures var s, filter := After(t, ops).value, Some(FieldIs(t.columns[KeyOf(t)].name, v));
      && RowsLongEnough(t, s)
      && (PlannedRows(t, s, BuildScan(Some(t), filter), widen) == Selected(t, s, filter, widen)
          <==> InRange(v.f) || v.f.Floor as real != v.f || IdOf(v) !in s.rows)
  {
    var s := After(t, ops).value;
    KeyPathExact(t, ops, v, widen);
    if InRange(v.f) || v.f.Floor as real != v.f || IdOf(v) !in s.rows {
      assert forall id :: id in s.rows && id.Integer? ==> (widen(id.i) == v.f <==> id == IdOf(v));
    } else {
      assert IdOf(v).Integer? && widen(IdOf(v).i) != v.f;
    }
  }

  /** After any run, for every constant: the index path returns what the filter keeps exactly when every row
      compares with the constant and equals it just if it holds it or has left it behind. */
  lemma IndexPathExact(t: Schema, ops: seq<RowOp>, i: nat, v: Value, widen: i64 -> real)
    requires Usable(t) && After(t, ops).Some? && i < |t.columns| && t.columns[i].indexed
    ensures var s, filter := After(t, ops).value, Some(FieldIs(t.columns[i].name, v));
      && RowsLongEnough(t, s)
      && (PlannedRows(t, s, BuildScan(Some(t), filter), widen) == Selected(t, s, filter, widen)
          <==> forall id :: id in s.rows ==>
            var c := Compare(s.rows[id][i], v, widen);
            !c.Incomparable? && (c.Same? <==> s.rows[id][i] == v || LeftBehind(t, ops, id, i, v)))
  {
    var s := After(t, ops).value;
    FieldIsFound(t.columns[i].name, v);
    IndexPlanExact(t, ops, i, FieldIs(t.columns[i].name, v), v, widen);
    forall id | id in s.rows
      ensures Keeps(t, FieldIs(t.columns[i].name, v), s.rows[id], widen) == VerdictOf(Compare(s.rows[id][i], v, widen))
    {
      ConstantTest(t, i, v, s.rows[id], widen);
    }
  }

  /** After any run the index path misses exactly the rows that equal the constant without holding it, such as
      integers that a float constant equals, unless they have left it behind. */
  lemma IndexPathMissesExactly(t: Schema, ops: seq<RowOp>, i: nat, v: Value, widen: i64 -> real)
    requires Usable(t) && After(t, ops).Some? && i < |t.columns| && t.columns[i].indexed
    requires RowsLongEnough(t, After(t, ops).value)
    requires Selected(t, After(t, ops).value, Some(FieldIs(t.columns[i].name, v)), widen).Ok?
    ensures var s := After(t, ops).value;
      Selected(t, s, Some(FieldIs(t.columns[i].name, v)), widen).value <= RowsListed(s, t.columns[i].name, v)
      <==> forall id :: id in s.rows && Compare(s.rows[id][i], v, widen).Same? ==>
        s.rows[id][i] == v || LeftBehind(t, ops, id, i, v)
  {
    var s, e := After(t, ops).value, FieldIs(t.columns[i].name, v);
    var selected, listed := Selected(t, s, Some(e), widen).value, RowsListed(s, t.columns[i].name, v);
    RunKeeps(t, ops);
    RowsDiffer(t, s);
    forall id | id in s.rows
      ensures s.rows[id] in selected <==> Compare(s.rows[id][i], v, widen).Same?
      ensures s.rows[id] in listed <==> s.rows[id][i] == v || LeftBehind(t, ops, id, i, v)
    {
      ConstantTest(t, i, v, s.rows[id], widen);
      IndexListsExactly(t, ops, id, i, v);
    }
    assert forall row :: row in selected ==> exists id :: id in s.rows && s.rows[id] == row;
  }

  ghost predicate NoFloatsIn(s: TableState, i: nat) {
    forall id :: id in s.rows && i < |s.rows[id]| ==> !s.rows[id][i].Float?
  }

  /** So where no floats are involved it misses nothing. */
  lemma IndexPathMissesNothing(t: Schema, ops: seq<RowOp>, i: nat, v: Value, widen: i64 -> real)
    requires Usable(t) && After(t, ops).Some? && i < |t.columns| && t.columns[i].indexed
    requires NoFloatsIn(After(t, ops).value, i) && !v.Float?
    ensures RowsLongEnough(t, After(t, ops).value)
    ensures var s := After(t, ops).value;
      var selected := Selected(t, s, Some(FieldIs(t.columns[i].name, v)), widen);
      selected.Ok? ==> selected.value <= RowsListed(s, t.columns[i].name, v)
  {
    var s := After(t, ops).value;
    RunKeeps(t, ops);
    if Selected(t, s, Some(FieldIs(t.columns[i].name, v)), widen).Ok? { IndexPathMissesExactly(t, ops, i, v, widen); }
  }

  /** Without deletions nothing is left behind, so only how values compare matters. */
  lemma IndexPathOfUndeleted(t: Schema, ops: seq<RowOp>, i: nat, v: Value, widen: i64 -> real)
    requires Usable(t) && After(t, ops).Some? && i < |t.columns| && t.columns[i].indexed
    requires forall j :: 0 <= j < |ops| ==> KeepsRows(t, ops[j])
    ensures var s, filter := After(t, ops).value, Some(FieldIs(t.columns[i].name, v));
      && RowsLongEnough(t, s)
      && (PlannedRows(t, s, BuildScan(Some(t), filter), widen) == Selected(t, s, filter, widen)
          <==> forall id :: id in s.rows ==>
            var c := Compare(s.rows[id][i], v, widen); !c.Incomparable? && (c.Same? <==> s.rows[id][i] == v))
  {
    IndexPathExact(t, ops, i, v, widen);
    forall id ensures !LeftBehind(t, ops, id, i, v) { NothingLeftBehind(t, ops, id, i, v); }
  }

  /** After a run whose updates in place fit their columns, a constant of the type of the column, not FLOAT, is
      looked up rightly exactly when no row that has left it behind holds another value now. */
  lemma IndexPathOfChecked(t: Schema, ops: seq<RowOp>, i: nat, v: Value, widen: i64 -> real)
    requires Usable(t) && After(t, ops).Some? && i < |t.columns| && t.columns[i].indexed
    requires forall j :: 0 <= j < |ops| ==> Checked(t, ops[j])
    requires TypeOf(v) == Some(t.columns[i].dataType) && !v.Float?
    ensures var s, filter := After(t, ops).value, Some(FieldIs(t.columns[i].name, v));
      && RowsLongEnough(t, s)
      && (PlannedRows(t, s, BuildScan(Some(t), filter), widen) == Selected(t, s, filter, widen)
          <==> forall id :: id in s.rows && LeftBehind(t, ops, id, i, v) ==> s.rows[id][i] == v)
  {
    var s := After(t, ops).value;
    IndexPathExact(t, ops, i, v, widen);
    RunAdmits(t, ops);
    forall id | id in s.rows
      ensures var c := Compare(s.rows[id][i], v, widen); !c.Incomparable? && (c.Same? <==> s.rows[id][i] == v)
    {
      assert FitsColumn(t.columns[i], s.rows[id][i]);
      CompareOneType(s.rows[id][i], v, widen);
    }
  }

  lemma CompareOneType(x: Value, v: Value, widen: i64 -> real)
    requires !v.Null? && !v.Float? && (x.Null? || TypeOf(x) == TypeOf(v))
    ensures var c := Compare(x, v, widen); !c.Incomparable? && (c.Same? <==> x == v)
  {
  }

  lemma CompareIntegers(x: Value, f: real, widen: i64 -> real)
    requires x.Integer? || x.Null?
    ensures var c := Compare(x, Float(f), widen); !c.Incomparable? && (c.Same? <==> x.Integer? && widen(x.i) == f)
  {
  }

  ghost predicate OnlyIntegersIn(s: TableState, i: nat) {
    forall id :: id in s.rows && i < |s.rows[id]| ==> s.rows[id][i].Integer? || s.rows[id][i].Null?
  }

  /** Where an indexed column holds only integers and NULLs, the index path finds for a float constant the rows that
      have left that float behind, which is right exactly when those are the rows that equal it. */
  lemma FloatsMissIntegers(t: Schema, ops: seq<RowOp>, i: nat, f: real, widen: i64 -> real)
    requires Usable(t) && After(t, ops).Some? && i < |t.columns| && t.columns[i].indexed
    requires OnlyIntegersIn(After(t, ops).value, i)
    ensures var s, filter := After(t, ops).value, Some(FieldIs(t.columns[i].name, Float(f)));
      && RowsLongEnough(t, s)
      && (RowsListed(s, t.columns[i].name, Float(f)) == {}
          <==> forall id :: id in s.rows ==> !LeftBehind(t, ops, id, i, Float(f)))
      && (PlannedRows(t, s, BuildScan(Some(t), filter), widen) == Selected(t, s, filter, widen)
          <==> forall id :: id in s.rows ==>
            (LeftBehind(t, ops, id, i, Float(f)) <==> s.rows[id][i].Integer? && widen(s.rows[id][i].i) == f))
  {
    var s := After(t, ops).value;
    IndexPathExact(t, ops, i, Float(f), widen);
    forall id | id in s.rows
      ensures s.rows[id][i] != Float(f)
      ensures id in IndexAt(s.index, t.columns[i].name, Float(f)) <==> LeftBehind(t, ops, id, i, Float(f))
    {
      IndexListsExactly(t, ops, id, i, Float(f));
    }
    NoneListed(s, t.columns[i].name, Float(f));
    forall id | id in s.rows
      ensures var c, x := Compare(s.rows[id][i], Float(f), widen), s.rows[id][i];
        !c.Incomparable? && (c.Same? <==> x.Integer? && widen(x.i) == f)
    {
      CompareIntegers(s.rows[id][i], f, widen);
    }
  }

  lemma NoneListed(s: TableState, column: Text, v: Value)
    ensures RowsListed(s, column, v) == {} <==> forall id :: id in s.rows ==> id !in IndexAt(s.index, column, v)
  {
    if id :| id in s.rows && id in IndexAt(s.index, column, v) { assert s.rows[id] in RowsListed(s, column, v); }
  }

  /** On an INTEGER column whose updates in place fit, that is nothing at all, which is right exactly when no row
      equals the constant; every constant that is computed is a float. */
  lemma FloatsFindNothing(t: Schema, ops: seq<RowOp>, i: nat, f: real, widen: i64 -> real)
    requires Usable(t) && After(t, ops).Some? && i < |t.columns| && t.columns[i].indexed
    requires forall j :: 0 <= j < |ops| ==> Checked(t, ops[j])
    requires t.columns[i].dataType == IntegerType
    ensures var s, filter := After(t, ops).value, Some(FieldIs(t.columns[i].name, Float(f)));
      && RowsLongEnough(t, s)
      && RowsListed(s, t.columns[i].name, Float(f)) == {}
      && (PlannedRows(t, s, BuildScan(Some(t), filter), widen) == Selected(t, s, filter, widen)
          <==> forall id :: id in s.rows && s.rows[id][i].Integer? ==> widen(s.rows[id][i].i) != f)
  {
    OnlyIntegers(t, ops, i, f);
    FloatsMissIntegers(t, ops, i, f, widen);
  }

  lemma NoFloatListed(t: Schema, ops: seq<RowOp>, i: nat, f: real)
    requires Usable(t) && After(t, ops).Some? && i < |t.columns| && t.columns[i].indexed
    requires forall j :: 0 <= j < |ops| ==> Checked(t, ops[j])
    requires t.columns[i].dataType == IntegerType
    ensures RowsListed(After(t, ops).value, t.columns[i].name, Float(f)) == {}
  {
    var s := After(t, ops).value;
    OnlyIntegers(t, ops, i, f);
    forall id | id in s.rows ensures id !in IndexAt(s.index, t.columns[i].name, Float(f)) {
      IndexListsExactly(t, ops, id, i, Float(f));
    }
    NoneListed(s, t.columns[i].name, Float(f));
  }

  lemma OnlyIntegers(t: Schema, ops: seq<RowOp>, i: nat, f: real)
    requires Usable(t) && After(t, ops).Some? && i < |t.columns| && t.columns[i].dataType == IntegerType
    requires forall j :: 0 <= j < |ops| ==> Checked(t, ops[j])
    ensures OnlyIntegersIn(After(t, ops).value, i) && forall id :: !LeftBehind(t, ops, id, i, Float(f))
  {
    RunAdmits(t, ops);
    assert !FitsColumn(t.columns[i], Float(f));
    forall id | id in After(t, ops).value.rows
      ensures var x := After(t, ops).value.rows[id][i]; x.Integer? || x.Null?
    {
      assert FitsColumn(t.columns[i], After(t, ops).value.rows[id][i]);
    }
  }

  // ---------------------------------------------------------------- field = field

  function FieldsMatch(f: Text, g: Text): Expression {
    Operation(Equal(Field(f), Field(g)))
  }

  /** Such a filter is read as a search of the first field for NULL. */
  lemma FieldsTest(t: Schema, i: nat, j: nat, row: Row, widen: i64 -> real)
    requires DistinctNames(t.columns) && i < |t.columns| <= |row| && j < |t.columns|
    ensures var e := FieldsMatch(t.columns[i].name, t.columns[j].name);
      && ParseScanFilter(e) == Found(t.columns[i].name, Null)
      && Keeps(t, e, row, widen) == VerdictOf(Compare(row[i], row[j], widen))
  {
    PositionOf(t, i, 0);
    PositionOf(t, j, 0);
    assert Names(t)[0..] == Names(t);
    var e, cut := FieldsMatch(t.columns[i].name, t.columns[j].name), row[..|t.columns|];
    assert ParseScanFilter(e.op.l) == Found(t.columns[i].name, Null);
    assert ParseScanFilter(e.op.r) == Found(t.columns[j].name, Null);
    assert Evaluate(e.op.l, Names(t), cut, Names(t), cut, widen) == Ok(row[i]);
    assert Evaluate(e.op.r, Names(t), cut, Names(t), cut, widen) == Ok(row[j]);
  }

  lemma FieldsAreRead(f: Text, g: Text)
    ensures ParseScanFilter(FieldsMatch(f, g)) == Found(f, Null)
  {
    assert ParseScanFilter(Field(f)) == Found(f, Null) && ParseScanFilter(Field(g)) == Found(g, Null);
  }

  /** Comparing the primary key with a column finds no row at all, which is right exactly when in every row the
      two compare and are not equal. */
  lemma KeyAgainstColumnExact(t: Schema, ops: seq<RowOp>, j: nat, widen: i64 -> real)
    requires Usable(t) && After(t, ops).Some? && j < |t.columns|
    ensures var s, filter := After(t, ops).value, Some(FieldsMatch(t.columns[KeyOf(t)].name, t.columns[j].name));
      && RowsLongEnough(t, s)
      && PlannedRows(t, s, BuildScan(Some(t), filter), widen) == Ok({})
      && (Ok({}) == Selected(t, s, filter, widen)
          <==> forall id :: id in s.rows ==>
            var c := Compare(s.rows[id][KeyOf(t)], s.rows[id][j], widen); !c.Same? && !c.Incomparable?)
  {
    var k, s := KeyOf(t), After(t, ops).value;
    var e := FieldsMatch(t.columns[k].name, t.columns[j].name);
    RunKeeps(t, ops);
    FieldsAreRead(t.columns[k].name, t.columns[j].name);
    PlanOfFilter(t, k, e, Null);
    KeyPlanExact(t, s, e, Null, widen);
    forall id | id in s.rows
      ensures id != Null && Keeps(t, e, s.rows[id], widen) == VerdictOf(Compare(s.rows[id][k], s.rows[id][j], widen))
    {
      assert OwnKey(t, id, s.rows[id]);
      FieldsTest(t, k, j, s.rows[id], widen);
    }
  }

  /** Comparing an indexed column with a column finds the rows with NULL in it and those that have left NULL behind.
      That is right exactly when no row has NULL there, the two columns always compare, and they are equal just in
      the rows that have left NULL behind. */
  lemma IndexAgainstColumnExact(t: Schema, ops: seq<RowOp>, i: nat, j: nat, widen: i64 -> real)
    requires Usable(t) && After(t, ops).Some? && i < |t.columns| && t.columns[i].indexed && j < |t.columns|
    ensures var s, filter := After(t, ops).value, Some(FieldsMatch(t.columns[i].name, t.columns[j].name));
      && RowsLongEnough(t, s)
      && (PlannedRows(t, s, BuildScan(Some(t), filter), widen) == Selected(t, s, filter, widen)
          <==> forall id :: id in s.rows ==>
            var c := Compare(s.rows[id][i], s.rows[id][j], widen);
            s.rows[id][i] != Null && !c.Incomparable? && (c.Same? <==> LeftBehind(t, ops, id, i, Null)))
  {
    var s, e := After(t, ops).value, FieldsMatch(t.columns[i].name, t.columns[j].name);
    FieldsAreRead(t.columns[i].name, t.columns[j].name);
    IndexPlanExact(t, ops, i, e, Null, widen);
    forall id | id in s.rows
      ensures Keeps(t, e, s.rows[id], widen) == VerdictOf(Compare(s.rows[id][i], s.rows[id][j], widen))
    {
      FieldsTest(t, i, j, s.rows[id], widen);
    }
  }

  // ---------------------------------------------------------------- runs on which planning goes wrong

  const A: Text := [97]
  const B: Text := [98]
  const C: Text := [99]

  /** CREATE TABLE t (a INT PRIMARY KEY, b INT INDEX, c INT). */
  function Example(): (t: Schema)
    ensures Usable(t) && KeyOf(t) == 0
    ensures |t.columns| == 3 && t.columns[0].name == A && t.columns[1].name == B && t.columns[2].name == C
    ensures t.columns[1].indexed && !t.columns[1].primaryKey && t.columns[1].nullable
    ensures forall i :: 0 <= i < 3 ==> t.columns[i].dataType == IntegerType
  {
    var t := Schema([116], [Column(A, IntegerType, false, None, true, false),
                            Column(B, IntegerType, true, Some(Null), false, true),
                            Column(C, IntegerType, true, Some(Null), false, false)]);
    assert t.columns[0].primaryKey;
    t
  }

  function NewRow(b: Value, c: Value): Row {
    [Integer(1), b, c]
  }

  lemma OneRowCreated(t: Schema, row: Row)
    requires Usable(t) && |t.columns| <= |row| && Admitted(t, row)
    ensures var after := After(t, [Create(row)]);
      after.Some? && after.value.rows == map[row[KeyOf(t)] := row]
  {
    assert After(t, [Create(row)][..0]) == Some(NEW_TABLE);
  }

  lemma NewRowCreated(b: Value, c: Value)
    requires (b.Integer? || b.Null?) && (c.Integer? || c.Null?)
    ensures var after := After(Example(), [Create(NewRow(b, c))]);
      after.Some? && after.value.rows == map[Integer(1) := NewRow(b, c)]
  {
    assert forall i :: 0 <= i < 3 ==> FitsColumn(Example().columns[i], NewRow(b, c)[i]);
    OneRowCreated(Example(), NewRow(b, c));
  }

  lemma SelectedFromOne(t: Schema, s: TableState, id: Value, row: Row, e: Expression, widen: i64 -> real)
    requires s.rows == map[id := row] && |t.columns| <= |row|
    ensures Selected(t, s, Some(e), widen)
         == match Keeps(t, e, row, widen) case Bad => Err case Yes => Ok({row}) case No => Ok({})
  {
    assert id in s.rows && s.rows[id] == row;
    var kept := set k | k in s.rows && Keeps(t, e, s.rows[k], widen) == Yes :: s.rows[k];
    if Keeps(t, e, row, widen) == Yes { assert kept == {row}; } else { assert kept == {}; }
  }

  /** `WHERE a = c` on a row with equal values there: the filter keeps it, the plan finds nothing. */
  lemma EqualColumnsAreMissed(widen: i64 -> real)
    ensures var row := NewRow(Integer(5), Integer(1));
      var t, after, filter := Example(), After(Example(), [Create(row)]), Some(FieldsMatch(A, C));
      && after.Some? && RowsLongEnough(t, after.value)
      && Selected(t, after.value, filter, widen) == Ok({row})
      && PlannedRows(t, after.value, BuildScan(Some(t), filter), widen) == Ok({})
  {
    var row := NewRow(Integer(5), Integer(1));
    NewRowCreated(Integer(5), Integer(1));
    KeyAgainstColumnExact(Example(), [Create(row)], 2, widen);
    FieldsTest(Example(), 0, 2, row, widen);
    SelectedFromOne(Example(), After(Example(), [Create(row)]).value, Integer(1), row, FieldsMatch(A, C), widen);
  }

  /** `WHERE b = c` on a row with NULL in b: the filter drops it, the plan returns it. */
  lemma NullsAreReturned(widen: i64 -> real)
    ensures var row := NewRow(Null, Integer(4));
      var t, after, filter := Example(), After(Example(), [Create(row)]), Some(FieldsMatch(B, C));
      && after.Some? && RowsLongEnough(t, after.value)
      && Selected(t, after.value, filter, widen) == Ok({})
      && PlannedRows(t, after.value, BuildScan(Some(t), filter), widen) == Ok({row})
  {
    var t, row := Example(), NewRow(Null, Integer(4));
    NewRowCreated(Null, Integer(4));
    var s := After(t, [Create(row)]).value;
    FieldsAreRead(B, C);
    PlanOfFilter(t, 1, FieldsMatch(B, C), Null);
    FieldsTest(t, 1, 2, row, widen);
    SelectedFromOne(t, s, Integer(1), row, FieldsMatch(B, C), widen);
    IndexListsExactly(t, [Create(row)], Integer(1), 1, Null);
    assert Holds(s, Integer(1), 1, Null);
    assert RowsListed(s, B, Null) == {row} by { assert s.rows[Integer(1)] == row; }
  }

  /** `WHERE b = 2 + 3` on a row with the integer 5 in b: the filter keeps it, the plan finds nothing. */
  lemma FloatMissesInteger(widen: i64 -> real)
    requires widen(5) == 5.0
    ensures var row := NewRow(Integer(5), Integer(4));
      var t, after, filter := Example(), After(Example(), [Create(row)]), Some(FieldIs(B, Float(5.0)));
      && after.Some? && RowsLongEnough(t, after.value)
      && Selected(t, after.value, filter, widen) == Ok({row})
      && PlannedRows(t, after.value, BuildScan(Some(t), filter), widen) == Ok({})
  {
    var t, row := Example(), NewRow(Integer(5), Integer(4));
    NewRowCreated(Integer(5), Integer(4));
    FieldIsFound(B, Float(5.0));
    PlanOfFilter(t, 1, FieldIs(B, Float(5.0)), Float(5.0));
    NoFloatListed(t, [Create(row)], 1, 5.0);
    ConstantTest(t, 1, Float(5.0), row, widen);
    SelectedFromOne(t, After(t, [Create(row)]).value, Integer(1), row, FieldIs(B, Float(5.0)), widen);
  }

  /** `WHERE a = 18446744073709551616.0` on the largest key there is: the filter drops the row, the plan returns it. */
  lemma LargeFloatFindsLargestKey(widen: i64 -> real)
    requires widen(MAX) < 18446744073709551616.0
    ensures var row, v := [Integer(MAX), Null, Null], Float(18446744073709551616.0);
      var t, after, filter := Example(), After(Example(), [Create(row)]), Some(FieldIs(A, v));
      && after.Some? && RowsLongEnough(t, after.value)
      && Selected(t, after.value, filter, widen) == Ok({})
      && PlannedRows(t, after.value, BuildScan(Some(t), filter), widen) == Ok({row})
  {
    var t, row, v := Example(), [Integer(MAX), Null, Null], Float(18446744073709551616.0);
    assert forall i :: 0 <= i < 3 ==> FitsColumn(t.columns[i], row[i]);
    OneRowCreated(t, row);
    FieldIsFound(A, v);
    PlanOfFilter(t, 0, FieldIs(A, v), v);
    ConstantTest(t, 0, v, row, widen);
    SelectedFromOne(t, After(t, [Create(row)]).value, Integer(MAX), row, FieldIs(A, v), widen);
    assert IdOf(v) == Integer(MAX);
  }

  /** CREATE TABLE t (a FLOAT PRIMARY KEY). */
  function FloatKeyed(): (t: Schema)
    ensures Usable(t) && KeyOf(t) == 0 && |t.columns| == 1
    ensures t.columns[0].name == A && t.columns[0].dataType == FloatType
  {
    var t := Schema([116], [Column(A, FloatType, false, None, true, false)]);
    assert t.columns[0].primaryKey;
    t
  }

  /** `WHERE a = 2.0` on a FLOAT key that is 2.0: the filter keeps the row, the plan finds nothing. */
  lemma FloatKeyIsMissed(widen: i64 -> real)
    ensures var row := [Float(2.0)];
      var t, after, filter := FloatKeyed(), After(FloatKeyed(), [Create(row)]), Some(FieldIs(A, Float(2.0)));
      && after.Some? && RowsLongEnough(t, after.value)
      && Selected(t, after.value, filter, widen) == Ok({row})
      && PlannedRows(t, after.value, BuildScan(Some(t), filter), widen) == Ok({})
  {
    var t, row, v := FloatKeyed(), [Float(2.0)], Float(2.0);
    assert FitsColumn(t.columns[0], row[0]);
    OneRowCreated(t, row);
    FieldIsFound(A, v);
    PlanOfFilter(t, 0, FieldIs(A, v), v);
    ConstantTest(t, 0, v, row, widen);
    SelectedFromOne(t, After(t, [Create(row)]).value, v, row, FieldIs(A, v), widen);
    assert IdOf(v) == Integer(2);
  }

  /** A row created again with another value, after it was deleted or the table dropped and created again, is still
      found under the first value. */
  lemma StaleEntryIsReturned(gone: RowOp, widen: i64 -> real)
    requires gone == Delete(Integer(1)) || gone == Recreate
    ensures var row, later := NewRow(Integer(5), Integer(4)), NewRow(Integer(7), Integer(4));
      var t, filter := Example(), Some(FieldIs(B, Integer(5)));
      var after := After(t, [Create(row), gone, Create(later)]);
      && after.Some? && RowsLongEnough(t, after.value)
      && Selected(t, after.value, filter, widen) == Ok({})
      && PlannedRows(t, after.value, BuildScan(Some(t), filter), widen) == Ok({later})
  {
    var t, row, later := Example(), NewRow(Integer(5), Integer(4)), NewRow(Integer(7), Integer(4));
    var ops := [Create(row), gone, Create(later)];
    var s := RowReplaced(gone);
    FieldIsFound(B, Integer(5));
    PlanOfFilter(t, 1, FieldIs(B, Integer(5)), Integer(5));
    ConstantTest(t, 1, Integer(5), later, widen);
    SelectedFromOne(t, s, Integer(1), later, FieldIs(B, Integer(5)), widen);
    IndexListsExactly(t, ops, Integer(1), 1, Integer(5));
    assert RowsListed(s, B, Integer(5)) == {later} by { assert s.rows[Integer(1)] == later; }
  }

  lemma RowReplaced(gone: RowOp) returns (s: TableState)
    requires gone == Delete(Integer(1)) || gone == Recreate
    ensures var row, later := NewRow(Integer(5), Integer(4)), NewRow(Integer(7), Integer(4));
      var ops := [Create(row), gone, Create(later)];
      && After(Example(), ops) == Some(s) && s.rows == map[Integer(1) := later]
      && LeftBehind(Example(), ops, Integer(1), 1, Integer(5))
  {
    var t, row, later := Example(), NewRow(Integer(5), Integer(4)), NewRow(Integer(7), Integer(4));
    var two := [Create(row), gone];
    RowGone(gone);
    AfterOneMore(t, two, Create(later));
    assert (two + [Create(later)])[..2] == two;
    assert two + [Create(later)] == [Create(row), gone, Create(later)];
    assert forall i :: 0 <= i < 3 ==> FitsColumn(t.columns[i], later[i]);
    s := After(t, two + [Create(later)]).value;
  }

  lemma RowGone(gone: RowOp)
    requires gone == Delete(Integer(1)) || gone == Recreate
    ensures var ops := [Create(NewRow(Integer(5), Integer(4))), gone];
      After(Example(), ops).Some? && After(Example(), ops).value.rows == map[]
      && LeftBehind(Example(), ops, Integer(1), 1, Integer(5))
  {
    var t, row := Example(), NewRow(Integer(5), Integer(4));
    var one, two := [Create(row)], [Create(row), gone];
    NewRowCreated(Integer(5), Integer(4));
    AfterOneMore(t, one, gone);
    assert one + [gone] == two;
    assert two[..1] == one && Holds(After(t, one).value, Integer(1), 1, Integer(5));
  }

  /** `UPDATE t SET a = 2, b = 'x'` is refused, and the transaction it was part of no longer has the row; a statement
      on its own is rolled back with its transaction. */
  lemma RowIsLost(row: Row)
    requires row == NewRow(Integer(5), Integer(4))
    ensures var t, update := Example(), Update(Integer(1), [Integer(2), String([120]), Integer(4)]);
      && After(t, [Create(row)]).Some? && After(t, [Create(row), update]).Some?
      && !UpdateNext(t, After(t, [Create(row)]).value, update.id, update.row).ok
      && After(t, [Create(row), update]).value.rows == map[]
  {
    var t, update := Example(), Update(Integer(1), [Integer(2), String([120]), Integer(4)]);
    NewRowCreated(Integer(5), Integer(4));
    assert !FitsColumn(t.columns[1], update.row[1]);
    FailedUpdateLosesRow(t, [Create(row)], update.id, update.row);
    assert [Create(row)] + [update] == [Create(row), update];
  }

  /** `UPDATE t SET b = 'x'` is not, although the column holds integers. */
  lemma UpdateIsUnchecked(row: Row)
    requires row == NewRow(Integer(5), Integer(4))
    ensures var t, update := Example(), Update(Integer(1), NewRow(String([120]), Integer(4)));
      && After(t, [Create(row)]).Some? && After(t, [Create(row), update]).Some?
      && UpdateNext(t, After(t, [Create(row)]).value, update.id, update.row).ok
      && !AllAdmitted(t, After(t, [Create(row), update]).value)
  {
    var t, update := Example(), Update(Integer(1), NewRow(String([120]), Integer(4)));
    NewRowCreated(Integer(5), Integer(4));
    assert !FitsColumn(t.columns[1], update.row[1]);
    RunAdmits(t, [Create(row)]);
    KeepsAdmittedExactly(t, After(t, [Create(row)]).value, update);
    AfterOneMore(t, [Create(row)], update);
    assert [Create(row)] + [update] == [Create(row), update];
  }
}
