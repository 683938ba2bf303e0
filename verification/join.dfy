/** Nested-loop and hash joins, when they agree, and the rewriting of right joins. */
module Joins {
  import opened ByteOrder
  import opened Ast

  type Row = seq<Value>
  type Columns = seq<Text>

  /** `iter().position(..)`. */
  function Position(cols: Columns, name: Text): (p: Option<nat>)
    ensures p.Some? ==> p.value < |cols| && cols[p.value] == name
    ensures p.None? ==> name !in cols
  {
    if cols == [] then None
    else if cols[0] == name then Some(0)
    else match Position(cols[1..], name) case Some(i) => Some(i + 1) case None => None
  }

  /** The first column of this name. */
  lemma {:induction false} PositionIsFirst(cols: Columns, name: Text, i: nat)
    requires Position(cols, name).Some? && i < Position(cols, name).value
    ensures cols[i] != name
  {
    if i > 0 { PositionIsFirst(cols[1..], name, i - 1); }
  }

  // ---------------------------------------------------------------- SQL comparison

  datatype Comparison = Below | Same | Above | WithNull | Incomparable

  function CompareReals(x: real, y: real): Comparison {
    if x < y then Below else if x == y then Same else Above
  }

  /** NULL compares to nothing, integers are widened to meet floats, other mixed types are errors. */
  function Compare(x: Value, y: Value, widen: i64 -> real): Comparison {
    match (x, y)
    case (Null, _) => WithNull
    case (_, Null) => WithNull
    case (Boolean(a), Boolean(b)) => if a == b then Same else if b then Below else Above
    case (Integer(a), Integer(b)) => if a < b then Below else if a == b then Same else Above
    case (Integer(a), Float(b)) => CompareReals(widen(a), b)
    case (Float(a), Integer(b)) => CompareReals(a, widen(b))
    case (Float(a), Float(b)) => CompareReals(a, b)
    case (String(a), String(b)) => if a == b then Same else if Less(a, b) then Below else Above
    case _ => Incomparable
  }

  function Truth(c: Comparison, wanted: Comparison): Result<Value> {
    match c
    case WithNull => Ok(Null)
    case Incomparable => Err
    case _ => Ok(Boolean(c == wanted))
  }

  /** Right operands are evaluated with the two rows exchanged. */
  function Evaluate(e: Expression, lcols: Columns, lrow: Row, rcols: Columns, rrow: Row,
      widen: i64 -> real): Result<Value>
    requires |lrow| == |lcols| && |rrow| == |rcols|
  {
    match e
    case Field(name) => (match Position(lcols, name) case Some(p) => Ok(lrow[p]) case None => Err)
    case Consts(v) => Ok(v)
    case Function(_, _) => Err
    case Operation(op) =>
      var lv := Evaluate(op.l, lcols, lrow, rcols, rrow, widen);
      var rv := Evaluate(op.r, rcols, rrow, lcols, lrow, widen);
      if lv.Err? || rv.Err? then Err
      else Truth(Compare(lv.value, rv.value, widen), Wanted(op))
  }

  function Wanted(op: Operation): Comparison {
    match op
    case Equal(_, _) => Same
    case GreaterThan(_, _) => Above
    case LessThan(_, _) => Below
  }

  // ---------------------------------------------------------------- joins by a match relation

  datatype Table = Table(cols: Columns, rows: seq<Row>)

  predicate Shaped(t: Table) {
    forall i :: 0 <= i < |t.rows| ==> |t.rows[i]| == |t.cols|
  }

  function Nulls(n: nat): (row: Row)
    ensures |row| == n
  {
    if n == 0 then [] else Nulls(n - 1) + [Null]
  }

  /** The row joined with each of its matches, in order. */
  function Matches(l: Row, rrows: seq<Row>, m: (Row, Row) -> bool): seq<Row> {
    if rrows == [] then [] else
      var last := rrows[|rrows| - 1];
      Matches(l, rrows[..|rrows| - 1], m) + (if m(l, last) then [l + last] else [])
  }

  /** The naive join: each left row with its matches, or padded with NULLs when there are none. */
  function JoinBy(lrows: seq<Row>, rrows: seq<Row>, m: (Row, Row) -> bool, outer: bool, width: nat): seq<Row> {
    if lrows == [] then [] else
      JoinBy(lrows[..|lrows| - 1], rrows, m, outer, width) + JoinOne(lrows[|lrows| - 1], rrows, m, outer, width)
  }

  function JoinOne(l: Row, rrows: seq<Row>, m: (Row, Row) -> bool, outer: bool, width: nat): seq<Row> {
    var ms := Matches(l, rrows, m);
    if ms == [] && outer then [l + Nulls(width)] else ms
  }

  lemma JoinNext(lrows: seq<Row>, i: nat, rrows: seq<Row>, m: (Row, Row) -> bool, outer: bool, width: nat)
    requires i < |lrows|
    ensures JoinBy(lrows[..i + 1], rrows, m, outer, width)
         == JoinBy(lrows[..i], rrows, m, outer, width) + JoinOne(lrows[i], rrows, m, outer, width)
  {
    assert lrows[..i + 1][..i] == lrows[..i];
  }

  /** Without a predicate every pair is joined, and no left row counts as matched. */
  function CrossBy(lrows: seq<Row>, rrows: seq<Row>, outer: bool, width: nat): seq<Row> {
    if lrows == [] then [] else
      CrossBy(lrows[..|lrows| - 1], rrows, outer, width) + CrossOne(lrows[|lrows| - 1], rrows, outer, width)
  }

  function Always(): (Row, Row) -> bool {
    (a, b) => true
  }

  function CrossOne(l: Row, rrows: seq<Row>, outer: bool, width: nat): seq<Row> {
    Matches(l, rrows, Always()) + (if outer then [l + Nulls(width)] else [])
  }

  lemma CrossNext(lrows: seq<Row>, i: nat, rrows: seq<Row>, outer: bool, width: nat)
    requires i < |lrows|
    ensures CrossBy(lrows[..i + 1], rrows, outer, width)
         == CrossBy(lrows[..i], rrows, outer, width) + CrossOne(lrows[i], rrows, outer, width)
  {
    assert lrows[..i + 1][..i] == lrows[..i];
  }

  lemma {:induction false} SameMatches(l: Row, rrows: seq<Row>, m: (Row, Row) -> bool, m': (Row, Row) -> bool)
    requires forall i :: 0 <= i < |rrows| ==> m(l, rrows[i]) == m'(l, rrows[i])
    ensures Matches(l, rrows, m) == Matches(l, rrows, m')
  {
    if rrows != [] { SameMatches(l, rrows[..|rrows| - 1], m, m'); }
  }

  lemma {:induction false} SameJoin(lrows: seq<Row>, rrows: seq<Row>, m: (Row, Row) -> bool, m': (Row, Row) -> bool,
                                    outer: bool, width: nat)
    requires forall i, j :: 0 <= i < |lrows| && 0 <= j < |rrows| ==> m(lrows[i], rrows[j]) == m'(lrows[i], rrows[j])
    ensures JoinBy(lrows, rrows, m, outer, width) == JoinBy(lrows, rrows, m', outer, width)
  {
    if lrows != [] {
      SameJoin(lrows[..|lrows| - 1], rrows, m, m', outer, width);
      SameMatches(lrows[|lrows| - 1], rrows, m, m');
    }
  }

  // ---------------------------------------------------------------- the nested loop

  datatype Verdict = Yes | No | Bad

  /** How a filter or a join condition takes a comparison for equality. */
  function VerdictOf(c: Comparison): Verdict {
    match c
    case Incomparable => Bad
    case Same => Yes
    case _ => No
  }

  function Test(e: Expression, lcols: Columns, l: Row, rcols: Columns, r: Row, widen: i64 -> real): Verdict {
    if |l| != |lcols| || |r| != |rcols| then Bad else
      match Evaluate(e, lcols, l, rcols, r, widen)
      case Ok(Null) => No
      case Ok(Boolean(b)) => if b then Yes else No
      case _ => Bad
  }

  function Accepts(e: Expression, lcols: Columns, rcols: Columns, widen: i64 -> real): (Row, Row) -> bool {
    (l, r) => Test(e, lcols, l, rcols, r, widen) == Yes
  }

  ghost predicate NoneBad(e: Expression, lcols: Columns, lrows: seq<Row>, rcols: Columns, rrows: seq<Row>,
      widen: i64 -> real) {
    forall i :: 0 <= i < |lrows| ==> RowOk(e, lcols, lrows[i], rcols, rrows, widen)
  }

  ghost predicate RowOk(e: Expression, lcols: Columns, l: Row, rcols: Columns, rrows: seq<Row>, widen: i64 -> real) {
    forall j :: 0 <= j < |rrows| ==> Test(e, lcols, l, rcols, rrows[j], widen) != Bad
  }

  lemma MatchesNext(l: Row, rrows: seq<Row>, j: nat, m: (Row, Row) -> bool)
    requires j < |rrows|
    ensures Matches(l, rrows[..j + 1], m) == Matches(l, rrows[..j], m) + (if m(l, rrows[j]) then [l + rrows[j]] else [])
  {
    assert rrows[..j + 1][..j] == rrows[..j];
  }

  /** The rows one left row joins, and whether it matched; every pair is evaluated. */
  method JoinRow(lcols: Columns, lrow: Row, right: Table, on: Expression, widen: i64 -> real)
    returns (r: Result<seq<Row>>)
    requires Shaped(right) && |lrow| == |lcols|
    ensures r.Ok? <==> RowOk(on, lcols, lrow, right.cols, right.rows, widen)
    ensures r.Ok? ==> r.value == Matches(lrow, right.rows, Accepts(on, lcols, right.cols, widen))
  {
    var rows: seq<Row> := [];
    for j := 0 to |right.rows|
      invariant RowDone(lcols, lrow, right, on, widen, j, rows)
    {
      RowNext(lcols, lrow, right, on, widen, j, rows);
      match Test(on, lcols, lrow, right.cols, right.rows[j], widen) {
        case Yes => rows := rows + [lrow + right.rows[j]];
        case No =>
        case Bad => return Err;
      }
    }
    assert right.rows[..|right.rows|] == right.rows;
    return Ok(rows);
  }

  /** What one left row has joined after the first n right rows. */
  ghost predicate RowDone(lcols: Columns, lrow: Row, right: Table, on: Expression, widen: i64 -> real, n: nat,
      rows: seq<Row>)
    requires n <= |right.rows|
  {
    && RowOk(on, lcols, lrow, right.cols, right.rows[..n], widen)
    && rows == Matches(lrow, right.rows[..n], Accepts(on, lcols, right.cols, widen))
  }

  lemma RowNext(lcols: Columns, lrow: Row, right: Table, on: Expression, widen: i64 -> real, n: nat, rows: seq<Row>)
    requires n < |right.rows| && RowDone(lcols, lrow, right, on, widen, n, rows)
    ensures var v, r := Test(on, lcols, lrow, right.cols, right.rows[n], widen), right.rows[n];
      && (v == Bad ==> !RowOk(on, lcols, lrow, right.cols, right.rows, widen))
      && (v != Bad ==>
            RowDone(lcols, lrow, right, on, widen, n + 1, if v == Yes then rows + [lrow + r] else rows))
  {
    MatchesNext(lrow, right.rows, n, Accepts(on, lcols, right.cols, widen));
    assert right.rows[..n + 1] == right.rows[..n] + [right.rows[n]];
  }

  method PairRow(lrow: Row, right: Table) returns (rows: seq<Row>)
    ensures rows == Matches(lrow, right.rows, Always())
  {
    rows := [];
    for j := 0 to |right.rows|
      invariant rows == Matches(lrow, right.rows[..j], Always())
    {
      assert right.rows[..j + 1][..j] == right.rows[..j];
      rows := rows + [lrow + right.rows[j]];
    }
    assert right.rows[..|right.rows|] == right.rows;
  }

  /** What the nested loop has after the first n left rows. */
  ghost predicate LoopDone(left: Table, right: Table, on: Option<Expression>, outer: bool, widen: i64 -> real,
      n: nat, rows: seq<Row>)
    requires n <= |left.rows|
  {
    if on.None? then rows == CrossBy(left.rows[..n], right.rows, outer, |right.cols|)
    else
      && NoneBad(on.value, left.cols, left.rows[..n], right.cols, right.rows, widen)
      && var m := Accepts(on.value, left.cols, right.cols, widen);
        rows == JoinBy(left.rows[..n], right.rows, m, outer, |right.cols|)
  }

  lemma LoopNext(left: Table, right: Table, on: Option<Expression>, outer: bool, widen: i64 -> real, n: nat,
      rows: seq<Row>, more: seq<Row>)
    requires n < |left.rows| && LoopDone(left, right, on, outer, widen, n, rows)
    requires on.None? ==> more == CrossOne(left.rows[n], right.rows, outer, |right.cols|)
    requires on.Some? ==>
      && RowOk(on.value, left.cols, left.rows[n], right.cols, right.rows, widen)
      && more == JoinOne(left.rows[n], right.rows, Accepts(on.value, left.cols, right.cols, widen), outer, |right.cols|)
    ensures LoopDone(left, right, on, outer, widen, n + 1, rows + more)
  {
    if on.None? {
      CrossNext(left.rows, n, right.rows, outer, |right.cols|);
    } else {
      JoinNext(left.rows, n, right.rows, Accepts(on.value, left.cols, right.cols, widen), outer, |right.cols|);
      assert left.rows[..n + 1] == left.rows[..n] + [left.rows[n]];
    }
  }

  method NestedLoopJoin(left: Table, right: Table, on: Option<Expression>, outer: bool, widen: i64 -> real)
    returns (r: Result<Table>)
    requires Shaped(left) && Shaped(right)
    ensures on.None? ==>
      r == Ok(Table(left.cols + right.cols, CrossBy(left.rows, right.rows, outer, |right.cols|)))
    ensures on.Some? ==>
      (r.Ok? <==> NoneBad(on.value, left.cols, left.rows, right.cols, right.rows, widen))
    ensures on.Some? && r.Ok? ==>
      r.value == Table(left.cols + right.cols,
        JoinBy(left.rows, right.rows, Accepts(on.value, left.cols, right.cols, widen), outer, |right.cols|))
  {
    var newRows: seq<Row> := [];
    for i := 0 to |left.rows|
      invariant LoopDone(left, right, on, outer, widen, i, newRows)
    {
      var rows := LoopRow(left.cols, left.rows[i], right, on, outer, widen);
      if rows.Err? { return Err; }
      LoopNext(left, right, on, outer, widen, i, newRows, rows.value);
      newRows := newRows + rows.value;
    }
    assert left.rows[..|left.rows|] == left.rows;
    return Ok(Table(left.cols + right.cols, newRows));
  }

  /** One turn of the outer loop. */
  method LoopRow(lcols: Columns, lrow: Row, right: Table, on: Option<Expression>, outer: bool, widen: i64 -> real)
    returns (r: Result<seq<Row>>)
    requires Shaped(right) && |lrow| == |lcols|
    ensures on.None? ==> r == Ok(CrossOne(lrow, right.rows, outer, |right.cols|))
    ensures on.Some? ==>
      (r.Ok? <==> RowOk(on.value, lcols, lrow, right.cols, right.rows, widen))
    ensures on.Some? && r.Ok? ==>
      r.value == JoinOne(lrow, right.rows, Accepts(on.value, lcols, right.cols, widen), outer, |right.cols|)
  {
    var newRows: seq<Row>;
    var matched := false;
    if on.Some? {
      var rows := JoinRow(lcols, lrow, right, on.value, widen);
      if rows.Err? { return Err; }
      newRows := rows.value;
      matched := rows.value != [];
    } else {
      newRows := PairRow(lrow, right);
    }
    if outer && !matched {
      newRows := newRows + [lrow + Nulls(|right.cols|)];
    }
    assert !outer ==> newRows + [] == newRows;
    return Ok(newRows);
  }

  // ---------------------------------------------------------------- the hash join

  /** The column names of a join condition; unwrapping a missing one panics in the original. */
  datatype JoinNames = Named(l: Text, r: Text) | Unsupported | Panics

  function ParseJoin(e: Expression): JoinNames {
    match e
    case Field(f) => Named(f, [])
    case Operation(Equal(l, r)) =>
      (match (ParseJoin(l), ParseJoin(r))
       case (Named(a, _), Named(b, _)) => Named(a, b)
       case _ => Panics)
    case _ => Unsupported
  }

  datatype JoinResult = Joined(table: Table) | Failed | Panicked

  function OnColumns(lp: nat, rp: nat): (Row, Row) -> bool {
    (l: Row, r: Row) => lp < |l| && rp < |r| && l[lp] == r[rp]
  }

  /** The positions of the rows with this value in a column. */
  function IndexesOf(rows: seq<Row>, p: nat, v: Value): (idx: seq<nat>)
    ensures forall k :: 0 <= k < |idx| ==> idx[k] < |rows|
  {
    if rows == [] then [] else
      var n := |rows| - 1;
      IndexesOf(rows[..n], p, v) + (if p < |rows[n]| && rows[n][p] == v then [n] else [])
  }

  function Gather(l: Row, rows: seq<Row>, idx: seq<nat>): seq<Row>
    requires forall k :: 0 <= k < |idx| ==> idx[k] < |rows|
  {
    if idx == [] then [] else Gather(l, rows, idx[..|idx| - 1]) + [l + rows[idx[|idx| - 1]]]
  }

  lemma {:induction false} GatherFromFront(l: Row, rows: seq<Row>, n: nat, idx: seq<nat>)
    requires n <= |rows| && forall k :: 0 <= k < |idx| ==> idx[k] < n
    ensures Gather(l, rows[..n], idx) == Gather(l, rows, idx)
  {
    if idx != [] { GatherFromFront(l, rows, n, idx[..|idx| - 1]); }
  }

  /** Looking up the hash table and following its indexes finds exactly the matches, in order. */
  lemma {:induction false} GatherIsMatches(l: Row, rows: seq<Row>, lp: nat, rp: nat)
    requires lp < |l|
    ensures Gather(l, rows, IndexesOf(rows, rp, l[lp])) == Matches(l, rows, OnColumns(lp, rp))
  {
    if rows != [] {
      var n := |rows| - 1;
      var idx := IndexesOf(rows[..n], rp, l[lp]);
      GatherIsMatches(l, rows[..n], lp, rp);
      GatherFromFront(l, rows, n, idx);
      if rp < |rows[n]| && rows[n][rp] == l[lp] { assert (idx + [n])[..|idx|] == idx; }
      else { assert idx + [] == idx; }
    }
  }

  method HashJoin(left: Table, right: Table, on: Option<Expression>, outer: bool) returns (r: JoinResult)
    requires Shaped(left) && Shaped(right)
    ensures r == HashExecuted(left, right, on, outer)
  {
    if on.None? { return Failed; }
    var names := ParseJoin(on.value);
    if names.Unsupported? { return Failed; }
    if names.Panics? { return Panicked; }
    var rpos := Position(right.cols, names.r);
    if rpos.None? { return Failed; }
    var joinMap := BuildJoinMap(right, rpos.value);
    var lpos := Position(left.cols, names.l);
    if lpos.None? { return Failed; }
    var newRows: seq<Row> := [];
    ghost var m := OnColumns(lpos.value, rpos.value);
    for i := 0 to |left.rows|
      invariant newRows == JoinBy(left.rows[..i], right.rows, m, outer, |right.cols|)
    {
      var rows := ProbeRow(left.rows[i], right, joinMap, lpos.value, rpos.value, outer);
      JoinNext(left.rows, i, right.rows, m, outer, |right.cols|);
      newRows := newRows + rows;
    }
    assert left.rows[..|left.rows|] == left.rows;
    r := Joined(Table(left.cols + right.cols, newRows));
  }

  method ProbeRow(lrow: Row, right: Table, joinMap: map<Value, seq<nat>>, lp: nat, rp: nat, outer: bool)
    returns (rows: seq<Row>)
    requires lp < |lrow|
    requires Indexed(joinMap, right.rows, rp)
    ensures rows == JoinOne(lrow, right.rows, OnColumns(lp, rp), outer, |right.cols|)
  {
    var lvalue := lrow[lp];
    assert IndexesOf(right.rows, rp, lvalue) == if lvalue in joinMap then joinMap[lvalue] else [];
    GatherIsMatches(lrow, right.rows, lp, rp);
    if lvalue in joinMap {
      rows := FollowIndexes(lrow, right.rows, joinMap[lvalue]);
    } else {
      rows := if outer then [lrow + Nulls(|right.cols|)] else [];
    }
  }

  function HashExecuted(left: Table, right: Table, on: Option<Expression>, outer: bool): JoinResult {
    if on.None? then Failed else
      match ParseJoin(on.value)
      case Unsupported => Failed
      case Panics => Panicked
      case Named(lname, rname) => HashJoined(left, right, lname, rname, outer)
  }

  /** The naive join by structural equality of the two columns. */
  function HashJoined(left: Table, right: Table, lname: Text, rname: Text, outer: bool): JoinResult {
    match (Position(left.cols, lname), Position(right.cols, rname))
    case (Some(lp), Some(rp)) =>
      Joined(Table(left.cols + right.cols, JoinBy(left.rows, right.rows, OnColumns(lp, rp), outer, |right.cols|)))
    case _ => Failed
  }

  /** The hash table from a column's values to the positions of the rows that hold them. */
  method BuildJoinMap(right: Table, rp: nat) returns (joinMap: map<Value, seq<nat>>)
    requires Shaped(right) && rp < |right.cols|
    ensures Indexed(joinMap, right.rows, rp)
  {
    joinMap := map[];
    for i := 0 to |right.rows|
      invariant Indexed(joinMap, right.rows[..i], rp)
    {
      var key := right.rows[i][rp];
      var known := if key in joinMap then joinMap[key] else [];
      var joinMap' := joinMap[key := known + [i]];
      IndexedNext(joinMap, joinMap', right.rows, i, rp);
      joinMap := joinMap';
    }
    assert right.rows[..|right.rows|] == right.rows;
  }

  /** The table holds for each value the positions of its rows, and nothing for other values. */
  ghost predicate Indexed(joinMap: map<Value, seq<nat>>, rows: seq<Row>, rp: nat) {
    && (forall v {:trigger IndexesOf(rows, rp, v)} ::
          IndexesOf(rows, rp, v) == if v in joinMap then joinMap[v] else [])
    && (forall v :: v in joinMap ==> joinMap[v] != [])
  }

  lemma IndexedNext(joinMap: map<Value, seq<nat>>, joinMap': map<Value, seq<nat>>, rows: seq<Row>, i: nat, rp: nat)
    requires i < |rows| && rp < |rows[i]| && Indexed(joinMap, rows[..i], rp)
    requires var key := rows[i][rp];
      joinMap' == joinMap[key := (if key in joinMap then joinMap[key] else []) + [i]]
    ensures Indexed(joinMap', rows[..i + 1], rp)
  {
    assert rows[..i + 1][..i] == rows[..i];
    forall v ensures IndexesOf(rows[..i + 1], rp, v) == if v in joinMap' then joinMap'[v] else [] {
      assert IndexesOf(rows[..i], rp, v) == if v in joinMap then joinMap[v] else [];
    }
  }

  method FollowIndexes(lrow: Row, rows: seq<Row>, idx: seq<nat>) returns (out: seq<Row>)
    requires forall k :: 0 <= k < |idx| ==> idx[k] < |rows|
    ensures out == Gather(lrow, rows, idx)
    ensures |out| == |idx|
  {
    out := [];
    for k := 0 to |idx|
      invariant out == Gather(lrow, rows, idx[..k]) && |out| == k
    {
      assert idx[..k + 1][..k] == idx[..k];
      out := out + [lrow + rows[idx[k]]];
    }
    assert idx[..|idx|] == idx;
  }

  // ---------------------------------------------------------------- when the two joins agree

  /** Values on which structural equality and SQL equality give the same answer. */
  predicate Agreeable(x: Value, y: Value, widen: i64 -> real) {
    match (x, y)
    case (Null, Null) => false
    case (Null, _) => true
    case (_, Null) => true
    case (Boolean(_), Boolean(_)) => true
    case (Integer(_), Integer(_)) => true
    case (Float(_), Float(_)) => true
    case (String(_), String(_)) => true
    case (Integer(a), Float(b)) => widen(a) != b
    case (Float(a), Integer(b)) => a != widen(b)
    case _ => false
  }

  function OnEqual(lname: Text, rname: Text): Expression {
    Operation(Equal(Field(lname), Field(rname)))
  }

  lemma EqualityTest(lname: Text, rname: Text, lcols: Columns, l: Row, rcols: Columns, r: Row,
                     lp: nat, rp: nat, widen: i64 -> real)
    requires |l| == |lcols| && |r| == |rcols|
    requires Position(lcols, lname) == Some(lp) && Position(rcols, rname) == Some(rp)
    ensures var v := Test(OnEqual(lname, rname), lcols, l, rcols, r, widen);
      && v == VerdictOf(Compare(l[lp], r[rp], widen))
      && (Agreeable(l[lp], r[rp], widen) <==> v == if l[lp] == r[rp] then Yes else No)
  {
    var e := OnEqual(lname, rname);
    assert Evaluate(e.op.l, lcols, l, rcols, r, widen) == Ok(l[lp]);
    assert Evaluate(e.op.r, rcols, r, lcols, l, widen) == Ok(r[rp]);
  }

  ghost predicate AllAgreeable(left: Table, right: Table, lp: nat, rp: nat, widen: i64 -> real) {
    forall i, j :: 0 <= i < |left.rows| && 0 <= j < |right.rows| && lp < |left.rows[i]| && rp < |right.rows[j]|
      ==> Agreeable(left.rows[i][lp], right.rows[j][rp], widen)
  }

  ghost predicate NestedAgrees(left: Table, right: Table, lname: Text, rname: Text, lp: nat, rp: nat, outer: bool,
      widen: i64 -> real) {
    var e := OnEqual(lname, rname);
    && NoneBad(e, left.cols, left.rows, right.cols, right.rows, widen)
    && JoinBy(left.rows, right.rows, Accepts(e, left.cols, right.cols, widen), outer, |right.cols|)
       == JoinBy(left.rows, right.rows, OnColumns(lp, rp), outer, |right.cols|)
  }

  /** On agreeable columns the nested loop gives exactly the rows of the hash join, inner or outer. */
  lemma AgreeableJoins(left: Table, right: Table, lname: Text, rname: Text, lp: nat, rp: nat, outer: bool,
      widen: i64 -> real)
    requires Shaped(left) && Shaped(right)
    requires Position(left.cols, lname) == Some(lp) && Position(right.cols, rname) == Some(rp)
    requires AllAgreeable(left, right, lp, rp, widen)
    ensures NestedAgrees(left, right, lname, rname, lp, rp, outer, widen)
  {
    var e := OnEqual(lname, rname);
    forall i, j | 0 <= i < |left.rows| && 0 <= j < |right.rows|
      ensures Test(e, left.cols, left.rows[i], right.cols, right.rows[j], widen)
        == if OnColumns(lp, rp)(left.rows[i], right.rows[j]) then Yes else No
    {
      EqualityTest(lname, rname, left.cols, left.rows[i], right.cols, right.rows[j], lp, rp, widen);
    }
    SameJoin(left.rows, right.rows, Accepts(e, left.cols, right.cols, widen), OnColumns(lp, rp), outer, |right.cols|);
  }

  /** For inner joins that condition is exact: one pair that is not agreeable makes the results differ. */
  lemma InnerJoinsAgreeExactly(left: Table, right: Table, lname: Text, rname: Text, lp: nat, rp: nat,
      widen: i64 -> real)
    requires Shaped(left) && Shaped(right)
    requires Position(left.cols, lname) == Some(lp) && Position(right.cols, rname) == Some(rp)
    ensures NestedAgrees(left, right, lname, rname, lp, rp, false, widen) <==> AllAgreeable(left, right, lp, rp, widen)
  {
    if AllAgreeable(left, right, lp, rp, widen) {
      AgreeableJoins(left, right, lname, rname, lp, rp, false, widen);
    } else {
      var i, j :|
        0 <= i < |left.rows| && 0 <= j < |right.rows| && !Agreeable(left.rows[i][lp], right.rows[j][rp], widen);
      var e, l, r := OnEqual(lname, rname), left.rows[i], right.rows[j];
      EqualityTest(lname, rname, left.cols, l, right.cols, r, lp, rp, widen);
      if Test(e, left.cols, l, right.cols, r, widen) != Bad {
        ValuesDecide(left, right, lname, rname, l, r, lp, rp, widen);
        if l[lp] == r[rp] {
          JoinsDiffer(left, right, OnColumns(lp, rp), Accepts(e, left.cols, right.cols, widen), i, j, lp, rp);
        } else {
          JoinsDiffer(left, right, Accepts(e, left.cols, right.cols, widen), OnColumns(lp, rp), i, j, lp, rp);
        }
      }
    }
  }

  /** If one relation joins a pair whose values the other never joins, the joined rows show it. */
  lemma JoinsDiffer(left: Table, right: Table, m: (Row, Row) -> bool, m': (Row, Row) -> bool, i: nat, j: nat,
      lp: nat, rp: nat)
    requires Shaped(left) && Shaped(right) && i < |left.rows| && j < |right.rows|
    requires lp < |left.cols| && rp < |right.cols|
    requires m(left.rows[i], right.rows[j])
    requires forall l: Row, r: Row | |l| == |left.cols| && |r| == |right.cols| ::
      l[lp] == left.rows[i][lp] && r[rp] == right.rows[j][rp] ==> !m'(l, r)
    ensures JoinBy(left.rows, right.rows, m, false, |right.cols|)
         != JoinBy(left.rows, right.rows, m', false, |right.cols|)
  {
    var row := left.rows[i] + right.rows[j];
    JoinContains(left.rows, right.rows, m, |right.cols|, i, j);
    assert row[lp] == left.rows[i][lp] && row[|left.cols| + rp] == right.rows[j][rp];
    if row in JoinBy(left.rows, right.rows, m', false, |right.cols|) {
      JoinedFrom(left, right, m', row, lp, rp);
    }
  }

  lemma {:induction false} JoinContains(lrows: seq<Row>, rrows: seq<Row>, m: (Row, Row) -> bool, width: nat, i: nat,
      j: nat)
    requires i < |lrows| && j < |rrows| && m(lrows[i], rrows[j])
    ensures lrows[i] + rrows[j] in JoinBy(lrows, rrows, m, false, width)
  {
    if i < |lrows| - 1 {
      JoinContains(lrows[..|lrows| - 1], rrows, m, width, i, j);
    } else {
      MatchesContain(lrows[i], rrows, m, j);
    }
  }

  lemma {:induction false} MatchesContain(l: Row, rrows: seq<Row>, m: (Row, Row) -> bool, j: nat)
    requires j < |rrows| && m(l, rrows[j])
    ensures l + rrows[j] in Matches(l, rrows, m)
  {
    if j < |rrows| - 1 { MatchesContain(l, rrows[..|rrows| - 1], m, j); }
  }

  lemma {:induction false} MatchesComeFrom(l: Row, rrows: seq<Row>, m: (Row, Row) -> bool, row: Row) returns (j: nat)
    requires row in Matches(l, rrows, m)
    ensures j < |rrows| && m(l, rrows[j]) && row == l + rrows[j]
  {
    var n := |rrows| - 1;
    if m(l, rrows[n]) && row == l + rrows[n] { return n; }
    j := MatchesComeFrom(l, rrows[..n], m, row);
  }

  lemma {:induction false} JoinComesFrom(lrows: seq<Row>, rrows: seq<Row>, m: (Row, Row) -> bool, width: nat, row: Row)
    returns (i: nat, j: nat)
    requires row in JoinBy(lrows, rrows, m, false, width)
    ensures i < |lrows| && j < |rrows| && m(lrows[i], rrows[j]) && row == lrows[i] + rrows[j]
  {
    var n := |lrows| - 1;
    if row in Matches(lrows[n], rrows, m) {
      i := n;
      j := MatchesComeFrom(lrows[n], rrows, m, row);
    } else {
      i, j := JoinComesFrom(lrows[..n], rrows, m, width, row);
    }
  }

  /** A joined row tells which two column values were matched. */
  lemma JoinedFrom(left: Table, right: Table, m: (Row, Row) -> bool, row: Row, lp: nat, rp: nat)
    requires Shaped(left) && Shaped(right) && lp < |left.cols| && rp < |right.cols|
    requires row in JoinBy(left.rows, right.rows, m, false, |right.cols|)
    ensures |row| == |left.cols| + |right.cols|
    ensures exists l: Row, r: Row ::
      |l| == |left.cols| && |r| == |right.cols| && m(l, r) && l[lp] == row[lp] && r[rp] == row[|left.cols| + rp]
  {
    var i, j := JoinComesFrom(left.rows, right.rows, m, |right.cols|, row);
    var l, r := left.rows[i], right.rows[j];
    assert row == l + r && |l| == |left.cols| && |r| == |right.cols|;
    assert m(l, r) && l[lp] == row[lp] && r[rp] == row[|left.cols| + rp];
  }

  /** The equality test depends on the two column values only. */
  lemma ValuesDecide(left: Table, right: Table, lname: Text, rname: Text, l: Row, r: Row, lp: nat, rp: nat,
      widen: i64 -> real)
    requires Position(left.cols, lname) == Some(lp) && Position(right.cols, rname) == Some(rp)
    requires |l| == |left.cols| && |r| == |right.cols|
    ensures forall l': Row, r': Row ::
      |l'| == |left.cols| && |r'| == |right.cols| && l'[lp] == l[lp] && r'[rp] == r[rp] ==>
        Accepts(OnEqual(lname, rname), left.cols, right.cols, widen)(l', r')
        == Accepts(OnEqual(lname, rname), left.cols, right.cols, widen)(l, r)
  {
    var e := OnEqual(lname, rname);
    forall l': Row, r': Row | |l'| == |left.cols| && |r'| == |right.cols| && l'[lp] == l[lp] && r'[rp] == r[rp]
      ensures Test(e, left.cols, l', right.cols, r', widen) == Test(e, left.cols, l, right.cols, r, widen)
    {
      assert Evaluate(e.op.l, left.cols, l, right.cols, r, widen) == Ok(l[lp]);
      assert Evaluate(e.op.r, right.cols, r, left.cols, l, widen) == Ok(r[rp]);
      assert Evaluate(e.op.l, left.cols, l', right.cols, r', widen) == Ok(l'[lp]);
      assert Evaluate(e.op.r, right.cols, r', left.cols, l', widen) == Ok(r'[rp]);
    }
  }

  /** Columns of one non-null, non-float type are always agreeable. */
  lemma OneTypeIsAgreeable(left: Table, right: Table, lp: nat, rp: nat, widen: i64 -> real)
    requires forall i, j | 0 <= i < |left.rows| && 0 <= j < |right.rows| ::
      lp < |left.rows[i]| && rp < |right.rows[j]| ==>
      var x, y := left.rows[i][lp], right.rows[j][rp];
      (x.Integer? && y.Integer?) || (x.String? && y.String?) || (x.Boolean? && y.Boolean?)
    ensures AllAgreeable(left, right, lp, rp, widen)
  {
  }

  /** NULL keys are where the two joins part: the hash join pairs them, the nested loop does not. */
  lemma NullsPartTheJoins(a: Text, widen: i64 -> real)
    ensures var t := Table([a], [[Null]]);
      HashJoined(t, t, a, a, false) == Joined(Table([a, a], [[Null, Null]]))
      && !NestedAgrees(t, t, a, a, 0, 0, false, widen)
  {
    var t := Table([a], [[Null]]);
    OneRowEach([Null], [Null], OnColumns(0, 0));
    assert [a] + [a] == [a, a] && [Null] + [Null] == [Null, Null];
    assert !Agreeable(t.rows[0][0], t.rows[0][0], widen);
    InnerJoinsAgreeExactly(t, t, a, a, 0, 0, widen);
  }

  /** And so do 1 and 1.0, which the nested loop pairs and the hash join does not. */
  lemma OnePartsTheJoins(a: Text, b: Text, widen: i64 -> real)
    requires widen(1) == 1.0
    ensures var l, r, e := Table([a], [[Integer(1)]]), Table([b], [[Float(1.0)]]), OnEqual(a, b);
      && HashJoined(l, r, a, b, false) == Joined(Table([a, b], []))
      && NoneBad(e, l.cols, l.rows, r.cols, r.rows, widen)
      && JoinBy(l.rows, r.rows, Accepts(e, l.cols, r.cols, widen), false, 1) == [[Integer(1), Float(1.0)]]
  {
    var e, l: Row, r: Row := OnEqual(a, b), [Integer(1)], [Float(1.0)];
    EqualityTest(a, b, [a], l, [b], r, 0, 0, widen);
    assert Test(e, [a], l, [b], r, widen) == Yes;
    OneRowEach(l, r, OnColumns(0, 0));
    OneRowEach(l, r, Accepts(e, [a], [b], widen));
    assert [a] + [b] == [a, b] && l + r == [Integer(1), Float(1.0)];
  }

  lemma OneRowEach(l: Row, r: Row, m: (Row, Row) -> bool)
    ensures JoinBy([l], [r], m, false, 1) == if m(l, r) then [l + r] else []
  {
    assert [r][..0] == [] && [l][..0] == [];
    assert Matches(l, [r][..0], m) == [];
    assert Matches(l, [r], m) == Matches(l, [r][..0], m) + (if m(l, r) then [l + r] else []);
    assert JoinBy([l][..0], [r], m, false, 1) == [];
    assert JoinBy([l], [r], m, false, 1) == JoinBy([l][..0], [r], m, false, 1) + JoinOne(l, [r], m, false, 1);
  }

  // ---------------------------------------------------------------- when the outer joins agree

  predicate BeginsWith(row: Row, l: Row) {
    l <= row
  }

  /** The rows that begin with another row. */
  function RowsBeginning(rows: seq<Row>, l: Row): seq<Row> {
    if rows == [] then [] else
      var row := rows[|rows| - 1];
      RowsBeginning(rows[..|rows| - 1], l) + (if BeginsWith(row, l) then [row] else [])
  }

  lemma {:induction false} BeginningConcat(a: seq<Row>, b: seq<Row>, l: Row)
    ensures RowsBeginning(a + b, l) == RowsBeginning(a, l) + RowsBeginning(b, l)
  {
    if b == [] {
      assert a + b == a;
    } else {
      var n := |b| - 1;
      assert (a + b)[..|a| + n] == a + b[..n];
      BeginningConcat(a, b[..n], l);
    }
  }

  lemma {:induction false} BeginningAllOrNone(rows: seq<Row>, l: Row, all: bool)
    requires forall i :: 0 <= i < |rows| ==> BeginsWith(rows[i], l) == all
    ensures RowsBeginning(rows, l) == if all then rows else []
  {
    if rows != [] {
      var front, last := rows[..|rows| - 1], rows[|rows| - 1];
      forall i | 0 <= i < |front| ensures BeginsWith(front[i], l) == all { assert front[i] == rows[i]; }
      BeginningAllOrNone(front, l, all);
      assert rows == front + [last];
    }
  }

  function Repeat(s: seq<Row>, k: nat): (r: seq<Row>)
    ensures |r| == k * |s|
  {
    if k == 0 then [] else Repeat(s, k - 1) + s
  }

  lemma RepeatOnce(s: seq<Row>, t: seq<Row>, k: nat)
    requires k > 0 && Repeat(s, k) == Repeat(t, k)
    ensures s == t
  {
    SameFactor(k, |s|, |t|);
    assert s == Repeat(s, k)[|Repeat(s, k)| - |s|..];
    assert t == Repeat(t, k)[|Repeat(t, k)| - |t|..];
  }

  lemma SameFactor(k: nat, a: nat, b: nat)
    requires k > 0 && k * a == k * b
    ensures a == b
  {
    assert k * (a - b) == 0;
  }

  function CountOf(lrows: seq<Row>, l: Row): nat {
    if lrows == [] then 0 else CountOf(lrows[..|lrows| - 1], l) + (if lrows[|lrows| - 1] == l then 1 else 0)
  }

  lemma {:induction false} CountedIfThere(lrows: seq<Row>, i: nat)
    requires i < |lrows|
    ensures CountOf(lrows, lrows[i]) > 0
  {
    if i < |lrows| - 1 { CountedIfThere(lrows[..|lrows| - 1], i); }
  }

  /** What one left row yields begins with that row. */
  lemma SegmentBegins(l: Row, rrows: seq<Row>, m: (Row, Row) -> bool, outer: bool, width: nat)
    ensures forall i :: 0 <= i < |JoinOne(l, rrows, m, outer, width)| ==> l <= JoinOne(l, rrows, m, outer, width)[i]
  {
    forall i | 0 <= i < |Matches(l, rrows, m)| ensures l <= Matches(l, rrows, m)[i] {
      var j := MatchesComeFrom(l, rrows, m, Matches(l, rrows, m)[i]);
    }
  }

  /** The joined rows that begin with a left row are what it yields, once for each time it occurs. */
  lemma {:induction false} BeginningJoin(lrows: seq<Row>, l: Row, rrows: seq<Row>, m: (Row, Row) -> bool, outer: bool,
      width: nat)
    requires forall i :: 0 <= i < |lrows| ==> |lrows[i]| == |l|
    ensures RowsBeginning(JoinBy(lrows, rrows, m, outer, width), l)
         == Repeat(JoinOne(l, rrows, m, outer, width), CountOf(lrows, l))
  {
    if lrows != [] {
      var front, last := lrows[..|lrows| - 1], lrows[|lrows| - 1];
      BeginningJoin(front, l, rrows, m, outer, width);
      BeginningConcat(JoinBy(front, rrows, m, outer, width), JoinOne(last, rrows, m, outer, width), l);
      BeginningSegment(last, l, rrows, m, outer, width);
    }
  }

  lemma BeginningSegment(last: Row, l: Row, rrows: seq<Row>, m: (Row, Row) -> bool, outer: bool, width: nat)
    requires |last| == |l|
    ensures var one := JoinOne(last, rrows, m, outer, width); RowsBeginning(one, l) == if last == l then one else []
  {
    var one := JoinOne(last, rrows, m, outer, width);
    SegmentBegins(last, rrows, m, outer, width);
    forall i | 0 <= i < |one| ensures BeginsWith(one[i], l) == (last == l) { assert one[i][..|l|] == last; }
    BeginningAllOrNone(one, l, last == l);
  }

  ghost predicate SameSegments(lrows: seq<Row>, rrows: seq<Row>, m: (Row, Row) -> bool, m': (Row, Row) -> bool,
      width: nat) {
    forall i :: 0 <= i < |lrows| ==> SameSegment(lrows[i], rrows, m, m', width)
  }

  ghost predicate SameSegment(l: Row, rrows: seq<Row>, m: (Row, Row) -> bool, m': (Row, Row) -> bool, width: nat) {
    JoinOne(l, rrows, m, true, width) == JoinOne(l, rrows, m', true, width)
  }

  /** Two outer joins are equal exactly when every left row yields the same in both. */
  lemma SegmentsDecide(left: Table, rrows: seq<Row>, m: (Row, Row) -> bool, m': (Row, Row) -> bool, width: nat)
    requires Shaped(left)
    ensures JoinBy(left.rows, rrows, m, true, width) == JoinBy(left.rows, rrows, m', true, width)
       <==> SameSegments(left.rows, rrows, m, m', width)
  {
    if SameSegments(left.rows, rrows, m, m', width) {
      SegmentsJoin(left.rows, rrows, m, m', width);
    } else if JoinBy(left.rows, rrows, m, true, width) == JoinBy(left.rows, rrows, m', true, width) {
      forall i | 0 <= i < |left.rows| ensures SameSegment(left.rows[i], rrows, m, m', width) {
        var l := left.rows[i];
        BeginningJoin(left.rows, l, rrows, m, true, width);
        BeginningJoin(left.rows, l, rrows, m', true, width);
        CountedIfThere(left.rows, i);
        RepeatOnce(JoinOne(l, rrows, m, true, width), JoinOne(l, rrows, m', true, width), CountOf(left.rows, l));
      }
    }
  }

  lemma {:induction false} SegmentsJoin(lrows: seq<Row>, rrows: seq<Row>, m: (Row, Row) -> bool, m': (Row, Row) -> bool,
      width: nat)
    requires SameSegments(lrows, rrows, m, m', width)
    ensures JoinBy(lrows, rrows, m, true, width) == JoinBy(lrows, rrows, m', true, width)
  {
    if lrows != [] {
      var front := lrows[..|lrows| - 1];
      forall i | 0 <= i < |front| ensures SameSegment(front[i], rrows, m, m', width) { assert front[i] == lrows[i]; }
      assert SameSegment(lrows[|front|], rrows, m, m', width);
      SegmentsJoin(front, rrows, m, m', width);
    }
  }

  lemma {:induction false} NoMatches(l: Row, rrows: seq<Row>, m: (Row, Row) -> bool)
    ensures Matches(l, rrows, m) == [] <==> forall j :: 0 <= j < |rrows| ==> !m(l, rrows[j])
  {
    if rrows != [] {
      NoMatches(l, rrows[..|rrows| - 1], m);
      assert forall j :: 0 <= j < |rrows| - 1 ==> rrows[..|rrows| - 1][j] == rrows[j];
    }
  }

  ghost predicate OnlyMatch(l: Row, rrows: seq<Row>, m: (Row, Row) -> bool, r: Row) {
    exists j :: 0 <= j < |rrows| && rrows[j] == r && forall k :: 0 <= k < |rrows| ==> (m(l, rrows[k]) <==> k == j)
  }

  lemma {:induction false} OneMatch(l: Row, rrows: seq<Row>, m: (Row, Row) -> bool, r: Row)
    ensures Matches(l, rrows, m) == [l + r] <==> OnlyMatch(l, rrows, m, r)
  {
    if rrows != [] {
      if m(l, rrows[|rrows| - 1]) {
        OneMatchLast(l, rrows, m, r);
      } else {
        OneMatch(l, rrows[..|rrows| - 1], m, r);
        OnlyMatchFront(l, rrows, m, r);
      }
    }
  }

  lemma OneMatchLast(l: Row, rrows: seq<Row>, m: (Row, Row) -> bool, r: Row)
    requires rrows != [] && m(l, rrows[|rrows| - 1])
    ensures Matches(l, rrows, m) == [l + r] <==> OnlyMatch(l, rrows, m, r)
  {
    var front, last := rrows[..|rrows| - 1], rrows[|rrows| - 1];
    OneAppended(Matches(l, front, m), l + last, l + r);
    SameTail(l, last, r);
    NoneInFront(l, rrows, m);
    OnlyMatchLast(l, rrows, m, r);
  }

  lemma SameTail(l: Row, a: Row, b: Row)
    ensures l + a == l + b <==> a == b
  {
    assert (l + a)[|l|..] == a && (l + b)[|l|..] == b;
  }

  lemma NoneInFront(l: Row, rrows: seq<Row>, m: (Row, Row) -> bool)
    requires rrows != []
    ensures Matches(l, rrows[..|rrows| - 1], m) == [] <==> forall k :: 0 <= k < |rrows| - 1 ==> !m(l, rrows[k])
  {
    var front := rrows[..|rrows| - 1];
    NoMatches(l, front, m);
    assert forall k :: 0 <= k < |front| ==> front[k] == rrows[k];
  }

  lemma OneAppended(a: seq<Row>, x: Row, y: Row)
    ensures a + [x] == [y] <==> a == [] && x == y
  {
    if a + [x] == [y] { assert |a + [x]| == 1 && (a + [x])[0] == y; }
  }

  lemma OnlyMatchLast(l: Row, rrows: seq<Row>, m: (Row, Row) -> bool, r: Row)
    requires rrows != [] && m(l, rrows[|rrows| - 1])
    ensures OnlyMatch(l, rrows, m, r)
       <==> rrows[|rrows| - 1] == r && forall k :: 0 <= k < |rrows| - 1 ==> !m(l, rrows[k])
  {
  }

  lemma OnlyMatchFront(l: Row, rrows: seq<Row>, m: (Row, Row) -> bool, r: Row)
    requires rrows != [] && !m(l, rrows[|rrows| - 1])
    ensures OnlyMatch(l, rrows, m, r) <==> OnlyMatch(l, rrows[..|rrows| - 1], m, r)
  {
    var front := rrows[..|rrows| - 1];
    if OnlyMatch(l, rrows, m, r) {
      var j :| 0 <= j < |rrows| && rrows[j] == r && forall k :: 0 <= k < |rrows| ==> (m(l, rrows[k]) <==> k == j);
      assert front[j] == r && forall k :: 0 <= k < |front| ==> (m(l, front[k]) <==> k == j);
    }
    if OnlyMatch(l, front, m, r) {
      var j :| 0 <= j < |front| && front[j] == r && forall k :: 0 <= k < |front| ==> (m(l, front[k]) <==> k == j);
      assert rrows[j] == r && forall k :: 0 <= k < |rrows| ==> (m(l, rrows[k]) <==> k == j) by {
        forall k | 0 <= k < |rrows| ensures m(l, rrows[k]) <==> k == j {
          if k < |front| { assert front[k] == rrows[k]; }
        }
      }
    }
  }

  /** Fewer matches, if one of them is lost. */
  lemma {:induction false} FewerMatches(l: Row, rrows: seq<Row>, m: (Row, Row) -> bool, m': (Row, Row) -> bool)
    requires forall j :: 0 <= j < |rrows| && m(l, rrows[j]) ==> m'(l, rrows[j])
    ensures |Matches(l, rrows, m)| <= |Matches(l, rrows, m')|
    ensures (exists j :: 0 <= j < |rrows| && m'(l, rrows[j]) && !m(l, rrows[j]))
        ==> |Matches(l, rrows, m)| < |Matches(l, rrows, m')|
  {
    if rrows != [] {
      var front := rrows[..|rrows| - 1];
      assert forall j :: 0 <= j < |front| ==> front[j] == rrows[j];
      FewerMatches(l, front, m, m');
    }
  }

  lemma ColumnsTest(lname: Text, rname: Text, lcols: Columns, l: Row, rcols: Columns, r: Row, lp: nat, rp: nat,
      widen: i64 -> real)
    requires |l| == |lcols| && |r| == |rcols|
    requires Position(lcols, lname) == Some(lp) && Position(rcols, rname) == Some(rp)
    ensures Test(OnEqual(lname, rname), lcols, l, rcols, r, widen) == VerdictOf(Compare(l[lp], r[rp], widen))
  {
    var e := OnEqual(lname, rname);
    assert Evaluate(e.op.l, lcols, l, rcols, r, widen) == Ok(l[lp]);
    assert Evaluate(e.op.r, rcols, r, lcols, l, widen) == Ok(r[rp]);
  }

  /** When an outer join treats a left row alike under both equalities. NULL is structurally equal to NULL: then the
      only right row with NULL must be all NULLs, and so look like padding. Any other value must be agreeable with
      every right value. */
  ghost predicate OuterAgreeable(l: Row, rrows: seq<Row>, lp: nat, rp: nat, width: nat, widen: i64 -> real)
    requires lp < |l| && forall j :: 0 <= j < |rrows| ==> rp < |rrows[j]|
  {
    if l[lp] == Null then
      forall j :: 0 <= j < |rrows| && rrows[j][rp] == Null ==>
        rrows[j] == Nulls(width) && forall k :: 0 <= k < |rrows| && rrows[k][rp] == Null ==> k == j
    else
      forall j :: 0 <= j < |rrows| ==> Agreeable(l[lp], rrows[j][rp], widen)
  }

  /** A left row with NULL: the nested loop pads it, the hash join matches it with every NULL. */
  lemma NullSegment(l: Row, rrows: seq<Row>, m: (Row, Row) -> bool, lp: nat, rp: nat, width: nat, widen: i64 -> real)
    requires lp < |l| && l[lp] == Null && forall j :: 0 <= j < |rrows| ==> rp < |rrows[j]|
    requires forall j :: 0 <= j < |rrows| ==> !m(l, rrows[j])
    ensures SameSegment(l, rrows, m, OnColumns(lp, rp), width) <==> OuterAgreeable(l, rrows, lp, rp, width, widen)
  {
    NoMatches(l, rrows, m);
    NoMatches(l, rrows, OnColumns(lp, rp));
    OneMatch(l, rrows, OnColumns(lp, rp), Nulls(width));
    forall j | 0 <= j < |rrows| ensures OnColumns(lp, rp)(l, rrows[j]) <==> rrows[j][rp] == Null {}
    if j :| 0 <= j < |rrows| && rrows[j][rp] == Null {
      if OuterAgreeable(l, rrows, lp, rp, width, widen) {
        assert rrows[j] == Nulls(width);
        assert forall k :: 0 <= k < |rrows| ==> (OnColumns(lp, rp)(l, rrows[k]) <==> k == j);
        assert OnlyMatch(l, rrows, OnColumns(lp, rp), Nulls(width));
      }
    }
  }

  /** A left row with another value: the nested loop finds all that the hash join finds. */
  lemma ValueSegment(l: Row, rrows: seq<Row>, m: (Row, Row) -> bool, lp: nat, rp: nat, width: nat, widen: i64 -> real)
    requires lp < |l| && l[lp] != Null && forall j :: 0 <= j < |rrows| ==> rp < |rrows[j]| == width
    requires forall j :: 0 <= j < |rrows| ==> !Compare(l[lp], rrows[j][rp], widen).Incomparable?
    requires forall j :: 0 <= j < |rrows| ==> m(l, rrows[j]) == Compare(l[lp], rrows[j][rp], widen).Same?
    ensures SameSegment(l, rrows, m, OnColumns(lp, rp), width) <==> OuterAgreeable(l, rrows, lp, rp, width, widen)
  {
    var on := OnColumns(lp, rp);
    forall j | 0 <= j < |rrows|
      ensures on(l, rrows[j]) ==> m(l, rrows[j])
      ensures Agreeable(l[lp], rrows[j][rp], widen) <==> m(l, rrows[j]) == on(l, rrows[j])
    {
    }
    if OuterAgreeable(l, rrows, lp, rp, width, widen) {
      SameMatches(l, rrows, m, on);
    } else {
      FewerMatches(l, rrows, on, m);
      PaddingIsNoMatch(l, rrows, m, lp, rp, width, widen);
    }
  }

  lemma PaddingIsNoMatch(l: Row, rrows: seq<Row>, m: (Row, Row) -> bool, lp: nat, rp: nat, width: nat,
      widen: i64 -> real)
    requires lp < |l| && forall j :: 0 <= j < |rrows| ==> rp < |rrows[j]| == width
    requires forall j :: 0 <= j < |rrows| ==> m(l, rrows[j]) == Compare(l[lp], rrows[j][rp], widen).Same?
    ensures l + Nulls(width) !in Matches(l, rrows, m)
  {
    if l + Nulls(width) in Matches(l, rrows, m) {
      var j := MatchesComeFrom(l, rrows, m, l + Nulls(width));
      assert (l + Nulls(width))[|l|..] == Nulls(width) && (l + rrows[j])[|l|..] == rrows[j];
      NullsAreNull(width, rp);
    }
  }

  lemma {:induction false} NullsAreNull(n: nat, i: nat)
    requires i < n
    ensures Nulls(n)[i] == Null
  {
    if i < n - 1 { NullsAreNull(n - 1, i); }
  }

  ghost predicate AllOuterAgreeable(left: Table, right: Table, lp: nat, rp: nat, widen: i64 -> real)
    requires Shaped(left) && Shaped(right) && lp < |left.cols| && rp < |right.cols|
  {
    forall i :: 0 <= i < |left.rows| ==> OuterAgreeable(left.rows[i], right.rows, lp, rp, |right.cols|, widen)
  }

  /** The outer joins agree exactly when they treat every left row alike. */
  lemma OuterJoinsAgreeExactly(left: Table, right: Table, lname: Text, rname: Text, lp: nat, rp: nat,
      widen: i64 -> real)
    requires Shaped(left) && Shaped(right)
    requires Position(left.cols, lname) == Some(lp) && Position(right.cols, rname) == Some(rp)
    ensures NestedAgrees(left, right, lname, rname, lp, rp, true, widen)
       <==> AllOuterAgreeable(left, right, lp, rp, widen)
  {
    var e := OnEqual(lname, rname);
    var m, on := Accepts(e, left.cols, right.cols, widen), OnColumns(lp, rp);
    SegmentsDecide(left, right.rows, m, on, |right.cols|);
    if AllOuterAgreeable(left, right, lp, rp, widen) {
      forall i | 0 <= i < |left.rows|
        ensures RowOk(e, left.cols, left.rows[i], right.cols, right.rows, widen)
        ensures SameSegment(left.rows[i], right.rows, m, on, |right.cols|)
      {
        SegmentExact(left, right, lname, rname, lp, rp, i, widen);
      }
    } else {
      var i: nat :| i < |left.rows| && !OuterAgreeable(left.rows[i], right.rows, lp, rp, |right.cols|, widen);
      SegmentExact(left, right, lname, rname, lp, rp, i, widen);
    }
  }

  lemma SegmentExact(left: Table, right: Table, lname: Text, rname: Text, lp: nat, rp: nat, i: nat, widen: i64 -> real)
    requires Shaped(left) && Shaped(right) && i < |left.rows|
    requires Position(left.cols, lname) == Some(lp) && Position(right.cols, rname) == Some(rp)
    ensures var e, l, width := OnEqual(lname, rname), left.rows[i], |right.cols|;
      var agreeable := OuterAgreeable(l, right.rows, lp, rp, width, widen);
      var m := Accepts(e, left.cols, right.cols, widen);
      && (agreeable ==> RowOk(e, left.cols, l, right.cols, right.rows, widen))
      && (RowOk(e, left.cols, l, right.cols, right.rows, widen) ==>
            (agreeable <==> SameSegment(l, right.rows, m, OnColumns(lp, rp), width)))
  {
    var e, l := OnEqual(lname, rname), left.rows[i];
    var m := Accepts(e, left.cols, right.cols, widen);
    forall j | 0 <= j < |right.rows|
      ensures Test(e, left.cols, l, right.cols, right.rows[j], widen)
           == VerdictOf(Compare(l[lp], right.rows[j][rp], widen))
    {
      ColumnsTest(lname, rname, left.cols, l, right.cols, right.rows[j], lp, rp, widen);
    }
    if RowOk(e, left.cols, l, right.cols, right.rows, widen) {
      if l[lp] == Null {
        NullSegment(l, right.rows, m, lp, rp, |right.cols|, widen);
      } else {
        ValueSegment(l, right.rows, m, lp, rp, |right.cols|, widen);
      }
    }
  }

  /** Outer joins agree in more cases than inner ones: here the padding looks like the match. */
  lemma OuterJoinsMayAgreeAnyway(a: Text, widen: i64 -> real)
    ensures var t := Table([a], [[Null]]);
      NestedAgrees(t, t, a, a, 0, 0, true, widen) && !NestedAgrees(t, t, a, a, 0, 0, false, widen)
  {
    var t := Table([a], [[Null]]);
    assert Nulls(1) == [Null] by { assert Nulls(0) == []; }
    OuterJoinsAgreeExactly(t, t, a, a, 0, 0, widen);
    NullsPartTheJoins(a, widen);
  }

  // ---------------------------------------------------------------- right joins

  datatype JoinType = Cross | Inner | Left | Right

  /** The condition as the parser builds it: a right join has its operands exchanged. */
  function ParsedCondition(kind: JoinType, l: Expression, r: Expression): Option<Expression> {
    if kind.Cross? then None
    else if kind.Right? then Some(Operation(Equal(r, l)))
    else Some(Operation(Equal(l, r)))
  }

  datatype JoinPlan = JoinPlan(left: Table, right: Table, condition: Option<Expression>, outer: bool, hashed: bool)

  /** The plan: a right join has its inputs exchanged and becomes a left outer join. */
  function PlanJoin(kind: JoinType, left: Table, right: Table, condition: Option<Expression>): JoinPlan {
    var (l, r) := if kind.Right? then (right, left) else (left, right);
    JoinPlan(l, r, condition, !(kind.Cross? || kind.Inner?), !kind.Cross?)
  }

  /** The columns of the right input moved behind those of the left one. */
  function MovedBack(rows: seq<Row>, width: nat): seq<Row> {
    if rows == [] then [] else
      var row := rows[|rows| - 1];
      MovedBack(rows[..|rows| - 1], width) + [if width <= |row| then row[width..] + row[..width] else row]
  }

  /** What a right join means: every match, and every unmatched right row behind NULLs. */
  function UnmatchedRight(lrows: seq<Row>, rrows: seq<Row>, m: (Row, Row) -> bool, width: nat): seq<Row> {
    if rrows == [] then [] else
      var r := rrows[|rrows| - 1];
      UnmatchedRight(lrows, rrows[..|rrows| - 1], m, width)
        + (if exists i :: 0 <= i < |lrows| && m(lrows[i], r) then [] else [Nulls(width) + r])
  }

  /** The left rows joined with one right row. */
  function MatchesOf(lrows: seq<Row>, r: Row, m: (Row, Row) -> bool): seq<Row> {
    if lrows == [] then [] else
      var l := lrows[|lrows| - 1];
      MatchesOf(lrows[..|lrows| - 1], r, m) + (if m(l, r) then [l + r] else [])
  }

  function Flipped(m: (Row, Row) -> bool): (Row, Row) -> bool {
    (r, l) => m(l, r)
  }

  lemma MovedBackOne(row: Row, width: nat)
    requires width <= |row|
    ensures MovedBack([row], width) == [row[width..] + row[..width]]
  {
  }

  lemma {:induction false} MovedBackConcat(a: seq<Row>, b: seq<Row>, width: nat)
    ensures MovedBack(a + b, width) == MovedBack(a, width) + MovedBack(b, width)
  {
    if b == [] {
      assert a + b == a;
    } else {
      var n := |b| - 1;
      assert (a + b)[..|a| + n] == a + b[..n];
      MovedBackConcat(a, b[..n], width);
    }
  }

  /** Going through the left rows for one right row, moved back, gives that row's matches. */
  lemma {:induction false} FlippedMatches(lrows: seq<Row>, r: Row, m: (Row, Row) -> bool)
    ensures MovedBack(Matches(r, lrows, Flipped(m)), |r|) == MatchesOf(lrows, r, m)
    ensures Matches(r, lrows, Flipped(m)) == [] <==> MatchesOf(lrows, r, m) == []
  {
    if lrows != [] {
      var n := |lrows| - 1;
      FlippedMatches(lrows[..n], r, m);
      FlippedOne(lrows[..n], lrows[n], r, m);
    }
  }

  lemma FlippedOne(front: seq<Row>, l: Row, r: Row, m: (Row, Row) -> bool)
    requires MovedBack(Matches(r, front, Flipped(m)), |r|) == MatchesOf(front, r, m)
    ensures MovedBack(Matches(r, front, Flipped(m)) + (if m(l, r) then [r + l] else []), |r|)
         == MatchesOf(front, r, m) + (if m(l, r) then [l + r] else [])
  {
    if m(l, r) {
      MovedBackConcat(Matches(r, front, Flipped(m)), [r + l], |r|);
      assert (r + l)[|r|..] + (r + l)[..|r|] == l + r;
      MovedBackOne(r + l, |r|);
    } else {
      assert Matches(r, front, Flipped(m)) + [] == Matches(r, front, Flipped(m));
    }
  }

  lemma {:induction false} NoMatchesOf(lrows: seq<Row>, r: Row, m: (Row, Row) -> bool)
    ensures MatchesOf(lrows, r, m) == [] <==> forall i :: 0 <= i < |lrows| ==> !m(lrows[i], r)
  {
    if lrows != [] {
      NoMatchesOf(lrows[..|lrows| - 1], r, m);
      assert forall i :: 0 <= i < |lrows| - 1 ==> lrows[..|lrows| - 1][i] == lrows[i];
    }
  }

  /** One more right row adds its matches to the join. */
  lemma {:induction false} JoinWithOneMore(lrows: seq<Row>, rrows: seq<Row>, r: Row, m: (Row, Row) -> bool, width: nat)
    ensures multiset(JoinBy(lrows, rrows + [r], m, false, width))
         == multiset(JoinBy(lrows, rrows, m, false, width)) + multiset(MatchesOf(lrows, r, m))
  {
    if lrows != [] {
      var n := |lrows| - 1;
      JoinWithOneMore(lrows[..n], rrows, r, m, width);
      assert (rrows + [r])[..|rrows|] == rrows;
    }
  }

  lemma {:induction false} NothingToJoin(lrows: seq<Row>, m: (Row, Row) -> bool, width: nat)
    ensures JoinBy(lrows, [], m, false, width) == []
  {
    if lrows != [] { NothingToJoin(lrows[..|lrows| - 1], m, width); }
  }

  /** What one right row adds: its matches, or itself behind NULLs. */
  lemma OneExchanged(lrows: seq<Row>, r: Row, m: (Row, Row) -> bool, lwidth: nat)
    ensures MovedBack(JoinOne(r, lrows, Flipped(m), true, lwidth), |r|)
         == MatchesOf(lrows, r, m)
          + (if exists i :: 0 <= i < |lrows| && m(lrows[i], r) then [] else [Nulls(lwidth) + r])
  {
    FlippedMatches(lrows, r, m);
    NoMatchesOf(lrows, r, m);
    var ms, padded := Matches(r, lrows, Flipped(m)), r + Nulls(lwidth);
    if ms == [] {
      assert padded[|r|..] + padded[..|r|] == Nulls(lwidth) + r;
      MovedBackOne(padded, |r|);
    }
  }

  /** The exchanged outer join and the right join have the same rows. */
  ghost predicate ExchangeHolds(lrows: seq<Row>, rrows: seq<Row>, m: (Row, Row) -> bool, lwidth: nat, rwidth: nat) {
    multiset(MovedBack(JoinBy(rrows, lrows, Flipped(m), true, lwidth), rwidth))
      == multiset(JoinBy(lrows, rrows, m, false, rwidth)) + multiset(UnmatchedRight(lrows, rrows, m, lwidth))
  }

  /** A property of the empty table that one more row preserves holds of every table with rows of one width. */
  lemma {:induction false} RowInduction(holds: seq<Row> -> bool, rows: seq<Row>, width: nat)
    requires holds([])
    requires forall front: seq<Row>, r: Row :: holds(front) && |r| == width ==> holds(front + [r])
    requires forall j :: 0 <= j < |rows| ==> |rows[j]| == width
    ensures holds(rows)
  {
    if rows != [] {
      var front, r := rows[..|rows| - 1], rows[|rows| - 1];
      RowInduction(holds, front, width);
      assert rows == front + [r];
    }
  }

  /** A left outer join with exchanged inputs, its columns moved back, is the right outer join. */
  lemma ExchangedIsRight(lrows: seq<Row>, rrows: seq<Row>, m: (Row, Row) -> bool, lwidth: nat, rwidth: nat)
    requires forall j :: 0 <= j < |rrows| ==> |rrows[j]| == rwidth
    ensures ExchangeHolds(lrows, rrows, m, lwidth, rwidth)
  {
    var holds: seq<Row> -> bool := rows => ExchangeHolds(lrows, rows, m, lwidth, rwidth);
    ExchangedNone(lrows, m, lwidth, rwidth);
    forall front: seq<Row>, r: Row | holds(front) && |r| == rwidth ensures holds(front + [r]) {
      ExchangedNext(lrows, front, r, m, lwidth);
    }
    RowInduction(holds, rrows, rwidth);
  }

  lemma ExchangedNone(lrows: seq<Row>, m: (Row, Row) -> bool, lwidth: nat, rwidth: nat)
    ensures ExchangeHolds(lrows, [], m, lwidth, rwidth)
  {
    NothingToJoin(lrows, m, rwidth);
  }

  lemma ExchangedNext(lrows: seq<Row>, front: seq<Row>, r: Row, m: (Row, Row) -> bool, lwidth: nat)
    requires ExchangeHolds(lrows, front, m, lwidth, |r|)
    ensures ExchangeHolds(lrows, front + [r], m, lwidth, |r|)
  {
    var before := JoinBy(front, lrows, Flipped(m), true, lwidth);
    var one := JoinOne(r, lrows, Flipped(m), true, lwidth);
    var pad := if exists i :: 0 <= i < |lrows| && m(lrows[i], r) then [] else [Nulls(lwidth) + r];
    JoinAppend(front, r, lrows, Flipped(m), true, lwidth);
    UnmatchedAppend(lrows, front, r, m, lwidth);
    MovedBackConcat(before, one, |r|);
    JoinWithOneMore(lrows, front, r, m, |r|);
    OneExchanged(lrows, r, m, lwidth);
    Regroup(MovedBack(before, |r|), MatchesOf(lrows, r, m), pad, JoinBy(lrows, front, m, false, |r|),
            UnmatchedRight(lrows, front, m, lwidth), JoinBy(lrows, front + [r], m, false, |r|));
  }

  lemma JoinAppend(lrows: seq<Row>, l: Row, rrows: seq<Row>, m: (Row, Row) -> bool, outer: bool, width: nat)
    ensures JoinBy(lrows + [l], rrows, m, outer, width)
         == JoinBy(lrows, rrows, m, outer, width) + JoinOne(l, rrows, m, outer, width)
  {
  }

  lemma UnmatchedAppend(lrows: seq<Row>, rrows: seq<Row>, r: Row, m: (Row, Row) -> bool, width: nat)
    ensures UnmatchedRight(lrows, rrows + [r], m, width) == UnmatchedRight(lrows, rrows, m, width)
      + if exists i :: 0 <= i < |lrows| && m(lrows[i], r) then [] else [Nulls(width) + r]
  {
  }

  lemma Regroup(x: seq<Row>, ms: seq<Row>, pad: seq<Row>, j: seq<Row>, u: seq<Row>, j': seq<Row>)
    requires multiset(x) == multiset(j) + multiset(u)
    requires multiset(j') == multiset(j) + multiset(ms)
    ensures multiset(x + (ms + pad)) == multiset(j') + multiset(u + pad)
  {
  }

  /** Joined rows with the right columns in front are, columns moved back, a right join: every match, and each
      unmatched right row behind NULLs. */
  ghost predicate IsRightJoin(rows: seq<Row>, left: Table, right: Table, lp: nat, rp: nat) {
    multiset(MovedBack(rows, |right.cols|))
      == multiset(JoinBy(left.rows, right.rows, OnColumns(lp, rp), false, |right.cols|))
       + multiset(UnmatchedRight(left.rows, right.rows, OnColumns(lp, rp), |left.cols|))
  }

  lemma ExchangedColumns(left: Table, right: Table, lp: nat, rp: nat)
    requires Shaped(left) && Shaped(right)
    ensures IsRightJoin(JoinBy(right.rows, left.rows, OnColumns(rp, lp), true, |left.cols|), left, right, lp, rp)
  {
    var m := OnColumns(lp, rp);
    ExchangedIsRight(left.rows, right.rows, m, |left.cols|, |right.cols|);
    SameJoin(right.rows, left.rows, OnColumns(rp, lp), Flipped(m), true, |left.cols|);
  }

  /** The operands and the inputs of a right join are exchanged alike. */
  lemma RightJoinPlanned(left: Table, right: Table, lname: Text, rname: Text)
    ensures var plan := PlanJoin(Right, left, right, ParsedCondition(Right, Field(lname), Field(rname)));
      && plan.hashed
      && HashExecuted(plan.left, plan.right, plan.condition, plan.outer) == HashJoined(right, left, rname, lname, true)
  {
    assert ParseJoin(Field(rname)) == Named(rname, []) && ParseJoin(Field(lname)) == Named(lname, []);
  }

  /** A right join as it is written, parsed, planned and executed: it fails exactly if a column is missing, and
      otherwise yields the rows of the right join in exchanged columns. */
  lemma RightJoinRewrite(left: Table, right: Table, lname: Text, rname: Text)
    requires Shaped(left) && Shaped(right)
    ensures var plan := PlanJoin(Right, left, right, ParsedCondition(Right, Field(lname), Field(rname)));
      var out := HashExecuted(plan.left, plan.right, plan.condition, plan.outer);
      plan.hashed &&
      match (Position(left.cols, lname), Position(right.cols, rname))
      case (Some(lp), Some(rp)) =>
        out.Joined? && out.table.cols == right.cols + left.cols && IsRightJoin(out.table.rows, left, right, lp, rp)
      case _ => out == Failed
  {
    RightJoinPlanned(left, right, lname, rname);
    match (Position(left.cols, lname), Position(right.cols, rname)) {
      case (Some(lp), Some(rp)) => ExchangedColumns(left, right, lp, rp);
      case _ =>
    }
  }
}
