/** What joins yield, pair by pair: which rows are joined, and in which order. */
module JoinPairs {
  import opened Ast
  import opened ByteOrder
  import opened Joins

  /** The places of a left row and of the right row it is joined with, or of a left row on its own. */
  datatype Pair = Pair(l: nat, r: Option<nat>)

  predicate Precedes(p: Pair, q: Pair) {
    p.l < q.l || (p.l == q.l && p.r.Some? && q.r.Some? && p.r.value < q.r.value)
  }

  predicate InOrder(ps: seq<Pair>) {
    forall a, b :: 0 <= a < b < |ps| ==> Precedes(ps[a], ps[b])
  }

  /** The pairs of a join: the rows that match, and if it is an outer one, left rows that match none. */
  ghost predicate Belongs(p: Pair, lrows: seq<Row>, rrows: seq<Row>, m: (Row, Row) -> bool, outer: bool) {
    p.l < |lrows| &&
    match p.r
    case Some(j) => j < |rrows| && m(lrows[p.l], rrows[j])
    case None => outer && forall j :: 0 <= j < |rrows| ==> !m(lrows[p.l], rrows[j])
  }

  /** The joined row has the values of the left row and then those of the right row, or as many NULLs. */
  ghost predicate IsRowOf(row: Row, p: Pair, lrows: seq<Row>, rrows: seq<Row>, width: nat) {
    p.l < |lrows| &&
    match p.r
    case Some(j) => j < |rrows| && row == lrows[p.l] + rrows[j]
    case None => |row| == |lrows[p.l]| + width && row[..|lrows[p.l]|] == lrows[p.l]
                 && forall k :: |lrows[p.l]| <= k < |row| ==> row[k] == Null
  }

  ghost predicate AreRowsOf(rows: seq<Row>, ps: seq<Pair>, lrows: seq<Row>, rrows: seq<Row>, width: nat) {
    |rows| == |ps| && forall k :: 0 <= k < |ps| ==> IsRowOf(rows[k], ps[k], lrows, rrows, width)
  }

  /** The rows are those of all the pairs of the join, in the order of the left rows and then of the right ones. */
  ghost predicate IsJoin(rows: seq<Row>, ps: seq<Pair>, lrows: seq<Row>, rrows: seq<Row>, m: (Row, Row) -> bool,
      outer: bool, width: nat) {
    && (forall p :: p in ps <==> Belongs(p, lrows, rrows, m, outer))
    && InOrder(ps)
    && AreRowsOf(rows, ps, lrows, rrows, width)
  }

  lemma {:induction false} MatchesArePairs(l: nat, lrows: seq<Row>, rrows: seq<Row>, n: nat, m: (Row, Row) -> bool,
      width: nat)
    returns (ps: seq<Pair>)
    requires l < |lrows| && n <= |rrows|
    ensures forall p :: p in ps <==> p.l == l && p.r.Some? && p.r.value < n && m(lrows[l], rrows[p.r.value])
    ensures InOrder(ps)
    ensures AreRowsOf(Matches(lrows[l], rrows[..n], m), ps, lrows, rrows, width)
  {
    ps := [];
    if n > 0 {
      ps := MatchesArePairs(l, lrows, rrows, n - 1, m, width);
      MatchesNext(lrows[l], rrows, n - 1, m);
      assert forall k :: 0 <= k < |ps| ==> ps[k] in ps;
      if m(lrows[l], rrows[n - 1]) { ps := ps + [Pair(l, Some(n - 1))]; }
    }
  }

  lemma PaddedRow(l: nat, lrows: seq<Row>, rrows: seq<Row>, width: nat)
    requires l < |lrows|
    ensures IsRowOf(lrows[l] + Nulls(width), Pair(l, None), lrows, rrows, width)
  {
    forall i | 0 <= i < width ensures Nulls(width)[i] == Null { NullsAreNull(width, i); }
  }

  /** The pairs of one left row. */
  lemma SegmentIsPairs(l: nat, lrows: seq<Row>, rrows: seq<Row>, m: (Row, Row) -> bool, outer: bool, width: nat)
    returns (ps: seq<Pair>)
    requires l < |lrows|
    ensures forall p :: p in ps <==> p.l == l && Belongs(p, lrows, rrows, m, outer)
    ensures InOrder(ps)
    ensures AreRowsOf(JoinOne(lrows[l], rrows, m, outer, width), ps, lrows, rrows, width)
  {
    ps := MatchesArePairs(l, lrows, rrows, |rrows|, m, width);
    assert rrows[..|rrows|] == rrows;
    if ps == [] {
      assert forall j :: 0 <= j < |rrows| && m(lrows[l], rrows[j]) ==> Pair(l, Some(j)) in ps;
      if outer {
        ps := [Pair(l, None)];
        PaddedRow(l, lrows, rrows, width);
      }
    } else {
      assert ps[0] in ps;
    }
  }

  /** The pairs of the first n left rows. */
  ghost predicate IsJoinUpTo(rows: seq<Row>, ps: seq<Pair>, n: nat, lrows: seq<Row>, rrows: seq<Row>,
      m: (Row, Row) -> bool, outer: bool, width: nat) {
    && (forall p :: p in ps <==> p.l < n && Belongs(p, lrows, rrows, m, outer))
    && InOrder(ps)
    && AreRowsOf(rows, ps, lrows, rrows, width)
  }

  /** A join by a match relation yields each pair that belongs to it, once, in order. */
  lemma {:induction false} JoinIsPairs(lrows: seq<Row>, n: nat, rrows: seq<Row>, m: (Row, Row) -> bool, outer: bool,
      width: nat)
    returns (ps: seq<Pair>)
    requires n <= |lrows|
    ensures IsJoinUpTo(JoinBy(lrows[..n], rrows, m, outer, width), ps, n, lrows, rrows, m, outer, width)
  {
    ps := [];
    if n > 0 {
      var front := JoinIsPairs(lrows, n - 1, rrows, m, outer, width);
      var last := SegmentIsPairs(n - 1, lrows, rrows, m, outer, width);
      JoinNext(lrows, n - 1, rrows, m, outer, width);
      AppendPairs(front, last, JoinBy(lrows[..n - 1], rrows, m, outer, width),
                  JoinOne(lrows[n - 1], rrows, m, outer, width), n - 1, lrows, rrows, m, outer, width);
      ps := front + last;
    }
  }

  lemma AppendPairs(front: seq<Pair>, last: seq<Pair>, rows: seq<Row>, more: seq<Row>, n: nat, lrows: seq<Row>,
      rrows: seq<Row>, m: (Row, Row) -> bool, outer: bool, width: nat)
    requires IsJoinUpTo(rows, front, n, lrows, rrows, m, outer, width)
    requires forall p :: p in last <==> p.l == n && Belongs(p, lrows, rrows, m, outer)
    requires InOrder(last)
    requires AreRowsOf(more, last, lrows, rrows, width)
    ensures IsJoinUpTo(rows + more, front + last, n + 1, lrows, rrows, m, outer, width)
  {
    OrderAppends(front, last, n);
    RowsAppend(front, last, rows, more, lrows, rrows, width);
    forall p ensures p in front + last <==> p.l < n + 1 && Belongs(p, lrows, rrows, m, outer) {
      assert p in front + last <==> p in front || p in last;
    }
  }

  lemma RowsAppend(front: seq<Pair>, last: seq<Pair>, rows: seq<Row>, more: seq<Row>, lrows: seq<Row>,
      rrows: seq<Row>, width: nat)
    requires AreRowsOf(rows, front, lrows, rrows, width) && AreRowsOf(more, last, lrows, rrows, width)
    ensures AreRowsOf(rows + more, front + last, lrows, rrows, width)
  {
    forall k | 0 <= k < |front + last| ensures IsRowOf((rows + more)[k], (front + last)[k], lrows, rrows, width) {
      if k >= |front| { assert IsRowOf(more[k - |front|], last[k - |front|], lrows, rrows, width); }
    }
  }

  lemma OrderAppends(front: seq<Pair>, last: seq<Pair>, n: nat)
    requires InOrder(front) && InOrder(last)
    requires (forall p :: p in front ==> p.l < n) && (forall p :: p in last ==> p.l == n)
    ensures InOrder(front + last)
  {
    forall a, b | 0 <= a < b < |front + last| ensures Precedes((front + last)[a], (front + last)[b]) {
      if a < |front| <= b {
        assert front[a] in front && last[b - |front|] in last;
      }
    }
  }

  lemma JoinByIs(lrows: seq<Row>, rrows: seq<Row>, m: (Row, Row) -> bool, outer: bool, width: nat)
    ensures exists ps :: IsJoin(JoinBy(lrows, rrows, m, outer, width), ps, lrows, rrows, m, outer, width)
  {
    var ps := JoinIsPairs(lrows, |lrows|, rrows, m, outer, width);
    assert lrows[..|lrows|] == lrows;
    assert IsJoin(JoinBy(lrows, rrows, m, outer, width), ps, lrows, rrows, m, outer, width);
  }

  // ---------------------------------------------------------------- cross joins

  /** Everything with everything: row i * n + j is the i-th left row and the j-th of the n right rows. */
  ghost predicate IsProduct(rows: seq<Row>, lrows: seq<Row>, rrows: seq<Row>) {
    |rows| == |lrows| * |rrows| &&
    forall i, j :: 0 <= i < |lrows| && 0 <= j < |rrows| ==> RowAt(rows, i * |rrows| + j, lrows[i] + rrows[j])
  }

  predicate RowAt(rows: seq<Row>, k: int, row: Row) {
    0 <= k < |rows| && rows[k] == row
  }

  lemma {:induction false} MatchesAll(l: Row, rrows: seq<Row>)
    ensures |Matches(l, rrows, Always())| == |rrows|
    ensures forall j :: 0 <= j < |rrows| ==> Matches(l, rrows, Always())[j] == l + rrows[j]
  {
    if rrows != [] { MatchesAll(l, rrows[..|rrows| - 1]); }
  }

  lemma {:induction false} CrossIsProduct(lrows: seq<Row>, rrows: seq<Row>, width: nat)
    ensures IsProduct(CrossBy(lrows, rrows, false, width), lrows, rrows)
  {
    if lrows != [] {
      var front, last := lrows[..|lrows| - 1], lrows[|lrows| - 1];
      CrossIsProduct(front, rrows, width);
      MatchesAll(last, rrows);
      assert CrossOne(last, rrows, false, width) == Matches(last, rrows, Always());
      OneRowMore(CrossBy(front, rrows, false, width), Matches(last, rrows, Always()), front, last, rrows);
      assert front + [last] == lrows;
    }
  }

  lemma OneRowMore(rows: seq<Row>, more: seq<Row>, front: seq<Row>, last: Row, rrows: seq<Row>)
    requires IsProduct(rows, front, rrows)
    requires |more| == |rrows| && forall j :: 0 <= j < |rrows| ==> more[j] == last + rrows[j]
    ensures IsProduct(rows + more, front + [last], rrows)
  {
    assert |rows + more| == |front + [last]| * |rrows|;
    forall i, j | 0 <= i < |front + [last]| && 0 <= j < |rrows|
      ensures RowAt(rows + more, i * |rrows| + j, (front + [last])[i] + rrows[j])
    {
      if i < |front| { assert RowAt(rows, i * |rrows| + j, front[i] + rrows[j]); }
    }
  }

  // ---------------------------------------------------------------- joins as written

  method Execute(plan: JoinPlan, widen: i64 -> real) returns (r: JoinResult)
    requires Shaped(plan.left) && Shaped(plan.right)
    ensures plan.hashed ==> r == HashExecuted(plan.left, plan.right, plan.condition, plan.outer)
    ensures !plan.hashed && plan.condition.None? ==>
      r == Joined(Table(plan.left.cols + plan.right.cols,
                        CrossBy(plan.left.rows, plan.right.rows, plan.outer, |plan.right.cols|)))
  {
    if plan.hashed {
      r := HashJoin(plan.left, plan.right, plan.condition, plan.outer);
    } else {
      var joined := NestedLoopJoin(plan.left, plan.right, plan.condition, plan.outer, widen);
      r := if joined.Ok? then Joined(joined.value) else Failed;
    }
  }

  /** Two rows with equal values in these columns. */
  ghost function SameIn(lp: nat, rp: nat): (Row, Row) -> bool {
    (l: Row, r: Row) => lp < |l| && rp < |r| && l[lp] == r[rp]
  }

  ghost predicate IsJoinOn(rows: seq<Row>, lrows: seq<Row>, rrows: seq<Row>, lp: nat, rp: nat, outer: bool,
      width: nat) {
    exists ps :: IsJoin(rows, ps, lrows, rrows, SameIn(lp, rp), outer, width)
  }

  /** What `left <kind> JOIN right ON lname = rname` is: all pairs for a cross join, otherwise the pairs with equal
      values, with the unmatched rows of the left table for a left join, and of the right table, which then comes
      first, for a right join; an error if a column is missing. */
  ghost predicate IsAnswer(kind: JoinType, left: Table, right: Table, lname: Text, rname: Text, r: JoinResult) {
    match (Position(left.cols, lname), Position(right.cols, rname))
    case (Some(lp), Some(rp)) =>
      r.Joined? &&
      if kind.Cross? then
        r.table.cols == left.cols + right.cols && IsProduct(r.table.rows, left.rows, right.rows)
      else if kind.Right? then
        r.table.cols == right.cols + left.cols &&
        IsJoinOn(r.table.rows, right.rows, left.rows, rp, lp, true, |left.cols|)
      else
        r.table.cols == left.cols + right.cols &&
        IsJoinOn(r.table.rows, left.rows, right.rows, lp, rp, kind.Left?, |right.cols|)
    case _ =>
      if kind.Cross? then r.Joined? && IsProduct(r.table.rows, left.rows, right.rows) else r == Failed
  }

  method Join(kind: JoinType, left: Table, right: Table, lname: Text, rname: Text, widen: i64 -> real)
    returns (r: JoinResult)
    requires Shaped(left) && Shaped(right)
    ensures IsAnswer(kind, left, right, lname, rname, r)
  {
    var plan := PlanJoin(kind, left, right, ParsedCondition(kind, Field(lname), Field(rname)));
    r := Execute(plan, widen);
    if kind.Cross? {
      CrossIsProduct(left.rows, right.rows, |right.cols|);
    } else if kind.Right? {
      HashIs(right, left, rname, lname, true);
    } else {
      HashIs(left, right, lname, rname, kind.Left?);
    }
  }

  lemma HashIs(left: Table, right: Table, lname: Text, rname: Text, outer: bool)
    ensures var r := HashExecuted(left, right, Some(Operation(Equal(Field(lname), Field(rname)))), outer);
      match (Position(left.cols, lname), Position(right.cols, rname))
      case (Some(lp), Some(rp)) =>
        r.Joined? && r.table.cols == left.cols + right.cols
        && IsJoinOn(r.table.rows, left.rows, right.rows, lp, rp, outer, |right.cols|)
      case _ => r == Failed
  {
    assert ParseJoin(Field(lname)) == Named(lname, []) && ParseJoin(Field(rname)) == Named(rname, []);
    match (Position(left.cols, lname), Position(right.cols, rname)) {
      case (Some(lp), Some(rp)) => ColumnsAre(left.rows, right.rows, lp, rp, outer, |right.cols|);
      case _ =>
    }
  }

  /** An equality with a constant or a function on either side panics, and a comparison by order fails. */
  lemma OtherConditions(left: Table, right: Table, l: Expression, r: Expression, outer: bool)
    ensures l.Consts? || l.Function? || r.Consts? || r.Function? ==>
      HashExecuted(left, right, Some(Operation(Equal(l, r))), outer) == Panicked
    ensures HashExecuted(left, right, Some(Operation(GreaterThan(l, r))), outer) == Failed
    ensures HashExecuted(left, right, Some(Operation(LessThan(l, r))), outer) == Failed
  {
    assert l.Consts? || l.Function? ==> !ParseJoin(l).Named?;
    assert r.Consts? || r.Function? ==> !ParseJoin(r).Named?;
  }

  lemma ColumnsAre(lrows: seq<Row>, rrows: seq<Row>, lp: nat, rp: nat, outer: bool, width: nat)
    ensures IsJoinOn(JoinBy(lrows, rrows, OnColumns(lp, rp), outer, width), lrows, rrows, lp, rp, outer, width)
  {
    SameJoin(lrows, rrows, OnColumns(lp, rp), SameIn(lp, rp), outer, width);
    JoinByIs(lrows, rrows, SameIn(lp, rp), outer, width);
  }
}
