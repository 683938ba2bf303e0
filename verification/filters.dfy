/** What comparisons mean, by the values they compare, and which rows a filter keeps. */
module Filters {
  import opened Ast
  import opened ByteOrder
  import opened Joins
  import opened Tables
  import opened AccessPaths

  // ---------------------------------------------------------------- comparisons as expressions

  lemma TextOrder(a: Text, b: Text)
    ensures Less(b, a) <==> a != b && !Less(a, b)
  {
    LessTotal(a, b);
    LessIrreflexive(a);
    if Less(a, b) { LessAsymmetric(a, b); }
    if Less(b, a) { LessAsymmetric(b, a); }
  }

  lemma OperationIs(op: Operation, x: Value, y: Value, lcols: Columns, lrow: Row, rcols: Columns, rrow: Row,
      widen: i64 -> real)
    requires |lrow| == |lcols| && |rrow| == |rcols|
    requires Evaluate(op.l, lcols, lrow, rcols, rrow, widen) == Ok(x)
    requires Evaluate(op.r, rcols, rrow, lcols, lrow, widen) == Ok(y)
    ensures Evaluate(Operation(op), lcols, lrow, rcols, rrow, widen) == Compared(op, x, y, widen)
  {
    var e, c := Operation(op), Compare(x, y, widen);
    assert e.op == op;
    assert Evaluate(e, lcols, lrow, rcols, rrow, widen) == Truth(c, Wanted(op));
  }

  function Compared(op: Operation, x: Value, y: Value, widen: i64 -> real): Result<Value> {
    Truth(Compare(x, y, widen), Wanted(op))
  }

  /** `x > y`: NULL with NULL, false before true, integers widened beside floats, text by its bytes, and an error for
      values of other types. */
  lemma GreaterThanIs(l: Expression, r: Expression, x: Value, y: Value, widen: i64 -> real)
    ensures Compared(GreaterThan(l, r), x, y, widen)
         == match (x, y)
            case (Null, _) => Ok(Null)
            case (_, Null) => Ok(Null)
            case (Boolean(a), Boolean(b)) => Ok(Boolean(a && !b))
            case (Integer(a), Integer(b)) => Ok(Boolean(a > b))
            case (Integer(a), Float(b)) => Ok(Boolean(widen(a) > b))
            case (Float(a), Integer(b)) => Ok(Boolean(a > widen(b)))
            case (Float(a), Float(b)) => Ok(Boolean(a > b))
            case (String(a), String(b)) => Ok(Boolean(Less(b, a)))
            case _ => Err
  {
    if x.String? && y.String? { TextOrder(x.s, y.s); }
  }

  lemma LessThanIs(l: Expression, r: Expression, x: Value, y: Value, widen: i64 -> real)
    ensures Compared(LessThan(l, r), x, y, widen)
         == match (x, y)
            case (Null, _) => Ok(Null)
            case (_, Null) => Ok(Null)
            case (Boolean(a), Boolean(b)) => Ok(Boolean(!a && b))
            case (Integer(a), Integer(b)) => Ok(Boolean(a < b))
            case (Integer(a), Float(b)) => Ok(Boolean(widen(a) < b))
            case (Float(a), Integer(b)) => Ok(Boolean(a < widen(b)))
            case (Float(a), Float(b)) => Ok(Boolean(a < b))
            case (String(a), String(b)) => Ok(Boolean(Less(a, b)))
            case _ => Err
  {
    if x.String? && y.String? { TextOrder(y.s, x.s); }
  }

  lemma EqualIs(l: Expression, r: Expression, x: Value, y: Value, widen: i64 -> real)
    ensures Compared(Equal(l, r), x, y, widen)
         == match (x, y)
            case (Null, _) => Ok(Null)
            case (_, Null) => Ok(Null)
            case (Boolean(a), Boolean(b)) => Ok(Boolean(a == b))
            case (Integer(a), Integer(b)) => Ok(Boolean(a == b))
            case (Integer(a), Float(b)) => Ok(Boolean(widen(a) == b))
            case (Float(a), Integer(b)) => Ok(Boolean(a == widen(b)))
            case (Float(a), Float(b)) => Ok(Boolean(a == b))
            case (String(a), String(b)) => Ok(Boolean(a == b))
            case _ => Err
  {
  }

  // ---------------------------------------------------------------- filters on a column and a constant

  function Decided(b: bool): Verdict {
    if b then Yes else No
  }

  /** A filter keeps a row just if it evaluates to true there, and is an error unless it evaluates to a truth value
      or NULL. */
  lemma KeepsIs(t: Schema, e: Expression, row: Row, widen: i64 -> real)
    requires |t.columns| <= |row|
    ensures var cut := row[..|t.columns|];
      Keeps(t, e, row, widen) == match Evaluate(e, Names(t), cut, Names(t), cut, widen)
                                 case Ok(Boolean(b)) => Decided(b)
                                 case Ok(Null) => No
                                 case _ => Bad
  {
  }

  lemma OperandsAre(t: Schema, i: nat, v: Value, row: Row, widen: i64 -> real)
    requires DistinctNames(t.columns) && i < |t.columns| <= |row|
    ensures var cut := row[..|t.columns|];
      && Evaluate(Field(t.columns[i].name), Names(t), cut, Names(t), cut, widen) == Ok(row[i])
      && Evaluate(Consts(v), Names(t), cut, Names(t), cut, widen) == Ok(v)
  {
    PositionOf(t, i, 0);
    assert Names(t)[0..] == Names(t);
  }

  /** `WHERE column > constant`. */
  lemma GreaterThanKeeps(t: Schema, i: nat, v: Value, row: Row, widen: i64 -> real)
    requires DistinctNames(t.columns) && i < |t.columns| <= |row|
    ensures Keeps(t, Operation(GreaterThan(Field(t.columns[i].name), Consts(v))), row, widen)
         == match (row[i], v)
            case (Null, _) => No
            case (_, Null) => No
            case (Boolean(a), Boolean(b)) => Decided(a && !b)
            case (Integer(a), Integer(b)) => Decided(a > b)
            case (Integer(a), Float(b)) => Decided(widen(a) > b)
            case (Float(a), Integer(b)) => Decided(a > widen(b))
            case (Float(a), Float(b)) => Decided(a > b)
            case (String(a), String(b)) => Decided(Less(b, a))
            case _ => Bad
  {
    var l, r, cut := Field(t.columns[i].name), Consts(v), row[..|t.columns|];
    OperandsAre(t, i, v, row, widen);
    OperationIs(GreaterThan(l, r), row[i], v, Names(t), cut, Names(t), cut, widen);
    GreaterThanIs(l, r, row[i], v, widen);
    KeepsIs(t, Operation(GreaterThan(l, r)), row, widen);
  }

  /** `WHERE column < constant`. */
  lemma LessThanKeeps(t: Schema, i: nat, v: Value, row: Row, widen: i64 -> real)
    requires DistinctNames(t.columns) && i < |t.columns| <= |row|
    ensures Keeps(t, Operation(LessThan(Field(t.columns[i].name), Consts(v))), row, widen)
         == match (row[i], v)
            case (Null, _) => No
            case (_, Null) => No
            case (Boolean(a), Boolean(b)) => Decided(!a && b)
            case (Integer(a), Integer(b)) => Decided(a < b)
            case (Integer(a), Float(b)) => Decided(widen(a) < b)
            case (Float(a), Integer(b)) => Decided(a < widen(b))
            case (Float(a), Float(b)) => Decided(a < b)
            case (String(a), String(b)) => Decided(Less(a, b))
            case _ => Bad
  {
    var l, r, cut := Field(t.columns[i].name), Consts(v), row[..|t.columns|];
    OperandsAre(t, i, v, row, widen);
    OperationIs(LessThan(l, r), row[i], v, Names(t), cut, Names(t), cut, widen);
    LessThanIs(l, r, row[i], v, widen);
    KeepsIs(t, Operation(LessThan(l, r)), row, widen);
  }

  /** `WHERE column = constant`. */
  lemma EqualKeeps(t: Schema, i: nat, v: Value, row: Row, widen: i64 -> real)
    requires DistinctNames(t.columns) && i < |t.columns| <= |row|
    ensures Keeps(t, Operation(Equal(Field(t.columns[i].name), Consts(v))), row, widen)
         == match (row[i], v)
            case (Null, _) => No
            case (_, Null) => No
            case (Boolean(a), Boolean(b)) => Decided(a == b)
            case (Integer(a), Integer(b)) => Decided(a == b)
            case (Integer(a), Float(b)) => Decided(widen(a) == b)
            case (Float(a), Integer(b)) => Decided(a == widen(b))
            case (Float(a), Float(b)) => Decided(a == b)
            case (String(a), String(b)) => Decided(a == b)
            case _ => Bad
  {
    var l, r, cut := Field(t.columns[i].name), Consts(v), row[..|t.columns|];
    OperandsAre(t, i, v, row, widen);
    OperationIs(Equal(l, r), row[i], v, Names(t), cut, Names(t), cut, widen);
    EqualIs(l, r, row[i], v, widen);
    KeepsIs(t, Operation(Equal(l, r)), row, widen);
  }

  /** An operand that is a function, or a column the table does not have. */
  predicate CannotBeRead(t: Schema, e: Expression) {
    match e
    case Function(_, _) => true
    case Field(name) => forall i :: 0 <= i < |t.columns| ==> t.columns[i].name != name
    case _ => false
  }

  /** With such an operand any comparison is an error, whatever the other one is. */
  lemma UnreadableFails(t: Schema, op: Operation, row: Row, widen: i64 -> real)
    requires |t.columns| <= |row| && (CannotBeRead(t, op.l) || CannotBeRead(t, op.r))
    ensures Keeps(t, Operation(op), row, widen) == Bad
  {
    var cut, e := row[..|t.columns|], Operation(op);
    if CannotBeRead(t, op.l) { NoSuchColumn(t, op.l, cut, widen); } else { NoSuchColumn(t, op.r, cut, widen); }
    assert e.op == op;
    assert Evaluate(e, Names(t), cut, Names(t), cut, widen) == Err;
  }

  lemma NoSuchColumn(t: Schema, e: Expression, cut: Row, widen: i64 -> real)
    requires |cut| == |t.columns| && CannotBeRead(t, e)
    ensures Evaluate(e, Names(t), cut, Names(t), cut, widen) == Err
  {
  }
}
