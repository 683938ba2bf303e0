/** The order of SQL values by which an index scan sorts the ids it reads. */
module ValueOrder {
  import opened Ast
  import opened ByteOrder
  import opened Joins
  import opened Tables

  /** `partial_cmp`: NULL comes first, other values as in expressions, values that do not compare have no order. */
  function PartialCmp(x: Value, y: Value, widen: i64 -> real): Comparison {
    if x.Null? then (if y.Null? then Same else Below)
    else if y.Null? then Above
    else Compare(x, y, widen)
  }

  /** Which of two values comes first: NULL before all others, false before true, integers widened beside floats, text
      by its bytes. */
  lemma ComesFirst(x: Value, y: Value, widen: i64 -> real)
    ensures PartialCmp(x, y, widen).Below? <==>
      match (x, y)
      case (Null, _) => !y.Null?
      case (Boolean(a), Boolean(b)) => !a && b
      case (Integer(a), Integer(b)) => a < b
      case (Integer(a), Float(b)) => widen(a) < b
      case (Float(a), Integer(b)) => a < widen(b)
      case (Float(a), Float(b)) => a < b
      case (String(a), String(b)) => Less(a, b)
      case _ => false
  {
    if x.String? && y.String? && Less(x.s, y.s) { LessAsymmetric(x.s, y.s); }
  }

  ghost predicate OneType(ids: set<Value>) {
    forall x, y :: x in ids && y in ids ==> TypeOf(x) == TypeOf(y)
  }

  predicate IsFirst(x: Value, ids: set<Value>, widen: i64 -> real) {
    x in ids && forall y :: y in ids && y != x ==> PartialCmp(x, y, widen).Below?
  }

  /** Values of one type are totally ordered. */
  lemma OneTypeOrder(x: Value, y: Value, z: Value, widen: i64 -> real)
    requires TypeOf(x) == TypeOf(y) == TypeOf(z)
    ensures x == y || PartialCmp(x, y, widen).Below? || PartialCmp(y, x, widen).Below?
    ensures PartialCmp(x, y, widen).Below? ==> !PartialCmp(y, x, widen).Below? && x != y
    ensures PartialCmp(x, y, widen).Below? && PartialCmp(y, z, widen).Below? ==> PartialCmp(x, z, widen).Below?
  {
    if x.String? {
      LessTotal(x.s, y.s);
      LessIrreflexive(x.s);
      if Less(x.s, y.s) { LessAsymmetric(x.s, y.s); }
      if Less(x.s, y.s) && Less(y.s, z.s) { LessTransitive(x.s, y.s, z.s); }
    }
  }

  lemma {:induction false} FirstExists(ids: set<Value>, widen: i64 -> real) returns (first: Value)
    requires ids != {} && OneType(ids)
    ensures IsFirst(first, ids, widen)
    decreases |ids|
  {
    var x :| x in ids;
    var others := ids - {x};
    if others == {} {
      assert ids == {x};
      return x;
    }
    var m := FirstExists(others, widen);
    OneTypeOrder(x, m, m, widen);
    first := if PartialCmp(x, m, widen).Below? then x else m;
    forall y | y in ids && y != first ensures PartialCmp(first, y, widen).Below? {
      assert y == x || y in others;
      OneTypeOrder(first, m, y, widen);
    }
  }

  lemma FirstIsUnique(x: Value, y: Value, ids: set<Value>, widen: i64 -> real)
    requires OneType(ids) && IsFirst(x, ids, widen) && IsFirst(y, ids, widen)
    ensures x == y
  {
    OneTypeOrder(x, y, y, widen);
  }

  /** `iter().collect()` and `sort_by(partial_cmp)`. */
  function SortedIds(ids: set<Value>, widen: i64 -> real): (s: seq<Value>)
    requires OneType(ids)
    ensures forall id :: id in s <==> id in ids
    ensures forall i, j :: 0 <= i < j < |s| ==> PartialCmp(s[i], s[j], widen).Below? && s[i] != s[j]
  {
    if ids == {} then [] else
      assert exists x :: IsFirst(x, ids, widen) by { var x := FirstExists(ids, widen); }
      assert forall x, y :: IsFirst(x, ids, widen) && IsFirst(y, ids, widen) ==> x == y by {
        forall x, y | IsFirst(x, ids, widen) && IsFirst(y, ids, widen) ensures x == y {
          FirstIsUnique(x, y, ids, widen);
        }
      }
      var first :| first in ids && IsFirst(first, ids, widen);
      var rest := SortedIds(ids - {first}, widen);
      assert forall j :: 0 <= j < |rest| ==> rest[j] in rest;
      [first] + rest
  }
}
