/** The grammar of arithmetic and conditions as one would write it down, and that the parser accepts and computes it. */
module Grammar {
  import opened Ast
  import opened ByteOrder
  import opened Parsing

  // ---------------------------------------------------------------- sums of products of factors

  predicate IsSum(t: Tree)
    decreases t, 2
  {
    IsProduct(t) || (t.Bin? && (t.op.Plus? || t.op.Minus?) && IsSum(t.l) && IsProduct(t.r))
  }

  predicate IsProduct(t: Tree)
    decreases t, 1
  {
    IsFactor(t) || (t.Bin? && (t.op.Asterisk? || t.op.Slash?) && IsProduct(t.l) && IsFactor(t.r))
  }

  predicate IsFactor(t: Tree)
    decreases t, 0
  {
    match t
    case Lit(Number(_)) => true
    case Lit(StringLit(_)) => true
    case Lit(Keyword(k)) => k == TrueKw || k == FalseKw || k == NullKw
    case Lit(_) => false
    case Name(_) => true
    case Call(_, _) => true
    case Paren(inner) => IsSum(inner)
    case Bin(_, _, _) => false
  }

  lemma {:induction false} GrammaticalIs(t: Tree)
    ensures Grammatical(t, 1) <==> IsSum(t)
    ensures Grammatical(t, 2) <==> IsProduct(t)
    ensures Grammatical(t, 3) <==> IsFactor(t)
  {
    assert !t.Bin? ==> IsSum(t) == IsProduct(t) == IsFactor(t);
    match t {
      case Paren(inner) => GrammaticalIs(inner);
      case Bin(op, l, r) =>
        GrammaticalIs(l);
        GrammaticalIs(r);
        assert IsProduct(t) <==> (op.Asterisk? || op.Slash?) && IsProduct(l) && IsFactor(r);
        assert IsSum(t) <==> IsProduct(t) || ((op.Plus? || op.Minus?) && IsSum(l) && IsProduct(r));
      case _ =>
    }
  }

  /** The number a constant stands for in arithmetic. */
  function Amount(v: Result<Expression>, ar: Arithmetic): Option<real> {
    match v
    case Ok(Consts(Integer(i))) => Some(ar.widen(i))
    case Ok(Consts(Float(f))) => Some(f)
    case _ => None
  }

  /** What a tree stands for: literals for themselves, names for columns, operators for floats computed from numbers. */
  function Worth(t: Tree, ar: Arithmetic): Result<Expression> {
    match t
    case Lit(Number(n)) => (match ar.number(n) case Ok(v) => Ok(Consts(v)) case Err => Err)
    case Lit(StringLit(s)) => Ok(Consts(String(s)))
    case Lit(Keyword(TrueKw)) => Ok(Consts(Boolean(true)))
    case Lit(Keyword(FalseKw)) => Ok(Consts(Boolean(false)))
    case Lit(Keyword(NullKw)) => Ok(Consts(Null))
    case Lit(_) => Err
    case Name(name) => Ok(Field(name))
    case Call(name, arg) => Ok(Function(name, arg))
    case Paren(inner) => Worth(inner, ar)
    case Bin(op, l, r) =>
      match (Amount(Worth(l, ar), ar), Amount(Worth(r, ar), ar))
      case (Some(x), Some(y)) => Ok(Consts(Float(ar.compute(op, x, y))))
      case _ => Err
  }

  lemma {:induction false} EvalIs(t: Tree, level: nat, ar: Arithmetic)
    requires Grammatical(t, level)
    ensures Eval(t, ar) == Worth(t, ar)
  {
    match t {
      case Paren(inner) => EvalIs(inner, 1, ar);
      case Bin(op, l, r) =>
        EvalIs(l, Precedence(op), ar);
        EvalIs(r, Precedence(op) + 1, ar);
      case _ =>
    }
  }

  /** What cannot go on with arithmetic. */
  predicate Ends(ts: seq<Token>) {
    ts == [] || !(ts[0].Plus? || ts[0].Minus? || ts[0].Asterisk? || ts[0].Slash?)
  }

  ghost predicate WritesSum(t: Tree, ts: seq<Token>, v: Expression, rest: seq<Token>, ar: Arithmetic) {
    IsSum(t) && ts == Print(t) + rest && Worth(t, ar) == Ok(v) && StaysName(t, rest)
  }

  /** The parser accepts exactly the sums, takes all of their tokens, and returns what they stand for. */
  lemma SumsAreParsed(ts: seq<Token>, v: Expression, rest: seq<Token>, ar: Arithmetic)
    ensures Climb(ts, 1, ar) == Parsed(v, rest) <==> Ends(rest) && exists t :: WritesSum(t, ts, v, rest, ar)
  {
    ParsesExactlyTrees(ts, v, rest, ar);
    forall t ensures Explains(t, 1, ts, Parsed(v, rest), ar) <==> WritesSum(t, ts, v, rest, ar) {
      GrammaticalIs(t);
      if IsSum(t) { EvalIs(t, 1, ar); }
    }
  }

  // ---------------------------------------------------------------- three numbers

  /** The literal stands for this number in arithmetic. */
  predicate Denotes(n: Text, f: real, ar: Arithmetic) {
    match ar.number(n)
    case Ok(Integer(i)) => ar.widen(i) == f
    case Ok(Float(g)) => g == f
    case _ => false
  }

  /** `a x b y c`: products before sums, otherwise from left to right. */
  lemma ThreeNumbers(a: Text, x: Token, b: Text, y: Token, c: Text, f: real, g: real, h: real, ar: Arithmetic)
    requires Denotes(a, f, ar) && Denotes(b, g, ar) && Denotes(c, h, ar)
    requires x in {Plus, Minus, Asterisk, Slash} && y in {Plus, Minus, Asterisk, Slash}
    ensures Climb([Number(a), x, Number(b), y, Number(c)], 1, ar)
         == Parsed(Consts(Float(if x in {Plus, Minus} && y in {Asterisk, Slash}
                                then ar.compute(x, f, ar.compute(y, g, h))
                                else ar.compute(y, ar.compute(x, f, g), h))), [])
  {
    var l, m, n := Lit(Number(a)), Lit(Number(b)), Lit(Number(c));
    if x in {Plus, Minus} && y in {Asterisk, Slash} {
      TwoOperands(y, m, n, g, h, ar);
      TwoOperands(x, l, Bin(y, m, n), f, ar.compute(y, g, h), ar);
      assert Print(l) + [x] + Print(Bin(y, m, n)) == [Number(a), x, Number(b), y, Number(c)];
      WholeInput(Bin(x, l, Bin(y, m, n)), [Number(a), x, Number(b), y, Number(c)], ar);
    } else {
      TwoOperands(x, l, m, f, g, ar);
      TwoOperands(y, Bin(x, l, m), n, ar.compute(x, f, g), h, ar);
      assert Print(Bin(x, l, m)) + [y] + Print(n) == [Number(a), x, Number(b), y, Number(c)];
      WholeInput(Bin(y, Bin(x, l, m), n), [Number(a), x, Number(b), y, Number(c)], ar);
    }
  }

  lemma TwoOperands(op: Token, l: Tree, r: Tree, x: real, y: real, ar: Arithmetic)
    requires Amount(Worth(l, ar), ar) == Some(x) && Amount(Worth(r, ar), ar) == Some(y)
    requires if op.Plus? || op.Minus? then IsSum(l) && IsProduct(r)
             else (op.Asterisk? || op.Slash?) && IsProduct(l) && IsFactor(r)
    ensures Worth(Bin(op, l, r), ar) == Ok(Consts(Float(ar.compute(op, x, y))))
    ensures IsSum(Bin(op, l, r)) && (op.Asterisk? || op.Slash? ==> IsProduct(Bin(op, l, r)))
    ensures Print(Bin(op, l, r)) == Print(l) + [op] + Print(r)
  {
  }

  lemma WholeInput(t: Tree, ts: seq<Token>, ar: Arithmetic)
    requires IsSum(t) && Worth(t, ar).Ok? && ts == Print(t)
    ensures Climb(ts, 1, ar) == Parsed(Worth(t, ar).value, [])
  {
    assert ts == Print(t) + [];
    assert WritesSum(t, ts, Worth(t, ar).value, [], ar);
    SumsAreParsed(ts, Worth(t, ar).value, [], ar);
  }

  // ---------------------------------------------------------------- conditions

  lemma {:induction false} TakesFactor(f: Tree, rest: seq<Token>, ar: Arithmetic)
    requires IsFactor(f) && StaysName(f, rest)
    ensures Atom(Print(f) + rest, ar) == Took(Worth(f, ar), rest)
  {
    GrammaticalIs(f);
    EvalIs(f, 3, ar);
    if f.Paren? {
      GrammaticalIs(f.inner);
      ClimbsPrinted(f.inner, 1, 1, [CloseParen] + rest, ar);
      TakesParen(Print(f.inner), Eval(f.inner, ar), rest, ar);
    } else {
      TakesLeaf(f, rest, ar);
    }
  }

  lemma AtomIsFactor(ts: seq<Token>, ar: Arithmetic) returns (f: Tree)
    requires Atom(ts, ar).Parsed?
    ensures IsFactor(f) && ts == Print(f) + Atom(ts, ar).rest && Worth(f, ar) == Ok(Atom(ts, ar).value)
  {
    f := AtomIsTree(ts, 3, ar);
    GrammaticalIs(f);
    EvalIs(f, 3, ar);
  }

  /** A factor, `=`, `>` or `<`, and a sum are written there, and this is the condition they state. */
  ghost predicate WritesCondition(f: Tree, sign: Token, t: Tree, ts: seq<Token>, e: Expression, rest: seq<Token>,
      ar: Arithmetic) {
    && IsFactor(f) && Worth(f, ar).Ok? && ts == Print(f) + [sign] + (Print(t) + rest)
    && IsSum(t) && Worth(t, ar).Ok? && StaysName(t, rest)
    && var (l, r) := (Worth(f, ar).value, Worth(t, ar).value);
      match sign
      case EqualSign => e == Operation(Equal(l, r))
      case GreaterSign => e == Operation(GreaterThan(l, r))
      case LessSign => e == Operation(LessThan(l, r))
      case _ => false
  }

  /** The parser accepts exactly such conditions. */
  lemma ConditionsAreParsed(ts: seq<Token>, e: Expression, rest: seq<Token>, ar: Arithmetic)
    ensures Condition(ts, ar) == Parsed(e, rest)
       <==> Ends(rest) && exists f, sign, t :: WritesCondition(f, sign, t, ts, e, rest, ar)
  {
    if Condition(ts, ar) == Parsed(e, rest) {
      var f, t := ParsedIsWritten(ts, e, rest, ar);
    }
    if f, sign, t :| Ends(rest) && WritesCondition(f, sign, t, ts, e, rest, ar) {
      WrittenIsParsed(f, sign, t, ts, e, rest, ar);
    }
  }

  lemma ParsedIsWritten(ts: seq<Token>, e: Expression, rest: seq<Token>, ar: Arithmetic) returns (f: Tree, t: Tree)
    requires Condition(ts, ar) == Parsed(e, rest)
    ensures Ends(rest) && WritesCondition(f, Atom(ts, ar).rest[0], t, ts, e, rest, ar)
  {
    var left := Atom(ts, ar);
    f := AtomIsFactor(ts, ar);
    var sign, more := left.rest[0], left.rest[1..];
    t := SumAfter(more, rest, ar);
    SignBetween(Print(f), left.rest);
  }

  lemma SumAfter(more: seq<Token>, rest: seq<Token>, ar: Arithmetic) returns (t: Tree)
    requires Climb(more, 1, ar).Parsed? && Climb(more, 1, ar).rest == rest
    ensures Ends(rest) && WritesSum(t, more, Climb(more, 1, ar).value, rest, ar)
  {
    SumsAreParsed(more, Climb(more, 1, ar).value, rest, ar);
    t :| WritesSum(t, more, Climb(more, 1, ar).value, rest, ar);
  }

  lemma SignBetween(left: seq<Token>, tail: seq<Token>)
    requires tail != []
    ensures left + tail == left + [tail[0]] + tail[1..]
  {
  }

  lemma WrittenIsParsed(f: Tree, sign: Token, t: Tree, ts: seq<Token>, e: Expression, rest: seq<Token>,
      ar: Arithmetic)
    requires Ends(rest) && WritesCondition(f, sign, t, ts, e, rest, ar)
    ensures Condition(ts, ar) == Parsed(e, rest)
  {
    var tail := [sign] + (Print(t) + rest);
    SignBetween(Print(f), tail);
    assert tail[0] == sign && tail[1..] == Print(t) + rest;
    TakesFactor(f, tail, ar);
    SumIsTaken(t, rest, ar);
  }

  lemma SumIsTaken(t: Tree, rest: seq<Token>, ar: Arithmetic)
    requires IsSum(t) && Worth(t, ar).Ok? && StaysName(t, rest) && Ends(rest)
    ensures Climb(Print(t) + rest, 1, ar) == Parsed(Worth(t, ar).value, rest)
  {
    assert WritesSum(t, Print(t) + rest, Worth(t, ar).value, rest, ar);
    SumsAreParsed(Print(t) + rest, Worth(t, ar).value, rest, ar);
  }

  /** So its operands are columns, constants or functions. */
  lemma {:induction false} WorthIsSimple(t: Tree, ar: Arithmetic)
    requires Worth(t, ar).Ok?
    ensures !Worth(t, ar).value.Operation?
  {
    if t.Paren? { WorthIsSimple(t.inner, ar); }
  }
}
