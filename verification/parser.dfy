/** Precedence climbing over arithmetic, evaluated while it is parsed. */
module Parsing {
  import opened Ast
  import opened ByteOrder

  datatype Keyword = TrueKw | FalseKw | NullKw | OtherKw(word: Text)

  datatype Token =
    | Keyword(k: Keyword)
    | Ident(name: Text)
    | StringLit(s: Text)
    | Number(digits: Text)
    | OpenParen
    | CloseParen
    | Comma
    | Semicolon
    | Asterisk
    | Plus
    | Minus
    | Slash
    | EqualSign
    | GreaterSign
    | LessSign

  predicate IsOperator(t: Token) {
    t.Plus? || t.Minus? || t.Asterisk? || t.Slash?
  }

  function Precedence(t: Token): nat {
    match t
    case Plus => 1
    case Minus => 1
    case Asterisk => 2
    case Slash => 2
    case _ => 0
  }

  /** The number library: reading a literal, widening an integer, and the four operations. */
  datatype Arithmetic = Arithmetic(
    number: Text -> Result<Value>,
    widen: i64 -> real,
    compute: (Token, real, real) -> real)

  function AsFloat(v: Value, ar: Arithmetic): Result<real> {
    match v
    case Integer(i) => Ok(ar.widen(i))
    case Float(f) => Ok(f)
    case _ => Err
  }

  /** Two numeric constants give a float constant; anything else is an error. */
  function ComputeExpr(op: Token, l: Expression, r: Expression, ar: Arithmetic): Result<Expression> {
    if l.Consts? && r.Consts? && AsFloat(l.value, ar).Ok? && AsFloat(r.value, ar).Ok? && IsOperator(op) then
      Ok(Consts(Float(ar.compute(op, AsFloat(l.value, ar).value, AsFloat(r.value, ar).value))))
    else Err
  }

  predicate IsLiteral(t: Token) {
    t.Number? || t.StringLit? || (t.Keyword? && !t.k.OtherKw?)
  }

  function LiteralValue(t: Token, ar: Arithmetic): Result<Expression> {
    match t
    case Number(n) => (match ar.number(n) case Ok(v) => Ok(Consts(v)) case Err => Err)
    case StringLit(s) => Ok(Consts(String(s)))
    case Keyword(TrueKw) => Ok(Consts(Boolean(true)))
    case Keyword(FalseKw) => Ok(Consts(Boolean(false)))
    case Keyword(NullKw) => Ok(Consts(Null))
    case _ => Err
  }

  // ---------------------------------------------------------------- what the parser computes

  datatype Parsed = Parsed(value: Expression, rest: seq<Token>) | Failed

  function Atom(ts: seq<Token>, ar: Arithmetic): (r: Parsed)
    ensures r.Parsed? ==> |r.rest| < |ts|
    decreases |ts|, 0
  {
    if ts == [] then Failed
    else if ts[0].Ident? then
      if |ts| > 1 && ts[1].OpenParen? then
        if |ts| > 3 && ts[2].Ident? && ts[3].CloseParen? then Parsed(Function(ts[0].name, ts[2].name), ts[4..])
        else Failed
      else Parsed(Field(ts[0].name), ts[1..])
    else if ts[0].OpenParen? then
      var inner := Climb(ts[1..], 1, ar);
      if inner.Parsed? && inner.rest != [] && inner.rest[0].CloseParen? then Parsed(inner.value, inner.rest[1..])
      else Failed
    else
      match LiteralValue(ts[0], ar)
      case Ok(v) => Parsed(v, ts[1..])
      case Err => Failed
  }

  function Climb(ts: seq<Token>, minPrec: nat, ar: Arithmetic): (r: Parsed)
    ensures r.Parsed? ==> |r.rest| < |ts|
    decreases |ts|, 1
  {
    var left := Atom(ts, ar);
    if left.Parsed? then Continue(left.value, left.rest, minPrec, ar) else Failed
  }

  predicate Stops(ts: seq<Token>, minPrec: nat) {
    ts == [] || !IsOperator(ts[0]) || Precedence(ts[0]) < minPrec
  }

  function Continue(left: Expression, ts: seq<Token>, minPrec: nat, ar: Arithmetic): (r: Parsed)
    ensures r.Parsed? ==> |r.rest| <= |ts|
    decreases |ts|, 0
  {
    if Stops(ts, minPrec) then Parsed(left, ts) else
      var right := Climb(ts[1..], Precedence(ts[0]) + 1, ar);
      if right.Failed? then Failed else
        match ComputeExpr(ts[0], left, right.value, ar)
        case Ok(v) => Continue(v, right.rest, minPrec, ar)
        case Err => Failed
  }

  /** A condition: an operand, a comparison sign, and arithmetic. */
  function Condition(ts: seq<Token>, ar: Arithmetic): Parsed {
    var left := Atom(ts, ar);
    if left.Failed? || left.rest == [] || !IsComparison(left.rest[0]) then Failed else
      var right := Climb(left.rest[1..], 1, ar);
      if right.Failed? then Failed
      else Parsed(Operation(OperationOf(left.rest[0], left.value, right.value)), right.rest)
  }

  predicate IsComparison(t: Token) {
    t.EqualSign? || t.GreaterSign? || t.LessSign?
  }

  function OperationOf(sign: Token, l: Expression, r: Expression): Operation {
    match sign
    case GreaterSign => GreaterThan(l, r)
    case LessSign => LessThan(l, r)
    case _ => Equal(l, r)
  }

  class Parser {
    var lexer: seq<Token>
    const ar: Arithmetic

    constructor (tokens: seq<Token>, ar: Arithmetic)
      ensures lexer == tokens && this.ar == ar
    {
      lexer := tokens;
      this.ar := ar;
    }

    method NextToken() returns (r: Result<Token>)
      modifies this
      ensures old(lexer) == [] ==> r == Err && lexer == []
      ensures old(lexer) != [] ==> r == Ok(old(lexer)[0]) && lexer == old(lexer)[1..]
    {
      if lexer == [] { return Err; }
      r := Ok(lexer[0]);
      lexer := lexer[1..];
    }

    method Peek() returns (r: Result<Token>)
      ensures r == if lexer == [] then Err else Ok(lexer[0])
    {
      r := if lexer == [] then Err else Ok(lexer[0]);
    }

    method ParseExpression() returns (r: Result<Expression>)
      modifies this
      ensures r == (match Atom(old(lexer), ar) case Parsed(v, _) => Ok(v) case Failed => Err)
      ensures r.Ok? ==> lexer == Atom(old(lexer), ar).rest
      decreases |lexer|, 0
    {
      ghost var start := lexer;
      var token := NextToken();
      if token.Err? { return Err; }
      if token.value.Ident? {
        var open := Peek();
        if open == Ok(OpenParen) {
          open := NextToken();
          var arg := NextToken();
          if arg.Err? || !arg.value.Ident? { return Err; }
          var close := NextToken();
          if close != Ok(CloseParen) { return Err; }
          return Ok(Function(token.value.name, arg.value.name));
        }
        return Ok(Field(token.value.name));
      } else if token.value.OpenParen? {
        var inner := ComputeMathOperator(1);
        if inner.Err? { return Err; }
        var close := NextToken();
        if close != Ok(CloseParen) { return Err; }
        return inner;
      } else {
        return LiteralValue(token.value, ar);
      }
    }

    method ParseOperationExpr() returns (r: Result<Expression>)
      modifies this
      ensures r == (match Condition(old(lexer), ar) case Parsed(v, _) => Ok(v) case Failed => Err)
      ensures r.Ok? ==> lexer == Condition(old(lexer), ar).rest
    {
      var left := ParseExpression();
      if left.Err? { return Err; }
      var token := NextToken();
      if token.Err? { return Err; }
      match token.value {
        case EqualSign =>
          var right := ComputeMathOperator(1);
          return if right.Ok? then Ok(Operation(Equal(left.value, right.value))) else Err;
        case GreaterSign =>
          var right := ComputeMathOperator(1);
          return if right.Ok? then Ok(Operation(GreaterThan(left.value, right.value))) else Err;
        case LessSign =>
          var right := ComputeMathOperator(1);
          return if right.Ok? then Ok(Operation(LessThan(left.value, right.value))) else Err;
        case _ => return Err;
      }
    }

    method ComputeMathOperator(minPrec: nat) returns (r: Result<Expression>)
      modifies this
      ensures r == (match Climb(old(lexer), minPrec, ar) case Parsed(v, _) => Ok(v) case Failed => Err)
      ensures r.Ok? ==> lexer == Climb(old(lexer), minPrec, ar).rest
      decreases |lexer|, 1
    {
      ghost var start := lexer;
      var left := ParseExpression();
      if left.Err? { return Err; }
      while true
        invariant left.Ok? && |lexer| < |start|
        invariant Continue(left.value, lexer, minPrec, ar) == Climb(start, minPrec, ar)
        decreases |lexer|
      {
        var token := Peek();
        if token.Err? { break; }
        if !IsOperator(token.value) || Precedence(token.value) < minPrec { break; }
        var nextPrec := Precedence(token.value) + 1;
        token := NextToken();
        var right := ComputeMathOperator(nextPrec);
        if right.Err? { return Err; }
        left := ComputeExpr(token.value, left.value, right.value, ar);
        if left.Err? { return Err; }
      }
      return left;
    }
  }

  // ---------------------------------------------------------------- arithmetic trees

  datatype Tree =
    | Lit(token: Token)
    | Name(name: Text)
    | Call(name: Text, arg: Text)
    | Paren(inner: Tree)
    | Bin(op: Token, l: Tree, r: Tree)

  /** The trees an expression at this precedence level may be: operators bind by precedence and to the
      left, and everything else stands in parentheses. */
  predicate Grammatical(t: Tree, level: nat) {
    match t
    case Lit(token) => IsLiteral(token)
    case Name(_) => true
    case Call(_, _) => true
    case Paren(inner) => Grammatical(inner, 1)
    case Bin(op, l, r) =>
      IsOperator(op) && Precedence(op) >= level
      && Grammatical(l, Precedence(op)) && Grammatical(r, Precedence(op) + 1)
  }

  function Print(t: Tree): (ts: seq<Token>)
    ensures ts != []
  {
    match t
    case Lit(token) => [token]
    case Name(name) => [Ident(name)]
    case Call(name, arg) => [Ident(name), OpenParen, Ident(arg), CloseParen]
    case Paren(inner) => [OpenParen] + Print(inner) + [CloseParen]
    case Bin(op, l, r) => Print(l) + [op] + Print(r)
  }

  /** The value of a tree: operands from left to right, then the operator. */
  function Eval(t: Tree, ar: Arithmetic): Result<Expression> {
    match t
    case Lit(token) => LiteralValue(token, ar)
    case Name(name) => Ok(Field(name))
    case Call(name, arg) => Ok(Function(name, arg))
    case Paren(inner) => Eval(inner, ar)
    case Bin(op, l, r) => Combine(op, Eval(l, ar), Eval(r, ar), ar)
  }

  function Combine(op: Token, l: Result<Expression>, r: Result<Expression>, ar: Arithmetic): Result<Expression> {
    if l.Ok? && r.Ok? then ComputeExpr(op, l.value, r.value, ar) else Err
  }

  function Resume(v: Result<Expression>, rest: seq<Token>, minPrec: nat, ar: Arithmetic): Parsed {
    if v.Ok? then Continue(v.value, rest, minPrec, ar) else Failed
  }

  predicate EndsInName(t: Tree) {
    t.Name? || (t.Bin? && EndsInName(t.r))
  }

  /** A name before an opening parenthesis is a function call. */
  predicate StaysName(t: Tree, rest: seq<Token>) {
    rest == [] || !rest[0].OpenParen? || !EndsInName(t)
  }

  /** What may follow a tree of this level. */
  predicate MayFollow(t: Tree, rest: seq<Token>, level: nat) {
    StaysName(t, rest) && (rest == [] || Precedence(rest[0]) <= level)
  }

  function Took(v: Result<Expression>, rest: seq<Token>): Parsed {
    if v.Ok? then Parsed(v.value, rest) else Failed
  }

  lemma TakesLeaf(t: Tree, rest: seq<Token>, ar: Arithmetic)
    requires t.Lit? || t.Name? || t.Call?
    requires Grammatical(t, 0) && StaysName(t, rest)
    ensures Atom(Print(t) + rest, ar) == Took(Eval(t, ar), rest)
  {
  }

  lemma TakesParen(inside: seq<Token>, v: Result<Expression>, rest: seq<Token>, ar: Arithmetic)
    requires Climb(inside + ([CloseParen] + rest), 1, ar) == Resume(v, [CloseParen] + rest, 1, ar)
    ensures Atom([OpenParen] + inside + [CloseParen] + rest, ar) == Took(v, rest)
  {
    var after, ts := [CloseParen] + rest, [OpenParen] + inside + [CloseParen] + rest;
    assert ts[0] == OpenParen && ts[1..] == inside + after;
    ClosesParen(v, rest, ar);
  }

  lemma ClosesParen(v: Result<Expression>, rest: seq<Token>, ar: Arithmetic)
    ensures var after := [CloseParen] + rest;
      Resume(v, after, 1, ar) == Took(v, after) && after[0] == CloseParen && after[1..] == rest
  {
    assert Stops([CloseParen] + rest, 1);
  }

  /** One turn of the climbing loop: the operator, its right operand, and on. */
  lemma TakesOperator(left: Expression, op: Token, right: seq<Token>, v: Result<Expression>, rest: seq<Token>,
      minPrec: nat, ar: Arithmetic)
    requires IsOperator(op) && minPrec <= Precedence(op) && Stops(rest, Precedence(op) + 1)
    requires var p := Precedence(op); Climb(right + rest, p + 1, ar) == Resume(v, rest, p + 1, ar)
    ensures Continue(left, [op] + (right + rest), minPrec, ar)
         == Resume(Combine(op, Ok(left), v, ar), rest, minPrec, ar)
  {
    var ts := [op] + (right + rest);
    assert ts[0] == op && ts[1..] == right + rest;
  }

  lemma TakesBin(op: Token, left: seq<Token>, l: Result<Expression>, right: seq<Token>, r: Result<Expression>,
      minPrec: nat, rest: seq<Token>, ar: Arithmetic)
    requires IsOperator(op) && minPrec <= Precedence(op) && Stops(rest, Precedence(op) + 1)
    requires var after := [op] + (right + rest);
      Climb(left + after, minPrec, ar) == Resume(l, after, minPrec, ar)
    requires var p := Precedence(op); Climb(right + rest, p + 1, ar) == Resume(r, rest, p + 1, ar)
    ensures Climb(left + [op] + right + rest, minPrec, ar) == Resume(Combine(op, l, r, ar), rest, minPrec, ar)
  {
    assert left + [op] + right + rest == left + ([op] + (right + rest));
    if l.Ok? { TakesOperator(l.value, op, right, r, rest, minPrec, ar); }
  }

  /** Climbing over a printed tree evaluates it and goes on with whatever follows. */
  lemma {:induction false} ClimbsPrinted(t: Tree, level: nat, minPrec: nat, rest: seq<Token>, ar: Arithmetic)
    requires Grammatical(t, level) && minPrec <= level && MayFollow(t, rest, level)
    ensures Climb(Print(t) + rest, minPrec, ar) == Resume(Eval(t, ar), rest, minPrec, ar)
    decreases t
  {
    match t {
      case Paren(inner) =>
        ClimbsPrinted(inner, 1, 1, [CloseParen] + rest, ar);
        TakesParen(Print(inner), Eval(inner, ar), rest, ar);
      case Bin(op, l, r) =>
        var p := Precedence(op);
        ClimbsPrinted(l, p, minPrec, [op] + (Print(r) + rest), ar);
        ClimbsPrinted(r, p + 1, p + 1, rest, ar);
        TakesBin(op, Print(l), Eval(l, ar), Print(r), Eval(r, ar), minPrec, rest, ar);
      case _ =>
        TakesLeaf(t, rest, ar);
    }
  }

  // ---------------------------------------------------------------- every accepted input is a printed tree

  /** The parse took the tokens of this tree, and its value, and left a rest that could not be part of it. */
  ghost predicate Explains(t: Tree, level: nat, ts: seq<Token>, r: Parsed, ar: Arithmetic) {
    && r.Parsed? && Grammatical(t, level) && ts == Print(t) + r.rest && Eval(t, ar) == Ok(r.value)
    && StaysName(t, r.rest)
  }

  lemma {:induction false} LowerLevel(t: Tree, level: nat, lower: nat)
    requires Grammatical(t, level) && lower <= level
    ensures Grammatical(t, lower)
  {
  }

  lemma {:induction false} AtomIsTree(ts: seq<Token>, level: nat, ar: Arithmetic) returns (t: Tree)
    requires Atom(ts, ar).Parsed?
    ensures Explains(t, level, ts, Atom(ts, ar), ar)
    decreases |ts|, 0
  {
    if ts[0].OpenParen? {
      var u := ClimbIsTree(ts[1..], 1, ar);
      t := Paren(u);
      WrapsTree(ts, u, level, ar);
    } else {
      t := LeafIsTree(ts, level, ar);
    }
  }

  lemma LeafIsTree(ts: seq<Token>, level: nat, ar: Arithmetic) returns (t: Tree)
    requires Atom(ts, ar).Parsed? && !ts[0].OpenParen?
    ensures Explains(t, level, ts, Atom(ts, ar), ar)
  {
    if ts[0].Ident? && |ts| > 1 && ts[1].OpenParen? {
      t := Call(ts[0].name, ts[2].name);
      assert ts == ts[..4] + ts[4..] && ts[..4] == Print(t);
    } else {
      t := if ts[0].Ident? then Name(ts[0].name) else Lit(ts[0]);
      assert ts == [ts[0]] + ts[1..];
    }
  }

  lemma WrapsTree(ts: seq<Token>, u: Tree, level: nat, ar: Arithmetic)
    requires Atom(ts, ar).Parsed? && ts[0].OpenParen?
    requires Explains(u, 1, ts[1..], Climb(ts[1..], 1, ar), ar)
    ensures Explains(Paren(u), level, ts, Atom(ts, ar), ar)
  {
  }

  lemma {:induction false} ClimbIsTree(ts: seq<Token>, minPrec: nat, ar: Arithmetic) returns (t: Tree)
    requires Climb(ts, minPrec, ar).Parsed?
    ensures Explains(t, minPrec, ts, Climb(ts, minPrec, ar), ar)
    ensures Stops(Climb(ts, minPrec, ar).rest, minPrec)
    decreases |ts|, 1
  {
    var left := Atom(ts, ar);
    var level := minPrec + 2;
    var l := AtomIsTree(ts, level, ar);
    t := ContinueIsTree(l, level, left, ts, minPrec, ar);
  }

  lemma {:induction false} ContinueIsTree(l: Tree, level: nat, left: Parsed, ts: seq<Token>, minPrec: nat,
      ar: Arithmetic)
    returns (t: Tree)
    requires Explains(l, level, ts, left, ar) && minPrec <= level
    requires left.rest != [] && IsOperator(left.rest[0]) ==> Precedence(left.rest[0]) <= level
    requires Continue(left.value, left.rest, minPrec, ar).Parsed?
    ensures Explains(t, minPrec, ts, Continue(left.value, left.rest, minPrec, ar), ar)
    ensures Stops(Continue(left.value, left.rest, minPrec, ar).rest, minPrec)
    decreases |left.rest|, 2
  {
    if Stops(left.rest, minPrec) {
      LowerLevel(l, level, minPrec);
      return l;
    }
    var op, p := left.rest[0], Precedence(left.rest[0]);
    var right := Climb(left.rest[1..], p + 1, ar);
    var r := ClimbIsTree(left.rest[1..], p + 1, ar);
    var next := Parsed(ComputeExpr(op, left.value, right.value, ar).value, right.rest);
    LowerLevel(l, level, p);
    JoinsTrees(l, op, r, left, right, ts, ar);
    t := ContinueIsTree(Bin(op, l, r), p, next, ts, minPrec, ar);
  }

  lemma JoinsTrees(l: Tree, op: Token, r: Tree, left: Parsed, right: Parsed, ts: seq<Token>, ar: Arithmetic)
    requires IsOperator(op) && Explains(l, Precedence(op), ts, left, ar)
    requires left.rest != [] && left.rest[0] == op
    requires Explains(r, Precedence(op) + 1, left.rest[1..], right, ar)
    requires ComputeExpr(op, left.value, right.value, ar).Ok?
    ensures Explains(Bin(op, l, r), Precedence(op), ts,
                     Parsed(ComputeExpr(op, left.value, right.value, ar).value, right.rest), ar)
  {
  }

  /** The parser accepts exactly the printed grammatical trees, consumes exactly their tokens, and returns
      their value; trees over constants are left-associative and respect precedence by construction. */
  lemma ParsesExactlyTrees(ts: seq<Token>, v: Expression, rest: seq<Token>, ar: Arithmetic)
    ensures Climb(ts, 1, ar) == Parsed(v, rest)
       <==> Stops(rest, 1) && exists t :: Explains(t, 1, ts, Parsed(v, rest), ar)
  {
    if Climb(ts, 1, ar) == Parsed(v, rest) {
      var t := ClimbIsTree(ts, 1, ar);
      assert Explains(t, 1, ts, Parsed(v, rest), ar);
    }
    if t :| Stops(rest, 1) && Explains(t, 1, ts, Parsed(v, rest), ar) { ClimbsPrinted(t, 1, 1, rest, ar); }
  }

  // ---------------------------------------------------------------- only the needed parentheses

  predicate Arithmetical(t: Tree) {
    match t
    case Lit(token) => IsLiteral(token)
    case Bin(op, l, r) => IsOperator(op) && Arithmetical(l) && Arithmetical(r)
    case _ => false
  }

  /** Parentheses go around exactly the subtrees that bind more loosely than their place allows. */
  function Parenthesized(t: Tree, level: nat): Tree {
    match t
    case Bin(op, l, r) =>
      var body := Bin(op, Parenthesized(l, Precedence(op)), Parenthesized(r, Precedence(op) + 1));
      if Precedence(op) < level then Paren(body) else body
    case _ => t
  }

  lemma {:induction false} ParenthesizedIsGrammatical(t: Tree, level: nat, ar: Arithmetic)
    requires Arithmetical(t)
    ensures Grammatical(Parenthesized(t, level), level)
    ensures Eval(Parenthesized(t, level), ar) == Eval(t, ar)
  {
    if t.Bin? {
      ParenthesizedIsGrammatical(t.l, Precedence(t.op), ar);
      ParenthesizedIsGrammatical(t.r, Precedence(t.op) + 1, ar);
    }
  }

  /** Printing any arithmetic tree with only the needed parentheses and parsing it back evaluates the tree. */
  lemma PrintThenParse(t: Tree, ar: Arithmetic)
    requires Arithmetical(t)
    ensures Climb(Print(Parenthesized(t, 1)), 1, ar) ==
      (match Eval(t, ar) case Ok(v) => Parsed(v, []) case Err => Failed)
  {
    var p := Parenthesized(t, 1);
    ParenthesizedIsGrammatical(t, 1, ar);
    ClimbsPrinted(p, 1, 1, [], ar);
    assert Print(p) + [] == Print(p);
  }
}
