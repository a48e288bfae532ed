/**
 * Plural expressions: the tokens, the trees the parser builds, and the grammar with its precedences written
 * out as phrases.  The binding strength of an operator is its token number: "?" binds weakest, "!" tightest.
 */
module PluralGrammar {
  import opened PluralTables

  /** One more than the largest unsigned long. */
  const WORD_LIMIT := 0x1_0000_0000_0000_0000

  type Word = x: int | 0 <= x < WORD_LIMIT witness 0

  datatype Operation =
    | Var | Num | Lnot | Mult | Divide | Module | Plus | Minus
    | LessThan | GreaterThan | LessOrEqual | GreaterOrEqual | Equal | NotEqual | Land | Lor | Qmop

  /** struct expression; num is used by Num alone and args has nargs elements. */
  datatype Expression = Expression(nargs: nat, operation: Operation, num: Word, args: seq<Expression>)

  /** Semantic values on the parser's stack; None stands for what an unused union member happens to hold. */
  datatype Value = None | NumValue(num: Word) | OpValue(op: Operation) | ExpValue(exp: Expression)

  datatype Token = Token(kind: Kind, value: Value)

  predicate IsBinary(op: Operation) {
    !op.Var? && !op.Num? && !op.Lnot? && !op.Qmop?
  }

  function KindOf(op: Operation): (k: Kind)
    requires IsBinary(op)
    ensures OR <= k <= MULOP2
  {
    if op.Lor? then OR
    else if op.Land? then AND
    else if op.Equal? || op.NotEqual? then EQUOP2
    else if op.Plus? || op.Minus? then ADDOP2
    else if op.Mult? || op.Divide? || op.Module? then MULOP2
    else CMPOP2
  }

  function OpToken(op: Operation): Token
    requires IsBinary(op)
  {
    Token(KindOf(op), if op.Lor? || op.Land? then None else OpValue(op))
  }

  /** The token carries what the lexer promises for its kind. */
  predicate Lexical(t: Token) {
    && (t.kind == NUMBER ==> t.value.NumValue?)
    && (OR <= t.kind <= AND ==> t.value == None)
    && (EQUOP2 <= t.kind <= MULOP2 ==> t.value.OpValue? && IsBinary(t.value.op) && KindOf(t.value.op) == t.kind)
    && (t.kind != NUMBER && !(EQUOP2 <= t.kind <= MULOP2) ==> t.value == None)
  }

  /** The operation a binary operator token stands for. */
  function OperationOf(t: Token): (op: Operation)
    requires Lexical(t) && OR <= t.kind <= MULOP2
    ensures IsBinary(op) && OpToken(op) == t
  {
    if t.kind == OR then Lor else if t.kind == AND then Land else t.value.op
  }

  function NewExp0(op: Operation): Expression {
    Expression(0, op, 0, [])
  }

  function NewNumber(n: Word): Expression {
    Expression(0, Num, n, [])
  }

  function NewExp1(op: Operation, right: Expression): Expression {
    Expression(1, op, 0, [right])
  }

  function NewExp2(op: Operation, left: Expression, right: Expression): Expression {
    Expression(2, op, 0, [left, right])
  }

  function NewExp3(op: Operation, bexp: Expression, tbranch: Expression, fbranch: Expression): Expression {
    Expression(3, op, 0, [bexp, tbranch, fbranch])
  }

  /** Every node has the number of arguments its operator takes. */
  predicate WellFormed(e: Expression) {
    match e.nargs
    case 0 => e.args == [] && (e == NewExp0(Var) || e == NewNumber(e.num))
    case 1 => |e.args| == 1 && e.num == 0 && e.operation == Lnot && WellFormed(e.args[0])
    case 2 => |e.args| == 2 && e.num == 0 && IsBinary(e.operation) && WellFormed(e.args[0]) && WellFormed(e.args[1])
    case 3 =>
      && |e.args| == 3 && e.num == 0 && e.operation == Qmop
      && WellFormed(e.args[0]) && WellFormed(e.args[1]) && WellFormed(e.args[2])
    case _ => false
  }

  /** A way to write an expression, parentheses included. */
  datatype Phrase =
    | Number(n: Word)
    | Variable
    | Paren(inner: Phrase)
    | Not(arg: Phrase)
    | Binary(op: Operation, left: Phrase, right: Phrase)
    | Conditional(test: Phrase, yes: Phrase, no: Phrase)

  function Level(p: Phrase): int {
    match p
    case Conditional(_, _, _) => QUESTION
    case Binary(op, _, _) => if IsBinary(op) then KindOf(op) else QUESTION
    case Not(_) => NOT
    case _ => NUMBER
  }

  /**
   * The grammar: binary operators associate to the left, "?:" to the right, and an operand binds tighter than
   * its operator unless it is in parentheses, or stands between "?" and ":".
   */
  predicate Grammatical(p: Phrase) {
    match p
    case Number(_) => true
    case Variable => true
    case Paren(q) => Grammatical(q)
    case Not(q) => Grammatical(q) && NOT <= Level(q)
    case Binary(op, l, r) =>
      IsBinary(op) && Grammatical(l) && Grammatical(r) && KindOf(op) <= Level(l) && KindOf(op) < Level(r)
    case Conditional(c, y, n) => Grammatical(c) && Grammatical(y) && Grammatical(n) && QUESTION < Level(c)
  }

  /** The tokens of a phrase. */
  function Yield(p: Phrase): (tokens: seq<Token>)
    requires Grammatical(p)
    ensures |tokens| > 0
    ensures forall i :: 0 <= i < |tokens| ==> tokens[i].kind != END
  {
    match p
    case Number(n) => [Token(NUMBER, NumValue(n))]
    case Variable => [Token(VARIABLE, None)]
    case Paren(q) => [Token(OPEN, None)] + Yield(q) + [Token(CLOSE, None)]
    case Not(q) => [Token(NOT, None)] + Yield(q)
    case Binary(op, l, r) => Yield(l) + [OpToken(op)] + Yield(r)
    case Conditional(c, y, n) => Yield(c) + [Token(QUESTION, None)] + Yield(y) + [Token(COLON, None)] + Yield(n)
  }

  /** The tree a phrase stands for: parentheses only group. */
  function Tree(p: Phrase): (e: Expression)
    requires Grammatical(p)
    ensures WellFormed(e)
  {
    match p
    case Number(n) => NewNumber(n)
    case Variable => NewExp0(Var)
    case Paren(q) => Tree(q)
    case Not(q) => NewExp1(Lnot, Tree(q))
    case Binary(op, l, r) => NewExp2(op, Tree(l), Tree(r))
    case Conditional(c, y, n) => NewExp3(Qmop, Tree(c), Tree(y), Tree(n))
  }

  function Max(x: nat, y: nat): nat {
    if x < y then y else x
  }

  /** How many entries a phrase takes on the parser's stack at most. */
  function Depth(p: Phrase): (d: nat)
    ensures d > 0
  {
    match p
    case Number(_) => 1
    case Variable => 1
    case Paren(q) => Max(1 + Depth(q), 3)
    case Not(q) => 1 + Depth(q)
    case Binary(_, l, r) => Max(Depth(l), 2 + Depth(r))
    case Conditional(c, y, n) => Max(Depth(c), Max(2 + Depth(y), 4 + Depth(n)))
  }

  function Grouped(p: Phrase, level: int): Phrase {
    if Level(p) < level then Paren(p) else p
  }

  /** Writes an expression with parentheses exactly where the grammar asks for them. */
  function Write(e: Expression): (p: Phrase)
    requires WellFormed(e)
    decreases e
  {
    match e.nargs
    case 0 => if e.operation == Var then Variable else Number(e.num)
    case 1 => Not(Grouped(Write(e.args[0]), NOT))
    case 2 =>
      var k := KindOf(e.operation);
      Binary(e.operation, Grouped(Write(e.args[0]), k), Grouped(Write(e.args[1]), k + 1))
    case _ => Conditional(Grouped(Write(e.args[0]), QUESTION + 1), Write(e.args[1]), Write(e.args[2]))
  }

  lemma GroupedIs(p: Phrase, level: int)
    requires Grammatical(p) && level <= NUMBER
    ensures Grammatical(Grouped(p, level)) && level <= Level(Grouped(p, level))
    ensures Tree(Grouped(p, level)) == Tree(p)
  {
  }

  /** What WriteIsGrammatical says about one expression. */
  predicate Written(e: Expression) {
    WellFormed(e) && Grammatical(Write(e)) && Tree(Write(e)) == e
  }

  lemma WriteNot(e: Expression)
    requires WellFormed(e) && e.nargs == 1 && Written(e.args[0])
    ensures Written(e)
  {
    GroupedIs(Write(e.args[0]), NOT);
    assert e.args == [e.args[0]];
  }

  lemma WriteBinary(e: Expression)
    requires WellFormed(e) && e.nargs == 2 && Written(e.args[0]) && Written(e.args[1])
    ensures Written(e)
  {
    var k := KindOf(e.operation);
    GroupedIs(Write(e.args[0]), k);
    GroupedIs(Write(e.args[1]), k + 1);
    assert e.args == [e.args[0], e.args[1]];
  }

  lemma WriteConditional(e: Expression)
    requires WellFormed(e) && e.nargs == 3 && Written(e.args[0]) && Written(e.args[1]) && Written(e.args[2])
    ensures Written(e)
  {
    GroupedIs(Write(e.args[0]), QUESTION + 1);
    assert e.args == [e.args[0], e.args[1], e.args[2]];
    assert Write(e) == Conditional(Grouped(Write(e.args[0]), QUESTION + 1), Write(e.args[1]), Write(e.args[2]));
  }

  lemma {:induction false} WriteIsGrammatical(e: Expression)
    requires WellFormed(e)
    ensures Grammatical(Write(e)) && Tree(Write(e)) == e
    decreases e
  {
    forall i | 0 <= i < |e.args|
      ensures Written(e.args[i])
    {
      WriteIsGrammatical(e.args[i]);
    }
    match e.nargs
    case 0 =>
    case 1 => WriteNot(e);
    case 2 => WriteBinary(e);
    case _ => WriteConditional(e);
  }
}
