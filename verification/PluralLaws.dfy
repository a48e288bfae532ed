/** What the operators of plural expressions do, in terms of the numbers their operands yield. */
module PluralLaws {
  import opened Arith
  import opened PluralTables
  import opened PluralGrammar
  import opened PluralEval

  /** x is a word that differs from the exact result by a multiple of the word size. */
  ghost predicate WrapsTo(exact: int, x: int) {
    0 <= x < 0x1_0000_0000_0000_0000 && exists k: int :: exact == x + k * 0x1_0000_0000_0000_0000
  }

  lemma Wraps(exact: int)
    ensures WrapsTo(exact, exact % WORD_LIMIT)
  {
    assert exact == exact % WORD_LIMIT + exact / WORD_LIMIT * WORD_LIMIT;
  }

  /** Unsigned arithmetic: products, sums and differences wrap around. */
  lemma ArithmeticLaws(op: Operation, l: Phrase, r: Phrase, n: Word, a: Word, b: Word)
    requires Grammatical(Binary(op, l, r)) && Meaning(l, n) == Yields(a) && Meaning(r, n) == Yields(b)
    ensures
      var m := Meaning(Binary(op, l, r), n);
      && (op == Mult ==> m.Yields? && WrapsTo(a * b, m.value))
      && (op == Plus ==> m.Yields? && WrapsTo(a + b, m.value))
      && (op == Minus ==> m.Yields? && WrapsTo(a - b, m.value))
  {
    Wraps(a * b);
    Wraps(a + b);
    Wraps(a - b);
  }

  /** a consists of q times b and a rest that is smaller than b. */
  predicate Splits(a: int, b: int, q: int, rest: int) {
    a == q * b + rest && 0 <= rest < b
  }

  lemma Division(a: int, b: int)
    requires b > 0
    ensures Splits(a, b, a / b, a % b)
  {
    DivFacts(a, b);
  }

  /** A quotient and a remainder, which go together, or the trouble of dividing by zero. */
  lemma DivisionLaws(l: Phrase, r: Phrase, n: Word, a: Word, b: Word)
    requires Grammatical(Binary(Divide, l, r)) && Meaning(l, n) == Yields(a) && Meaning(r, n) == Yields(b)
    ensures
      var q, rest := Meaning(Binary(Divide, l, r), n), Meaning(Binary(Module, l, r), n);
      if b == 0 then q == rest == DivisionByZero
      else q.Yields? && rest.Yields? && Splits(a, b, q.value, rest.value)
  {
    if b > 0 {
      Division(a, b);
    }
  }

  /** Comparisons yield 1 or 0. */
  lemma ComparisonLaws(op: Operation, l: Phrase, r: Phrase, n: Word, a: Word, b: Word)
    requires Grammatical(Binary(op, l, r)) && Meaning(l, n) == Yields(a) && Meaning(r, n) == Yields(b)
    ensures
      var m := Meaning(Binary(op, l, r), n);
      && (op == LessThan ==> m == Yields(if a < b then 1 else 0))
      && (op == GreaterThan ==> m == Yields(if b < a then 1 else 0))
      && (op == LessOrEqual ==> m == Yields(if b < a then 0 else 1))
      && (op == GreaterOrEqual ==> m == Yields(if a < b then 0 else 1))
      && (op == Equal ==> m == Yields(if a == b then 1 else 0))
      && (op == NotEqual ==> m == Yields(if a == b then 0 else 1))
  {
  }

  /** "&&" and "||" look at the right side only if the left one leaves the answer open. */
  lemma LogicLaws(op: Operation, l: Phrase, r: Phrase, n: Word, a: Word)
    requires Grammatical(Binary(op, l, r)) && Meaning(l, n) == Yields(a)
    ensures
      var m, right := Meaning(Binary(op, l, r), n), Meaning(r, n);
      && (op == Land && a == 0 ==> m == Yields(0))
      && (op == Lor && a != 0 ==> m == Yields(1))
      && ((op == Land && a != 0) || (op == Lor && a == 0) ==>
            m == if right.Yields? then Yields(if right.value == 0 then 0 else 1) else right)
  {
  }

  /** Trouble on the left is met first; trouble on the right stops all operators but the two above. */
  lemma TroubleLaws(op: Operation, l: Phrase, r: Phrase, n: Word)
    requires Grammatical(Binary(op, l, r))
    ensures
      var m, left, right := Meaning(Binary(op, l, r), n), Meaning(l, n), Meaning(r, n);
      && (!left.Yields? ==> m == left)
      && (left.Yields? && !right.Yields? && op != Land && op != Lor ==> m == right)
  {
  }

  /** "?:" evaluates the test and one of its branches. */
  lemma ConditionalLaws(c: Phrase, y: Phrase, z: Phrase, n: Word)
    requires Grammatical(Conditional(c, y, z))
    ensures
      var m, test := Meaning(Conditional(c, y, z), n), Meaning(c, n);
      && (!test.Yields? ==> m == test)
      && (test == Yields(0) ==> m == Meaning(z, n))
      && (test.Yields? && test.value > 0 ==> m == Meaning(y, n))
  {
  }

  /** The operands, "!", and parentheses, which mean nothing. */
  lemma SimpleLaws(k: Word, q: Phrase, n: Word)
    requires Grammatical(Not(q))
    ensures Meaning(Number(k), n) == Yields(k) && Meaning(Variable, n) == Yields(n)
    ensures Meaning(Paren(q), n) == Meaning(q, n)
    ensures
      var m, arg := Meaning(Not(q), n), Meaning(q, n);
      && (!arg.Yields? ==> m == arg)
      && (arg.Yields? ==> m == Yields(if arg.value == 0 then 1 else 0))
  {
  }

  /** The binding strength of an operator in the grammar, weakest first, is that of C. */
  function Strength(op: Operation): int
    requires IsBinary(op)
  {
    match op
    case Lor => 1
    case Land => 2
    case Equal => 3
    case NotEqual => 3
    case LessThan => 4
    case GreaterThan => 4
    case LessOrEqual => 4
    case GreaterOrEqual => 4
    case Plus => 5
    case Minus => 5
    case Mult => 6
    case Divide => 6
    case Module => 6
  }

  /**
   * Without parentheses an operation may be the left operand of another one if it does not bind weaker, and the right
   * operand if it binds tighter; "!" takes no operation for its operand, and "?:" no other "?:" for its test.
   */
  lemma PrecedenceIsThatOfC(op: Operation, inner: Operation, a: Phrase, b: Phrase, c: Phrase)
    requires IsBinary(op) && IsBinary(inner) && Grammatical(Binary(inner, a, b)) && Grammatical(c) && Level(c) >= NOT
    ensures Grammatical(Binary(op, Binary(inner, a, b), c)) <==> Strength(op) <= Strength(inner)
    ensures Grammatical(Binary(op, c, Binary(inner, a, b))) <==> Strength(op) < Strength(inner)
    ensures !Grammatical(Not(Binary(inner, a, b))) && Grammatical(Not(Paren(Binary(inner, a, b))))
    ensures Grammatical(Conditional(Binary(inner, a, b), c, c)) && Grammatical(Conditional(c, c, Conditional(c, c, c)))
    ensures !Grammatical(Conditional(Conditional(c, c, c), c, c)) && !Grammatical(Binary(op, c, Conditional(c, c, c)))
  {
  }
}
