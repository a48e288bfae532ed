/** Evaluating plural expressions on machine words, and choosing a variant of a message by the result. */
module PluralEval {
  import opened Options
  import opened CStrings
  import opened PluralGrammar
  import opened PluralAutomaton
  import opened PluralParsing
  import opened PluralLexer
  import opened PluralParser

  /** NotReached is the fall-through at the end of plural_eval, DivisionByZero the place where it raises SIGFPE. */
  datatype Evaluation = Yields(value: Word) | DivisionByZero | NotReached

  function Truth(b: bool): Word {
    if b then 1 else 0
  }

  /** What the switch over the strict binary operators computes. */
  function Compute(op: Operation, left: Word, right: Word): Evaluation {
    match op
    case Mult => Yields(left * right % WORD_LIMIT)
    case Divide => if right == 0 then DivisionByZero else Yields(left / right)
    case Module => if right == 0 then DivisionByZero else Yields(left % right)
    case Plus => Yields((left + right) % WORD_LIMIT)
    case Minus => Yields((left - right) % WORD_LIMIT)
    case LessThan => Yields(Truth(left < right))
    case GreaterThan => Yields(Truth(left > right))
    case LessOrEqual => Yields(Truth(left <= right))
    case GreaterOrEqual => Yields(Truth(left >= right))
    case Equal => Yields(Truth(left == right))
    case NotEqual => Yields(Truth(left != right))
    case _ => NotReached
  }

  /** Every node has as many arguments as it says; its operator may be any. */
  predicate Shaped(e: Expression) {
    |e.args| == e.nargs && forall i :: 0 <= i < |e.args| ==> Shaped(e.args[i])
  }

  /** plural_eval: by the number of arguments first, by the operator second. */
  function Eval(e: Expression, n: Word): Evaluation
    requires Shaped(e)
    decreases e
  {
    match e.nargs
    case 0 =>
      if e.operation == Var then Yields(n) else if e.operation == Num then Yields(e.num) else NotReached
    case 1 =>
      var arg := Eval(e.args[0], n);
      if arg.Yields? then Yields(Truth(arg.value == 0)) else arg
    case 2 =>
      var left := Eval(e.args[0], n);
      if !left.Yields? then left
      else if e.operation == Lor && left.value != 0 then Yields(1)
      else if e.operation == Land && left.value == 0 then Yields(0)
      else
        var right := Eval(e.args[1], n);
        if !right.Yields? then right
        else if e.operation == Lor || e.operation == Land then Yields(Truth(right.value != 0))
        else Compute(e.operation, left.value, right.value)
    case 3 =>
      var test := Eval(e.args[0], n);
      if !test.Yields? then test else Eval(e.args[if test.value != 0 then 1 else 2], n)
    case _ => NotReached
  }

  lemma {:induction false} WellFormedIsShaped(e: Expression)
    requires WellFormed(e)
    ensures Shaped(e)
    decreases e
  {
    forall i | 0 <= i < |e.args|
      ensures Shaped(e.args[i])
    {
      WellFormedIsShaped(e.args[i]);
    }
  }

  /**
   * What a phrase means for a number n, read off its syntax: words wrap around, comparisons give 0 or 1, and
   * "&&", "||" and "?:" look only at the operands they need.
   */
  function Meaning(p: Phrase, n: Word): Evaluation
    requires Grammatical(p)
  {
    match p
    case Number(k) => Yields(k)
    case Variable => Yields(n)
    case Paren(q) => Meaning(q, n)
    case Not(q) => Negate(Meaning(q, n))
    case Binary(op, l, r) => Combine(op, Meaning(l, n), Meaning(r, n))
    case Conditional(c, y, z) => Choose(Meaning(c, n), Meaning(y, n), Meaning(z, n))
  }

  function Negate(e: Evaluation): Evaluation {
    if e.Yields? then Yields(Truth(e.value == 0)) else e
  }

  /** A trouble on the right of "||" and "&&" only matters if the left side leaves the answer open. */
  function Combine(op: Operation, left: Evaluation, right: Evaluation): Evaluation {
    if !left.Yields? then left
    else if op.Lor? && left.value != 0 then Yields(1)
    else if op.Land? && left.value == 0 then Yields(0)
    else if !right.Yields? then right
    else if op.Lor? || op.Land? then Yields(Truth(right.value != 0))
    else Compute(op, left.value, right.value)
  }

  function Choose(test: Evaluation, yes: Evaluation, no: Evaluation): Evaluation {
    if !test.Yields? then test else if test.value != 0 then yes else no
  }

  lemma EvalNot(q: Expression, n: Word)
    requires Shaped(q)
    ensures Shaped(NewExp1(Lnot, q)) && Eval(NewExp1(Lnot, q), n) == Negate(Eval(q, n))
  {
    assert NewExp1(Lnot, q).args[0] == q;
  }

  lemma EvalBinary(op: Operation, l: Expression, r: Expression, n: Word)
    requires Shaped(l) && Shaped(r)
    ensures Shaped(NewExp2(op, l, r)) && Eval(NewExp2(op, l, r), n) == Combine(op, Eval(l, n), Eval(r, n))
  {
    var e := NewExp2(op, l, r);
    assert e.args[0] == l && e.args[1] == r;
  }

  lemma EvalConditional(c: Expression, y: Expression, z: Expression, n: Word)
    requires Shaped(c) && Shaped(y) && Shaped(z)
    ensures Shaped(NewExp3(Qmop, c, y, z))
    ensures Eval(NewExp3(Qmop, c, y, z), n) == Choose(Eval(c, n), Eval(y, n), Eval(z, n))
  {
    var e := NewExp3(Qmop, c, y, z);
    assert e.args[0] == c && e.args[1] == y && e.args[2] == z;
  }

  /** plural_eval gives every tree the parser builds the meaning of the phrase it was built from. */
  lemma {:induction false} EvalMeans(p: Phrase, n: Word)
    requires Grammatical(p)
    ensures Shaped(Tree(p)) && Eval(Tree(p), n) == Meaning(p, n)
  {
    match p
    case Number(_) =>
    case Variable =>
    case Paren(q) => EvalMeans(q, n);
    case Not(q) =>
      EvalMeans(q, n);
      EvalNot(Tree(q), n);
    case Binary(op, l, r) =>
      EvalMeans(l, n);
      EvalMeans(r, n);
      EvalBinary(op, Tree(l), Tree(r), n);
    case Conditional(c, y, z) =>
      EvalMeans(c, n);
      EvalMeans(y, n);
      EvalMeans(z, n);
      EvalConditional(Tree(c), Tree(y), Tree(z), n);
  }

  lemma {:induction false} MeaningIsReached(p: Phrase, n: Word)
    requires Grammatical(p)
    ensures !Meaning(p, n).NotReached?
  {
    match p
    case Number(_) =>
    case Variable =>
    case Paren(q) => MeaningIsReached(q, n);
    case Not(q) => MeaningIsReached(q, n);
    case Binary(op, l, r) =>
      MeaningIsReached(l, n);
      MeaningIsReached(r, n);
    case Conditional(c, y, z) =>
      MeaningIsReached(c, n);
      MeaningIsReached(y, n);
      MeaningIsReached(z, n);
  }

  /** Every expression tree evaluates without reaching the end of plural_eval. */
  lemma WellFormedEvaluates(e: Expression, n: Word)
    requires WellFormed(e)
    ensures Shaped(e) && !Eval(e, n).NotReached?
  {
    WriteIsGrammatical(e);
    EvalMeans(Write(e), n);
    MeaningIsReached(Write(e), n);
  }

  /** The constant used when a catalogue says nothing usable. */
  const GERMANIC_PLURAL := NewExp2(NotEqual, NewExp0(Var), NewNumber(1))

  lemma GermanicPlural(n: Word)
    ensures WellFormed(GERMANIC_PLURAL) && Shaped(GERMANIC_PLURAL)
    ensures Eval(GERMANIC_PLURAL, n) == Yields(if n == 1 then 0 else 1)
  {
    WellFormedIsShaped(GERMANIC_PLURAL);
  }

  predicate OccursAt(s: string, pattern: string, i: nat) {
    i + |pattern| <= |s| && s[i..i + |pattern|] == pattern
  }

  /** strstr: the first place a pattern occurs at. */
  function Find(s: string, pattern: string, from: nat): (r: Option<nat>)
    requires from <= |s|
    ensures r.Some? ==> from <= r.value && OccursAt(s, pattern, r.value)
    ensures r.Some? ==> forall i :: from <= i < r.value ==> !OccursAt(s, pattern, i)
    ensures r == Option.None ==> forall i :: from <= i ==> !OccursAt(s, pattern, i)
    decreases |s| - from
  {
    if OccursAt(s, pattern, from) then Some(from)
    else if from == |s| then Option.None
    else Find(s, pattern, from + 1)
  }

  predicate Space(c: char) {
    c == ' ' || '\t' <= c <= '\r'
  }

  function SkipSpaces(s: string): string {
    if s != "" && Space(s[0]) then SkipSpaces(s[1..]) else s
  }

  function Min(x: nat, y: nat): nat {
    if x < y then x else y
  }

  /** strtoul on a text that starts with a digit: the largest word stands for everything that does not fit. */
  function Strtoul(s: string): Word {
    Min(Decimal(s[..DigitRun(s)]), WORD_LIMIT - 1)
  }

  datatype Announcement = Announcement(phrase: Phrase, nplurals: Word)

  /** What the texts behind "nplurals=" and "plural=" announce, if both are in order. */
  function Announcing(count: string, text: string): Option<Announcement> {
    if !Digit(At(count, 0)) then Option.None
    else
      match Parse(Tokens(text))
      case Accepted(p) => Some(Announcement(p, Strtoul(count)))
      case _ => Option.None
  }

  /** What a header announces. */
  function Announced(header: string): Option<Announcement> {
    var i, j := Find(header, "plural=", 0), Find(header, "nplurals=", 0);
    if i == Option.None || j == Option.None then Option.None
    else Announcing(SkipSpaces(header[j.value + 9..]), header[i.value + 7..])
  }

  /** The result for an announcement: what it announces, or the default. */
  predicate Follows(a: Option<Announcement>, plural: Expression, nplurals: Word) {
    match a
    case Some(x) => Grammatical(x.phrase) && plural == Tree(x.phrase) && nplurals == x.nplurals
    case None => plural == GERMANIC_PLURAL && nplurals == 2
  }

  /** The loop over white space in front of the number of variants. */
  method SkipSpace(header: string, start: nat) returns (np: nat)
    requires start <= |header|
    ensures start <= np <= |header| && header[np..] == SkipSpaces(header[start..])
  {
    np := start;
    while At(header, np) != '\0' && Space(At(header, np))
      invariant start <= np <= |header| && SkipSpaces(header[np..]) == SkipSpaces(header[start..])
      decreases |header| - np
    {
      assert header[np..][1..] == header[np + 1..];
      np := np + 1;
    }
  }

  /** The number at np and the expression at start, if both are there. */
  method ParseHeader(header: string, np: nat, start: nat) returns (plural: Expression, nplurals: Word)
    requires np <= |header| && start <= |header|
    ensures Follows(Announcing(header[np..], header[start..]), plural, nplurals)
  {
    plural, nplurals := GERMANIC_PLURAL, 2;
    assert At(header, np) == At(header[np..], 0);
    if !('0' <= At(header, np) <= '9') {
      return;
    }
    var result, res := Yyparse(header[start..]);
    if result == 0 {
      plural, nplurals := res.value, Strtoul(header[np..]);
    }
  }

  /** EXTRACT_PLURAL_EXPRESSION: the expression and the number of variants a header announces, or the default. */
  method ExtractPluralExpression(nullentry: Option<string>) returns (plural: Expression, nplurals: Word)
    ensures WellFormed(plural)
    ensures Follows(if nullentry.Some? then Announced(nullentry.value) else Option.None, plural, nplurals)
  {
    plural, nplurals := GERMANIC_PLURAL, 2;
    if nullentry.Some? {
      var header := nullentry.value;
      var pluralAt, npluralsAt := Find(header, "plural=", 0), Find(header, "nplurals=", 0);
      if pluralAt != Option.None && npluralsAt != Option.None {
        var np := SkipSpace(header, npluralsAt.value + 9);
        plural, nplurals := ParseHeader(header, np, pluralAt.value + 7);
      }
    }
    FollowingIsWellFormed(if nullentry.Some? then Announced(nullentry.value) else Option.None, plural, nplurals);
  }

  lemma FollowingIsWellFormed(a: Option<Announcement>, plural: Expression, nplurals: Word)
    requires Follows(a, plural, nplurals)
    ensures WellFormed(plural)
  {
    GermanicPlural(1);
  }
}
