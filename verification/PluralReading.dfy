/**
 * The automaton reads everything the grammar derives: from any state in which an expression may begin, a run
 * takes in a phrase and ends up with it on the stack, unless the phrase needs more room than the stack has.
 */
module PluralReading {
  import opened PluralTables
  import opened PluralGrammar
  import opened PluralAutomaton
  import opened PluralParsing

  ghost predicate ComesTo(lim: nat, c: Config, tokens: seq<Token>, o: Outcome) {
    c.pos <= |tokens| && Run(lim, c, tokens) == o
  }

  /** From c the run comes to what it comes to from d; or, where d cannot be reached, it exhausts the stack. */
  ghost predicate Leads(lim: nat, c: Config, reached: bool, d: Config, tokens: seq<Token>) {
    if reached then forall o :: ComesTo(lim, d, tokens, o) ==> ComesTo(lim, c, tokens, o)
    else forall o :: ComesTo(lim, c, tokens, o) <==> o == Exhausted
  }

  lemma Compose(lim: nat, c: Config, r1: bool, d: Config, r2: bool, e: Config, tokens: seq<Token>)
    requires Leads(lim, c, r1, d, tokens) && Leads(lim, d, r2, e, tokens)
    ensures Leads(lim, c, r1 && r2, e, tokens)
  {
    if r1 && !r2 {
      assert ComesTo(lim, d, tokens, Exhausted);
      assert ComesTo(lim, c, tokens, Exhausted);
    }
  }

  lemma ShiftLeads(lim: nat, c: Config, tokens: seq<Token>, n: State)
    requires c.pos < |tokens| && Top(c.stack) != FINAL && Decision(c, tokens) == Shift(n)
    ensures Leads(lim, c, true, AfterShift(c, tokens, n), tokens)
    ensures Height(AfterShift(c, tokens, n).stack) == Height(c.stack) + 1
  {
    assert Run(lim, c, tokens) == Run(lim, AfterShift(c, tokens, n), tokens);
  }

  lemma ReduceLeads(lim: nat, c: Config, tokens: seq<Token>, rule: int, rest: Stack, p: Phrase)
    requires c.pos < |tokens| && Top(c.stack) != FINAL && Decision(c, tokens) == Reduce(rule) && rule != 2
    requires Handle(c.stack, rule) && Build(c.stack, rule) == Exp(p) && Rest(c.stack, rule) == rest
    ensures Leads(lim, c, Height(c.stack) < lim, Config(PushExp(rest, p), c.pos), tokens)
  {
    assert AfterReduce(c, rule) == Config(PushExp(rest, p), c.pos);
    if Height(c.stack) < lim {
      assert Run(lim, c, tokens) == Run(lim, Config(PushExp(rest, p), c.pos), tokens);
    } else {
      assert Run(lim, c, tokens) == Exhausted;
    }
  }

  /** An operator that binds tightly enough behind an expression is shifted. */
  lemma OperatorActs(s: State, k: Kind)
    requires Starter(s) && Operator(k) && MinLevel(s) <= k
    ensures Act(ExpState(s), k) == Shift(k + 7)
  {
  }

  /** Behind a right operand its operator is reduced, unless a tighter one follows. */
  lemma OperandActs(k: Kind, next: Kind)
    requires Operator(k) && k != QUESTION && !(Operator(next) && k < next)
    ensures Act(ExpState(k + 7), next) == Reduce(k)
  {
  }

  function PushToken(s: Stack, n: State, t: Token): Stack {
    Push(s, n, Terminal(t))
  }

  /** The stack is low enough for d more entries. */
  predicate Fits(lim: nat, s: Stack, d: nat) {
    Height(s) + d < lim
  }

  /** "!" is shifted, its operand read up to j, and the two reduced. */
  lemma AroundNot(lim: nat, s: Stack, q: Phrase, d: nat, tokens: seq<Token>, i: nat, j: nat)
    requires Starter(Top(s)) && i < |tokens| && j < |tokens| && tokens[i] == Token(NOT, None) && d > 0
    requires
      var s1 := PushToken(s, 1, tokens[i]);
      Leads(lim, Config(s1, i + 1), Fits(lim, s1, d), Config(PushExp(s1, q), j), tokens)
    ensures Leads(lim, Config(s, i), Fits(lim, s, 1 + d), Config(PushExp(s, Not(q)), j), tokens)
  {
    var s1 := PushToken(s, 1, tokens[i]);
    var c, c1, c2 := Config(s, i), Config(s1, i + 1), Config(PushExp(s1, q), j);
    ShiftLeads(lim, c, tokens, 1);
    Compose(lim, c, true, c1, Fits(lim, s1, d), c2, tokens);
    ReduceLeads(lim, c2, tokens, 10, s, Not(q));
    Compose(lim, c, Fits(lim, s1, d), c2, Height(c2.stack) < lim, Config(PushExp(s, Not(q)), j), tokens);
  }

  /** "(" is shifted, what is inside is read up to j, ")" is shifted, and the three are reduced. */
  lemma AroundParen(lim: nat, s: Stack, q: Phrase, d: nat, tokens: seq<Token>, i: nat, j: nat)
    requires Starter(Top(s)) && i < |tokens| && tokens[i] == Token(OPEN, None) && d > 0
    requires j + 1 < |tokens| && tokens[j] == Token(CLOSE, None)
    requires
      var s1 := PushToken(s, 4, tokens[i]);
      Leads(lim, Config(s1, i + 1), Fits(lim, s1, d), Config(PushExp(s1, q), j), tokens)
    ensures Leads(lim, Config(s, i), Fits(lim, s, Max(1 + d, 3)), Config(PushExp(s, Paren(q)), j + 1), tokens)
  {
    var s1 := PushToken(s, 4, tokens[i]);
    var c, c1, c2 := Config(s, i), Config(s1, i + 1), Config(PushExp(s1, q), j);
    ShiftLeads(lim, c, tokens, 4);
    Compose(lim, c, true, c1, Fits(lim, s1, d), c2, tokens);
    ShiftLeads(lim, c2, tokens, 17);
    var c3 := AfterShift(c2, tokens, 17);
    Compose(lim, c, Fits(lim, s1, d), c2, true, c3, tokens);
    ReduceLeads(lim, c3, tokens, 13, s, Paren(q));
    Compose(lim, c, Fits(lim, s1, d), c3, Height(c3.stack) < lim, Config(PushExp(s, Paren(q)), j + 1), tokens);
  }

  /** An operator at i is shifted, its right operand read up to j, and the three entries reduced. */
  lemma AroundRight(lim: nat, s: Stack, l: Phrase, op: Operation, r: Phrase, d: nat, tokens: seq<Token>, i: nat, j: nat)
    requires Starter(Top(s)) && IsBinary(op) && MinLevel(Top(s)) <= KindOf(op) && d > 0
    requires i < |tokens| && tokens[i] == OpToken(op)
    requires j < |tokens| && !(Operator(tokens[j].kind) && KindOf(op) < tokens[j].kind)
    requires
      var s2 := PushToken(PushExp(s, l), KindOf(op) + 7, tokens[i]);
      Leads(lim, Config(s2, i + 1), Fits(lim, s2, d), Config(PushExp(s2, r), j), tokens)
    ensures Leads(lim, Config(PushExp(s, l), i), Fits(lim, s, 2 + d), Config(PushExp(s, Binary(op, l, r)), j), tokens)
  {
    var n: State := KindOf(op) + 7;
    var s2 := PushToken(PushExp(s, l), n, tokens[i]);
    var c1, c2, c3 := Config(PushExp(s, l), i), Config(s2, i + 1), Config(PushExp(s2, r), j);
    OperatorActs(Top(s), n - 7);
    ShiftLeads(lim, c1, tokens, n);
    Compose(lim, c1, true, c2, Fits(lim, s2, d), c3, tokens);
    OperandActs(n - 7, tokens[j].kind);
    ReduceLeads(lim, c3, tokens, n - 7, s, Binary(op, l, r));
    Compose(lim, c1, Fits(lim, s2, d), c3, Height(c3.stack) < lim, Config(PushExp(s, Binary(op, l, r)), j), tokens);
  }

  /** A "?" at i is shifted and the first branch read up to j. */
  lemma AroundYes(lim: nat, s: Stack, t: Phrase, y: Phrase, d: nat, tokens: seq<Token>, i: nat, j: nat)
    requires Starter(Top(s)) && MinLevel(Top(s)) <= QUESTION && d > 0
    requires i < |tokens| && tokens[i] == Token(QUESTION, None)
    requires
      var s2 := PushToken(PushExp(s, t), 10, tokens[i]);
      Leads(lim, Config(s2, i + 1), Fits(lim, s2, d), Config(PushExp(s2, y), j), tokens)
    ensures
      var s2 := PushToken(PushExp(s, t), 10, tokens[i]);
      Leads(lim, Config(PushExp(s, t), i), Fits(lim, s, 2 + d), Config(PushExp(s2, y), j), tokens)
  {
    var s2 := PushToken(PushExp(s, t), 10, tokens[i]);
    var c1, c2 := Config(PushExp(s, t), i), Config(s2, i + 1);
    OperatorActs(Top(s), QUESTION);
    ShiftLeads(lim, c1, tokens, 10);
    Compose(lim, c1, true, c2, Fits(lim, s2, d), Config(PushExp(s2, y), j), tokens);
  }

  /** A ":" at i is shifted, the second branch read up to j, and the five entries reduced. */
  lemma AroundNo(
      lim: nat, s: Stack, t: Phrase, y: Phrase, n: Phrase, d: nat, tokens: seq<Token>, q: Token, i: nat, j: nat)
    requires Starter(Top(s)) && d > 0
    requires i < |tokens| && tokens[i] == Token(COLON, None) && j < |tokens| && !Operator(tokens[j].kind)
    requires
      var s4 := PushToken(PushExp(PushToken(PushExp(s, t), 10, q), y), 25, tokens[i]);
      Leads(lim, Config(s4, i + 1), Fits(lim, s4, d), Config(PushExp(s4, n), j), tokens)
    ensures Leads(lim, Config(PushExp(PushToken(PushExp(s, t), 10, q), y), i), Fits(lim, s, 4 + d),
      Config(PushExp(s, Conditional(t, y, n)), j), tokens)
  {
    var s3 := PushExp(PushToken(PushExp(s, t), 10, q), y);
    var s4 := PushToken(s3, 25, tokens[i]);
    assert Height(s3.below) == Height(s) + 2;
    var c3, c4, c5 := Config(s3, i), Config(s4, i + 1), Config(PushExp(s4, n), j);
    ShiftLeads(lim, c3, tokens, 25);
    Compose(lim, c3, true, c4, Fits(lim, s4, d), c5, tokens);
    ReduceLeads(lim, c5, tokens, 3, s, Conditional(t, y, n));
    Compose(lim, c3, Fits(lim, s4, d), c5, Height(c5.stack) < lim, Config(PushExp(s, Conditional(t, y, n)), j), tokens);
  }

  /** The grammar allows p in state n. */
  predicate Suits(n: State, p: Phrase) {
    Starter(n) && Grammatical(p) && MinLevel(n) <= Level(p)
  }

  /** The tokens from i to j are those of p, and the one behind them leaves p alone. */
  predicate Spelt(tokens: seq<Token>, i: nat, j: nat, p: Phrase) {
    Grammatical(p) && i <= j < |tokens| && tokens[i..j] == Yield(p) && Closed(p, tokens[j].kind)
  }

  lemma SplitAt(tokens: seq<Token>, i: nat, j: nat, a: seq<Token>, t: Token, b: seq<Token>) returns (k: nat)
    requires i <= j <= |tokens| && tokens[i..j] == a + [t] + b
    ensures i <= k < j && tokens[i..k] == a && tokens[k] == t && tokens[k + 1..j] == b
  {
    k := i + |a|;
    var whole := tokens[i..j];
    assert |whole| == |a| + 1 + |b|;
    assert whole[..|a|] == a && whole[|a|] == t && whole[|a| + 1..] == b;
    assert tokens[i..k] == whole[..|a|] && tokens[k + 1..j] == whole[|a| + 1..];
  }

  lemma SpeltNot(tokens: seq<Token>, i: nat, j: nat, p: Phrase)
    requires Spelt(tokens, i, j, p) && p.Not?
    ensures tokens[i] == Token(NOT, None) && Spelt(tokens, i + 1, j, p.arg)
  {
    assert Yield(p) == [] + [Token(NOT, None)] + Yield(p.arg);
    var k := SplitAt(tokens, i, j, [], Token(NOT, None), Yield(p.arg));
  }

  lemma SpeltParen(tokens: seq<Token>, i: nat, j: nat, p: Phrase)
    requires Spelt(tokens, i, j, p) && p.Paren?
    ensures i + 1 < j && tokens[i] == Token(OPEN, None) && tokens[j - 1] == Token(CLOSE, None)
    ensures Spelt(tokens, i + 1, j - 1, p.inner)
  {
    var y := Yield(p.inner);
    assert Yield(p) == [Token(OPEN, None)] + y + [Token(CLOSE, None)] + [];
    var k := SplitAt(tokens, i, j, [Token(OPEN, None)] + y, Token(CLOSE, None), []);
    assert [Token(OPEN, None)] + y == [] + [Token(OPEN, None)] + y;
    var m := SplitAt(tokens, i, k, [], Token(OPEN, None), y);
  }

  lemma SpeltBinary(tokens: seq<Token>, i: nat, j: nat, p: Phrase) returns (k: nat)
    requires Spelt(tokens, i, j, p) && p.Binary?
    ensures i <= k < j && Spelt(tokens, i, k, p.left) && tokens[k] == OpToken(p.op)
    ensures Spelt(tokens, k + 1, j, p.right)
    ensures !(Operator(tokens[j].kind) && KindOf(p.op) < tokens[j].kind)
  {
    k := SplitAt(tokens, i, j, Yield(p.left), OpToken(p.op), Yield(p.right));
  }

  lemma SpeltConditional(tokens: seq<Token>, i: nat, j: nat, p: Phrase) returns (k: nat, m: nat)
    requires Spelt(tokens, i, j, p) && p.Conditional?
    ensures i <= k < m < j && Spelt(tokens, i, k, p.test) && tokens[k] == Token(QUESTION, None)
    ensures Spelt(tokens, k + 1, m, p.yes) && tokens[m] == Token(COLON, None) && Spelt(tokens, m + 1, j, p.no)
    ensures !Operator(tokens[j].kind)
  {
    var head := Yield(p.test) + [Token(QUESTION, None)] + Yield(p.yes);
    m := SplitAt(tokens, i, j, head, Token(COLON, None), Yield(p.no));
    k := SplitAt(tokens, i, m, Yield(p.test), Token(QUESTION, None), Yield(p.yes));
  }

  lemma LevelBound(p: Phrase)
    ensures QUESTION <= Level(p) <= NUMBER
  {
  }

  /** The run from stack s and place i reads p up to j. */
  ghost predicate Reads(lim: nat, s: Stack, i: nat, j: nat, p: Phrase, tokens: seq<Token>)
    requires Starter(Top(s))
  {
    Leads(lim, Config(s, i), Fits(lim, s, Depth(p)), Config(PushExp(s, p), j), tokens)
  }

  lemma ReadsAtom(lim: nat, s: Stack, i: nat, j: nat, p: Phrase, tokens: seq<Token>)
    requires Suits(Top(s), p) && Spelt(tokens, i, j, p) && (p.Number? || p.Variable?)
    ensures Reads(lim, s, i, j, p, tokens)
  {
    var n := if p.Number? then 2 else 3;
    assert tokens[i..j][0] == Yield(p)[0];
    ShiftLeads(lim, Config(s, i), tokens, n);
    var c1 := AfterShift(Config(s, i), tokens, n);
    ReduceLeads(lim, c1, tokens, if p.Number? then 12 else 11, s, p);
    Compose(lim, Config(s, i), true, c1, Height(c1.stack) < lim, Config(PushExp(s, p), j), tokens);
  }

  lemma ReadsNot(lim: nat, s: Stack, i: nat, j: nat, p: Phrase, tokens: seq<Token>)
    requires Suits(Top(s), p) && Spelt(tokens, i, j, p) && p.Not?
    ensures Reads(lim, s, i, j, p, tokens)
    decreases p, 0
  {
    SpeltNot(tokens, i, j, p);
    ReadsPhrase(lim, PushToken(s, 1, tokens[i]), i + 1, j, p.arg, tokens);
    AroundNot(lim, s, p.arg, Depth(p.arg), tokens, i, j);
  }

  lemma ReadsParen(lim: nat, s: Stack, i: nat, j: nat, p: Phrase, tokens: seq<Token>)
    requires Suits(Top(s), p) && Spelt(tokens, i, j, p) && p.Paren?
    ensures Reads(lim, s, i, j, p, tokens)
    decreases p, 0
  {
    SpeltParen(tokens, i, j, p);
    LevelBound(p.inner);
    ReadsPhrase(lim, PushToken(s, 4, tokens[i]), i + 1, j - 1, p.inner, tokens);
    AroundParen(lim, s, p.inner, Depth(p.inner), tokens, i, j - 1);
  }

  lemma ReadsRight(
      lim: nat, s: Stack, l: Phrase, op: Operation, r: Phrase, tokens: seq<Token>, k: nat, j: nat)
    requires Starter(Top(s)) && IsBinary(op) && MinLevel(Top(s)) <= KindOf(op) < Level(r)
    requires k < |tokens| && tokens[k] == OpToken(op) && Spelt(tokens, k + 1, j, r)
    requires !(Operator(tokens[j].kind) && KindOf(op) < tokens[j].kind)
    ensures Leads(lim, Config(PushExp(s, l), k), Fits(lim, s, 2 + Depth(r)),
      Config(PushExp(s, Binary(op, l, r)), j), tokens)
    decreases r, 2
  {
    ReadsPhrase(lim, PushToken(PushExp(s, l), KindOf(op) + 7, tokens[k]), k + 1, j, r, tokens);
    AroundRight(lim, s, l, op, r, Depth(r), tokens, k, j);
  }

  lemma ReadsBinary(lim: nat, s: Stack, i: nat, j: nat, p: Phrase, tokens: seq<Token>)
    requires Suits(Top(s), p) && Spelt(tokens, i, j, p) && p.Binary?
    ensures Reads(lim, s, i, j, p, tokens)
    decreases p, 0
  {
    var l, r := p.left, p.right;
    var k := SpeltBinary(tokens, i, j, p);
    ReadsPhrase(lim, s, i, k, l, tokens);
    ReadsRight(lim, s, l, p.op, r, tokens, k, j);
    Compose(lim, Config(s, i), Fits(lim, s, Depth(l)), Config(PushExp(s, l), k), Fits(lim, s, 2 + Depth(r)),
      Config(PushExp(s, p), j), tokens);
  }

  lemma ReadsYes(lim: nat, s: Stack, t: Phrase, y: Phrase, tokens: seq<Token>, k: nat, m: nat)
    requires Starter(Top(s)) && MinLevel(Top(s)) <= QUESTION
    requires k < |tokens| && tokens[k] == Token(QUESTION, None) && Spelt(tokens, k + 1, m, y)
    ensures
      var s3 := PushExp(PushToken(PushExp(s, t), 10, tokens[k]), y);
      Leads(lim, Config(PushExp(s, t), k), Fits(lim, s, 2 + Depth(y)), Config(s3, m), tokens)
    decreases y, 2
  {
    LevelBound(y);
    ReadsPhrase(lim, PushToken(PushExp(s, t), 10, tokens[k]), k + 1, m, y, tokens);
    AroundYes(lim, s, t, y, Depth(y), tokens, k, m);
  }

  lemma ReadsNo(lim: nat, s: Stack, t: Phrase, y: Phrase, n: Phrase, q: Token, tokens: seq<Token>, m: nat, j: nat)
    requires Starter(Top(s)) && m < |tokens| && tokens[m] == Token(COLON, None)
    requires Spelt(tokens, m + 1, j, n) && !Operator(tokens[j].kind)
    ensures Leads(lim, Config(PushExp(PushToken(PushExp(s, t), 10, q), y), m), Fits(lim, s, 4 + Depth(n)),
      Config(PushExp(s, Conditional(t, y, n)), j), tokens)
    decreases n, 2
  {
    LevelBound(n);
    ReadsPhrase(lim, PushToken(PushExp(PushToken(PushExp(s, t), 10, q), y), 25, tokens[m]), m + 1, j, n, tokens);
    AroundNo(lim, s, t, y, n, Depth(n), tokens, q, m, j);
  }

  lemma ReadsConditional(lim: nat, s: Stack, i: nat, j: nat, p: Phrase, tokens: seq<Token>)
    requires Suits(Top(s), p) && Spelt(tokens, i, j, p) && p.Conditional?
    ensures Reads(lim, s, i, j, p, tokens)
    decreases p, 0
  {
    var t, y, n := p.test, p.yes, p.no;
    var k, m := SpeltConditional(tokens, i, j, p);
    ReadsPhrase(lim, s, i, k, t, tokens);
    ReadsYes(lim, s, t, y, tokens, k, m);
    var s3 := PushExp(PushToken(PushExp(s, t), 10, tokens[k]), y);
    Compose(lim, Config(s, i), Fits(lim, s, Depth(t)), Config(PushExp(s, t), k), Fits(lim, s, 2 + Depth(y)),
      Config(s3, m), tokens);
    ReadsNo(lim, s, t, y, n, tokens[k], tokens, m, j);
    Compose(lim, Config(s, i), Fits(lim, s, Depth(t)) && Fits(lim, s, 2 + Depth(y)), Config(s3, m),
      Fits(lim, s, 4 + Depth(n)),
      Config(PushExp(s, p), j), tokens);
  }

  /** A run that has an expression to read reads it. */
  lemma {:induction false} ReadsPhrase(lim: nat, s: Stack, i: nat, j: nat, p: Phrase, tokens: seq<Token>)
    requires Suits(Top(s), p) && Spelt(tokens, i, j, p)
    ensures Reads(lim, s, i, j, p, tokens)
    decreases p, 1
  {
    match p
    case Not(_) => ReadsNot(lim, s, i, j, p, tokens);
    case Paren(_) => ReadsParen(lim, s, i, j, p, tokens);
    case Binary(_, _, _) => ReadsBinary(lim, s, i, j, p, tokens);
    case Conditional(_, _, _) => ReadsConditional(lim, s, i, j, p, tokens);
    case _ => ReadsAtom(lim, s, i, j, p, tokens);
  }

  /** Whatever the limit, a phrase the grammar derives is accepted, unless it needs the full depth of the stack. */
  lemma ParseIsComplete(lim: nat, p: Phrase)
    requires Grammatical(p) && lim > 3
    ensures ParseWithin(lim, Yield(p) + [END_TOKEN]) == if 1 + Depth(p) < lim then Accepted(p) else Exhausted
  {
    var tokens := Yield(p) + [END_TOKEN];
    var n := |Yield(p)|;
    assert tokens[0..n] == Yield(p) && tokens[n] == END_TOKEN;
    LevelBound(p);
    ReadsPhrase(lim, Bottom, 0, n, p, tokens);
    if 1 + Depth(p) < lim {
      AcceptsStart(lim, Config(PushExp(Bottom, p), n), p, tokens);
      assert ComesTo(lim, Config(PushExp(Bottom, p), n), tokens, Accepted(p));
      assert ComesTo(lim, Config(Bottom, 0), tokens, Accepted(p));
    } else {
      assert ComesTo(lim, Config(Bottom, 0), tokens, Exhausted);
    }
  }

  lemma AcceptsStart(lim: nat, c: Config, p: Phrase, tokens: seq<Token>)
    requires lim > 3 && c.stack == Push(Bottom, 6, Exp(p)) && c.pos == |tokens| - 1 && tokens[c.pos] == END_TOKEN
    ensures Run(lim, c, tokens) == Accepted(p)
  {
    var c1 := AfterReduce(c, 2);
    assert c1.stack == Push(Bottom, 5, Start(p));
    var c2 := AfterShift(c1, tokens, FINAL);
    assert Height(c1.stack) == 1 + Height(Bottom);
    assert Height(c2.stack) == 1 + Height(c1.stack);
    assert Run(lim, c, tokens) == Run(lim, c1, tokens) == Run(lim, c2, tokens);
  }

  /**
   * The parser accepts exactly the token lists the grammar derives by a phrase that fits its stack, and it
   * accepts them with that phrase.
   */
  lemma ParserDecidesGrammar(tokens: seq<Token>, p: Phrase)
    requires Tokenised(tokens)
    ensures Parse(tokens) == Accepted(p) <==>
      Grammatical(p) && tokens == Yield(p) + [END_TOKEN] && 1 + Depth(p) < MAX_DEPTH
  {
    ParseIsSound(MAX_DEPTH, tokens);
    if Grammatical(p) && tokens == Yield(p) + [END_TOKEN] {
      ParseIsComplete(MAX_DEPTH, p);
    }
  }

  /** No token list can be read in two ways, however deep: a stack that is high enough reads both. */
  lemma Unambiguous(p: Phrase, q: Phrase)
    requires Grammatical(p) && Grammatical(q) && Yield(p) == Yield(q)
    ensures p == q
  {
    ParseIsComplete(4 + Depth(p), p);
    ParseIsComplete(4 + Depth(p), q);
  }
}
