/**
 * The shift/reduce automaton of the plural-expression parser, run on a list of tokens.  The entries of its
 * stack carry the phrase they were built from, which the real parser forgets; its decisions use only the
 * tables, the state on top and the next token.
 */
module PluralAutomaton {
  import opened PluralTables
  import opened PluralGrammar

  /** Entries the parser's stack can be grown to before it gives up. */
  const MAX_DEPTH := 10000

  datatype Symbol = Terminal(token: Token) | Exp(phrase: Phrase) | Start(phrase: Phrase)

  datatype Stack = Bottom | Push(below: Stack, state: State, symbol: Symbol)

  /** Stuck would be an action that does not find what it expects on the stack; it never comes up. */
  datatype Outcome = Accepted(phrase: Phrase) | SyntaxError | Exhausted | Stuck

  function Top(s: Stack): State {
    if s.Push? then s.state else 0
  }

  function Height(s: Stack): (h: nat)
    ensures h > 0
  {
    if s.Push? then 1 + Height(s.below) else 1
  }

  /** The next operator, if it is one, does not take the phrase's right operand away from it. */
  predicate Closed(p: Phrase, k: Kind) {
    Operator(k) ==> k <= Level(p) && (k == QUESTION ==> k < Level(p))
  }

  /** How a terminal may stand on top of the stack. */
  predicate TerminalFits(s: Stack, state: State, t: Token) {
    && Lexical(t)
    && if t.kind == NOT then Starter(Top(s)) && state == 1
       else if t.kind == NUMBER then Starter(Top(s)) && state == 2
       else if t.kind == VARIABLE then Starter(Top(s)) && state == 3
       else if t.kind == OPEN then Starter(Top(s)) && state == 4
       else if t.kind == COLON then s.Push? && s.symbol.Exp? && s.state == 18 && state == 25
       else if t.kind == CLOSE then s.Push? && s.symbol.Exp? && s.state == 8 && state == 17
       else if t.kind == END then s.Push? && s.symbol.Start? && state == FINAL
       else
         && Operator(t.kind) && s.Push? && s.symbol.Exp? && Starter(Top(s.below))
         && MinLevel(Top(s.below)) <= t.kind && Closed(s.symbol.phrase, t.kind) && state == t.kind + 7
  }

  /** Every entry is one the grammar lets stand on the entry below it. */
  predicate Valid(s: Stack) {
    s.Push? ==>
      && Valid(s.below)
      && match s.symbol {
        case Terminal(t) => TerminalFits(s.below, s.state, t)
        case Exp(p) =>
          && Grammatical(p) && Starter(Top(s.below)) && s.state == ExpState(Top(s.below))
          && MinLevel(Top(s.below)) <= Level(p)
        case Start(p) => Grammatical(p) && s.below == Bottom && s.state == 5
      }
  }

  function SymbolYield(x: Symbol): seq<Token>
    requires !x.Terminal? ==> Grammatical(x.phrase)
  {
    if x.Terminal? then [x.token] else Yield(x.phrase)
  }

  /** The tokens a stack has taken in. */
  function Taken(s: Stack): seq<Token>
    requires Valid(s)
  {
    if s.Push? then Taken(s.below) + SymbolYield(s.symbol) else []
  }

  /** Room left for steps: terminals weigh most, a finished parse nothing. */
  function Weight(s: Stack): nat {
    if s.Bottom? then 0
    else Weight(s.below) + Heft(s.symbol)
  }

  function Heft(x: Symbol): nat {
    match x case Terminal(_) => 2 case Exp(_) => 1 case Start(_) => 0
  }

  lemma WeightUnfolds(s: Stack)
    requires s.Push?
    ensures Weight(s) == Weight(s.below) + Heft(s.symbol)
  {
  }

  /** The right-hand side of the rule is on top of a stack on which its left-hand side may stand. */
  predicate Handle(s: Stack, rule: int) {
    && s.Push?
    && match rule {
      case 2 => s.symbol.Exp? && s.below == Bottom
      case 3 =>
        && s.symbol.Exp? && s.below.Push? && s.below.below.Push? && s.below.below.symbol.Exp?
        && s.below.below.below.Push? && s.below.below.below.below.Push? && s.below.below.below.below.symbol.Exp?
        && Starter(Top(s.below.below.below.below.below))
      case 10 => s.symbol.Exp? && s.below.Push? && s.below.symbol.Terminal? && Starter(Top(s.below.below))
      case 11 => s.symbol.Terminal? && Starter(Top(s.below))
      case 12 => s.symbol.Terminal? && s.symbol.token.value.NumValue? && Starter(Top(s.below))
      case 13 =>
        && s.below.Push? && s.below.symbol.Exp? && s.below.below.Push? && s.below.below.symbol.Terminal?
        && Starter(Top(s.below.below.below))
      case _ =>
        && 4 <= rule <= 9 && s.symbol.Exp? && s.below.Push? && s.below.symbol.Terminal?
        && Lexical(s.below.symbol.token) && s.below.symbol.token.kind == rule
        && s.below.below.Push? && s.below.below.symbol.Exp? && Starter(Top(s.below.below.below))
    }
  }

  /** What is below the right-hand side of the rule. */
  function Rest(s: Stack, rule: int): Stack
    requires Handle(s, rule)
  {
    if rule == 3 then s.below.below.below.below.below
    else if rule == 10 then s.below.below
    else if rule == 13 || 4 <= rule <= 9 then s.below.below.below
    else s.below
  }

  /** The symbol a rule makes of its right-hand side. */
  function Build(s: Stack, rule: int): Symbol
    requires Handle(s, rule)
  {
    match rule
    case 2 => Start(s.symbol.phrase)
    case 3 =>
      Exp(Conditional(s.below.below.below.below.symbol.phrase, s.below.below.symbol.phrase, s.symbol.phrase))
    case 10 => Exp(Not(s.symbol.phrase))
    case 11 => Exp(Variable)
    case 12 => Exp(Number(s.symbol.token.value.num))
    case 13 => Exp(Paren(s.below.symbol.phrase))
    case _ => Exp(Binary(OperationOf(s.below.symbol.token), s.below.below.symbol.phrase, s.symbol.phrase))
  }

  /** A phrase on top of a stack on which an expression may begin. */
  function PushExp(rest: Stack, p: Phrase): Stack
    requires Starter(Top(rest))
  {
    Push(rest, ExpState(Top(rest)), Exp(p))
  }

  lemma RestIsLighter(s: Stack, rule: int)
    requires Handle(s, rule) && rule != 2
    ensures Weight(Rest(s, rule)) + 1 < Weight(s)
  {
    WeightUnfolds(s);
    if rule != 11 && rule != 12 {
      WeightUnfolds(s.below);
      if rule != 10 {
        WeightUnfolds(s.below.below);
        if rule == 3 {
          WeightUnfolds(s.below.below.below);
          WeightUnfolds(s.below.below.below.below);
        }
      }
    }
  }

  /** The stack after a reduction. */
  function Reduced(s: Stack, rule: int): (r: Stack)
    requires Handle(s, rule)
    ensures Weight(r) < Weight(s)
  {
    if rule == 2 then Push(Bottom, 5, Build(s, rule))
    else
      RestIsLighter(s, rule);
      PushExp(Rest(s, rule), Build(s, rule).phrase)
  }

  predicate Ready(s: Stack, k: Kind) {
    s.Push? && s.symbol.Exp? ==> Closed(s.symbol.phrase, k)
  }

  /** Entries r stand for the same tokens as s, on a valid stack that the next token may follow, with less weight. */
  predicate Improves(s: Stack, r: Stack, k: Kind)
    requires Valid(s)
  {
    && Valid(r) && Ready(r, k) && Taken(r) == Taken(s)
    && Weight(r) < Weight(s) && Height(r) <= Height(s) && Top(r) != FINAL
  }

  /** The state on top tells what the entry is and what is below it. */
  lemma TerminalOnTop(s: Stack)
    requires Valid(s) && Starter(Top(s)) && Top(s) != 0
    ensures s.Push? && Valid(s.below) && s.symbol.Terminal? && Lexical(s.symbol.token)
    ensures Top(s) == 1 || Top(s) == 4 ==> Starter(Top(s.below))
    ensures Top(s) == 1 ==> s.symbol.token == Token(NOT, None)
    ensures Top(s) == 4 ==> s.symbol.token == Token(OPEN, None)
    ensures Top(s) == 25 ==> s.symbol.token == Token(COLON, None) && Top(s.below) == 18
    ensures 10 <= Top(s) <= 16 ==>
      && s.symbol.token.kind == Top(s) - 7 && ExpOnTop(s.below)
      && MinLevel(Top(s.below.below)) <= Top(s) - 7 && Closed(s.below.symbol.phrase, Top(s) - 7)
  {
  }

  predicate ExpOnTop(s: Stack) {
    s.Push? && s.symbol.Exp? && Starter(Top(s.below)) && Grammatical(s.symbol.phrase)
  }

  /** The states in which an expression is complete. */
  lemma ExpStates(s: Stack)
    requires Valid(s) && ExpIn(Top(s))
    ensures ExpOnTop(s) && Valid(s.below) && Top(s) == ExpState(Top(s.below))
    ensures MinLevel(Top(s.below)) <= Level(s.symbol.phrase)
  {
  }

  lemma TakenUnfolds(s: Stack)
    requires Valid(s) && s.Push?
    ensures Valid(s.below) && (!s.symbol.Terminal? ==> Grammatical(s.symbol.phrase))
    ensures Taken(s) == Taken(s.below) + SymbolYield(s.symbol)
    ensures Height(s) == Height(s.below) + 1 && Weight(s) == Weight(s.below) + Heft(s.symbol)
  {
  }

  lemma AtomImproves(s: Stack, k: Kind)
    requires Valid(s) && (Top(s) == 2 || Top(s) == 3)
    ensures Starter(Top(s.below)) && s.symbol.Terminal? && (Top(s) == 2 ==> s.symbol.token.value.NumValue?)
    ensures Improves(s, PushExp(s.below, if Top(s) == 2 then Number(s.symbol.token.value.num) else Variable), k)
  {
  }

  lemma RegroupTwo(a: seq<Token>, b: seq<Token>, c: seq<Token>)
    ensures a + b + c == a + (b + c)
  {
  }

  lemma RegroupFive(a: seq<Token>, b: seq<Token>, c: seq<Token>, d: seq<Token>, e: seq<Token>, f: seq<Token>)
    ensures a + b + c + d + e + f == a + (b + c + d + e + f)
  {
  }

  lemma Regroup(a: seq<Token>, b: seq<Token>, c: seq<Token>, d: seq<Token>)
    ensures a + b + c + d == a + (b + c + d)
  {
  }

  lemma ParenImproves(s: Stack, k: Kind)
    requires Valid(s) && Top(s) == 17
    ensures s.Push? && ExpOnTop(s.below) && s.below.below.Push? && s.below.below.symbol.Terminal?
    ensures Starter(Top(s.below.below.below))
    ensures Improves(s, PushExp(s.below.below.below, Paren(s.below.symbol.phrase)), k)
  {
    TakenUnfolds(s);
    var b := s.below;
    ExpStates(b);
    TakenUnfolds(b);
    var open := b.below;
    TerminalOnTop(open);
    TakenUnfolds(open);
    var p := b.symbol.phrase;
    TakenUnfolds(PushExp(open.below, Paren(p)));
    Regroup(Taken(open.below), [Token(OPEN, None)], Yield(p), [Token(CLOSE, None)]);
  }

  lemma NotImproves(s: Stack, k: Kind)
    requires Valid(s) && Top(s) == 7
    ensures ExpOnTop(s) && s.below.Push? && s.below.symbol.Terminal? && Starter(Top(s.below.below))
    ensures Improves(s, PushExp(s.below.below, Not(s.symbol.phrase)), k)
  {
    ExpStates(s);
    var not := s.below;
    TerminalOnTop(not);
    TakenUnfolds(s);
    TakenUnfolds(not);
    var p := s.symbol.phrase;
    TakenUnfolds(PushExp(not.below, Not(p)));
    RegroupTwo(Taken(not.below), [Token(NOT, None)], Yield(p));
  }

  lemma BinaryImproves(s: Stack, k: Kind)
    requires Valid(s) && 19 <= Top(s) <= 24
    requires !(Operator(k) && MinLevel(Top(s) - 8) <= k)
    ensures ExpOnTop(s) && s.below.Push? && s.below.symbol.Terminal? && Lexical(s.below.symbol.token)
    ensures s.below.symbol.token.kind == Top(s) - 15
    ensures ExpOnTop(s.below.below)
    ensures Improves(s, PushExp(s.below.below.below,
      Binary(OperationOf(s.below.symbol.token), s.below.below.symbol.phrase, s.symbol.phrase)), k)
  {
    ExpStates(s);
    var op := s.below;
    TerminalOnTop(op);
    TakenUnfolds(s);
    TakenUnfolds(op);
    var left := op.below;
    TakenUnfolds(left);
    var l, r := left.symbol.phrase, s.symbol.phrase;
    TakenUnfolds(PushExp(left.below, Binary(OperationOf(op.symbol.token), l, r)));
    Regroup(Taken(left.below), Yield(l), [op.symbol.token], Yield(r));
  }

  /** What stands on the stack when a conditional is complete. */
  lemma ConditionalOnTop(s: Stack)
    requires Valid(s) && Top(s) == 26
    ensures ExpOnTop(s) && s.below.Push? && s.below.symbol == Terminal(Token(COLON, None)) && Valid(s.below)
    ensures
      var yes := s.below.below;
      && Valid(yes) && ExpOnTop(yes) && yes.below.Push? && Valid(yes.below)
      && yes.below.symbol == Terminal(Token(QUESTION, None))
      && var test := yes.below.below;
      && Valid(test) && ExpOnTop(test) && Valid(test.below) && QUESTION < Level(test.symbol.phrase)
      && MinLevel(Top(test.below)) <= QUESTION
  {
    ExpStates(s);
    TerminalOnTop(s.below);
    var yes := s.below.below;
    ExpStates(yes);
    TerminalOnTop(yes.below);
  }

  lemma ConditionalTaken(s: Stack)
    requires Valid(s) && Top(s) == 26
    requires ExpOnTop(s) && s.below.Push? && ExpOnTop(s.below.below)
    requires s.below.below.below.Push? && ExpOnTop(s.below.below.below.below)
    requires s.below.symbol.Terminal? && s.below.below.below.symbol.Terminal?
    ensures
      var yes, test := s.below.below, s.below.below.below.below;
      && Valid(test.below)
      && Taken(s) == Taken(test.below) + Yield(test.symbol.phrase) + [yes.below.symbol.token]
                     + Yield(yes.symbol.phrase) + [s.below.symbol.token] + Yield(s.symbol.phrase)
      && Height(s) == Height(test.below) + 5 && Weight(test.below) + 3 <= Weight(s)
  {
    TakenUnfolds(s);
    TakenUnfolds(s.below);
    TakenUnfolds(s.below.below);
    TakenUnfolds(s.below.below.below);
    TakenUnfolds(s.below.below.below.below);
  }

  lemma ConditionalImproves(s: Stack, k: Kind)
    requires Valid(s) && Top(s) == 26 && !Operator(k)
    ensures ExpOnTop(s) && s.below.Push? && ExpOnTop(s.below.below)
    ensures s.below.below.below.Push? && ExpOnTop(s.below.below.below.below)
    ensures Improves(s, PushExp(s.below.below.below.below.below,
      Conditional(s.below.below.below.below.symbol.phrase, s.below.below.symbol.phrase, s.symbol.phrase)), k)
  {
    ConditionalOnTop(s);
    ConditionalTaken(s);
    var yes, test := s.below.below, s.below.below.below.below;
    var c, y, n := test.symbol.phrase, yes.symbol.phrase, s.symbol.phrase;
    TakenUnfolds(PushExp(test.below, Conditional(c, y, n)));
    RegroupFive(Taken(test.below), Yield(c), [Token(QUESTION, None)], Yield(y), [Token(COLON, None)], Yield(n));
  }

  /** A reduction finds its right-hand side and improves the stack. */
  predicate ReducesWell(s: Stack, k: Kind, rule: int)
    requires Valid(s)
  {
    Handle(s, rule) && Improves(s, Reduced(s, rule), k)
  }

  lemma ReduceToken(s: Stack, k: Kind)
    requires Valid(s) && (Top(s) == 2 || Top(s) == 3 || Top(s) == 17)
    ensures ReducesWell(s, k, Act(Top(s), k).rule)
  {
    if Top(s) == 17 {
      ParenImproves(s, k);
    } else {
      AtomImproves(s, k);
    }
  }

  lemma ReduceStart(s: Stack, k: Kind)
    requires Valid(s) && Top(s) == 6
    ensures ReducesWell(s, k, 2)
  {
    ExpStates(s);
    if s.below != Bottom {
      TerminalOnTop(s.below);
    }
  }

  lemma ReduceExp(s: Stack, k: Kind)
    requires Valid(s) && ExpIn(Top(s)) && Act(Top(s), k).Reduce?
    ensures ReducesWell(s, k, Act(Top(s), k).rule)
  {
    if Top(s) == 6 {
      ReduceStart(s, k);
    } else if Top(s) == 7 {
      NotImproves(s, k);
    } else if Top(s) == 26 {
      ConditionalImproves(s, k);
    } else {
      BinaryImproves(s, k);
    }
  }

  lemma ReducingStates(s: Stack, k: Kind)
    requires Top(s) != FINAL && Act(Top(s), k).Reduce?
    ensures ExpIn(Top(s)) || Top(s) == 2 || Top(s) == 3 || Top(s) == 17
  {
  }

  /** Every reduction the tables order finds its right-hand side on the stack and keeps the stack valid. */
  lemma ReduceStep(s: Stack, k: Kind)
    requires Valid(s) && Top(s) != FINAL && Act(Top(s), k).Reduce?
    ensures ReducesWell(s, k, Act(Top(s), k).rule)
  {
    ReducingStates(s, k);
    if ExpIn(Top(s)) {
      ReduceExp(s, k);
    } else {
      ReduceToken(s, k);
    }
  }

  /** Every shift the tables order keeps the stack valid. */
  lemma ShiftStep(s: Stack, t: Token)
    requires Valid(s) && Top(s) != FINAL && Ready(s, t.kind) && Lexical(t) && Act(Top(s), t.kind).Shift?
    ensures TerminalFits(s, Act(Top(s), t.kind).state, t)
  {
    if ExpIn(Top(s)) {
      ExpStates(s);
    }
  }
}
