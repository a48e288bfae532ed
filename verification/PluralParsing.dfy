/**
 * Runs of the automaton: they end, what they accept is grammatical, and every grammatical token list is
 * accepted unless it needs a deeper stack than the parser allows itself.
 */
module PluralParsing {
  import opened PluralTables
  import opened PluralGrammar
  import opened PluralAutomaton

  /** A token list as the lexer delivers it: well-formed tokens, then the end marker. */
  predicate Tokenised(tokens: seq<Token>) {
    && |tokens| > 0
    && forall i :: 0 <= i < |tokens| ==> Lexical(tokens[i]) && (tokens[i].kind == END <==> i == |tokens| - 1)
  }

  datatype Config = Config(stack: Stack, pos: nat)

  predicate Good(c: Config, tokens: seq<Token>)
    requires Tokenised(tokens)
  {
    && Valid(c.stack) && c.pos <= |tokens|
    && if Top(c.stack) == FINAL then c.pos == |tokens|
       else c.pos < |tokens| && Ready(c.stack, tokens[c.pos].kind)
  }

  function Decision(c: Config, tokens: seq<Token>): Action
    requires c.pos < |tokens|
  {
    Act(Top(c.stack), tokens[c.pos].kind)
  }

  function AfterReduce(c: Config, rule: int): Config
    requires Handle(c.stack, rule)
  {
    Config(Reduced(c.stack, rule), c.pos)
  }

  function AfterShift(c: Config, tokens: seq<Token>, n: State): Config
    requires c.pos < |tokens|
  {
    Config(Push(c.stack, n, Terminal(tokens[c.pos])), c.pos + 1)
  }

  predicate Finished(s: Stack) {
    s.Push? && s.below.Push? && s.below.symbol.Start?
  }

  /** What becomes of a parse from here on, with a stack that is given up at height lim. */
  function Run(lim: nat, c: Config, tokens: seq<Token>): Outcome
    requires c.pos <= |tokens|
    decreases 3 * (|tokens| - c.pos) + Weight(c.stack)
  {
    if Height(c.stack) >= lim then Exhausted
    else if Top(c.stack) == FINAL then
      if Finished(c.stack) then Accepted(c.stack.below.symbol.phrase) else Stuck
    else if c.pos == |tokens| then Stuck
    else
      match Decision(c, tokens)
      case Fail => SyntaxError
      case Reduce(rule) => if Handle(c.stack, rule) then Run(lim, AfterReduce(c, rule), tokens) else Stuck
      case Shift(n) => Run(lim, AfterShift(c, tokens, n), tokens)
  }

  lemma InitialIsGood(tokens: seq<Token>)
    requires Tokenised(tokens)
    ensures Good(Config(Bottom, 0), tokens)
  {
  }

  function ParseWithin(lim: nat, tokens: seq<Token>): Outcome {
    Run(lim, Config(Bottom, 0), tokens)
  }

  /** The parser's own limit. */
  function Parse(tokens: seq<Token>): Outcome {
    ParseWithin(MAX_DEPTH, tokens)
  }

  const END_TOKEN := Token(END, None)

  /** The stack has taken in the tokens read so far. */
  predicate Faithful(c: Config, tokens: seq<Token>)
    requires Tokenised(tokens) && Good(c, tokens)
  {
    Taken(c.stack) == tokens[..c.pos]
  }

  lemma ReduceIsGood(c: Config, tokens: seq<Token>)
    requires Tokenised(tokens) && Good(c, tokens) && Top(c.stack) != FINAL && Decision(c, tokens).Reduce?
    ensures Handle(c.stack, Decision(c, tokens).rule)
    ensures
      var c' := AfterReduce(c, Decision(c, tokens).rule);
      Good(c', tokens) && (Faithful(c, tokens) ==> Faithful(c', tokens))
  {
    ReduceStep(c.stack, tokens[c.pos].kind);
  }

  lemma ShiftIsGood(c: Config, tokens: seq<Token>)
    requires Tokenised(tokens) && Good(c, tokens) && Top(c.stack) != FINAL && Decision(c, tokens).Shift?
    ensures
      var c' := AfterShift(c, tokens, Decision(c, tokens).state);
      Good(c', tokens) && (Faithful(c, tokens) ==> Faithful(c', tokens))
  {
    ShiftStep(c.stack, tokens[c.pos]);
    TakenUnfolds(AfterShift(c, tokens, Decision(c, tokens).state).stack);
    assert tokens[..c.pos + 1] == tokens[..c.pos] + [tokens[c.pos]];
  }

  lemma FinalIsSound(c: Config, tokens: seq<Token>)
    requires Tokenised(tokens) && Good(c, tokens) && Faithful(c, tokens) && Top(c.stack) == FINAL
    ensures
      && c.stack.Push? && c.stack.below.Push? && c.stack.below.symbol.Start?
      && var p := c.stack.below.symbol.phrase;
      Grammatical(p) && tokens == Yield(p) + [END_TOKEN]
  {
    var s := c.stack.below;
    assert Valid(s) && s.symbol.Start? && s.below == Bottom;
    TakenUnfolds(c.stack);
    TakenUnfolds(s);
    assert tokens[..c.pos] == tokens;
  }

  /** A run is never stuck, and whatever it accepts is the phrase the tokens spell. */
  lemma {:induction false} RunIsSound(lim: nat, c: Config, tokens: seq<Token>)
    requires Tokenised(tokens) && Good(c, tokens) && Faithful(c, tokens)
    ensures !Run(lim, c, tokens).Stuck?
    ensures Run(lim, c, tokens).Accepted? ==>
      && Grammatical(Run(lim, c, tokens).phrase)
      && tokens == Yield(Run(lim, c, tokens).phrase) + [END_TOKEN]
    decreases 3 * (|tokens| - c.pos) + Weight(c.stack)
  {
    if Height(c.stack) >= lim {
    } else if Top(c.stack) == FINAL {
      FinalIsSound(c, tokens);
    } else if Decision(c, tokens).Reduce? {
      ReduceIsGood(c, tokens);
      RunIsSound(lim, AfterReduce(c, Decision(c, tokens).rule), tokens);
    } else if Decision(c, tokens).Shift? {
      ShiftIsGood(c, tokens);
      RunIsSound(lim, AfterShift(c, tokens, Decision(c, tokens).state), tokens);
    }
  }

  lemma ParseIsSound(lim: nat, tokens: seq<Token>)
    requires Tokenised(tokens)
    ensures !ParseWithin(lim, tokens).Stuck?
    ensures ParseWithin(lim, tokens).Accepted? ==>
      Grammatical(ParseWithin(lim, tokens).phrase) && tokens == Yield(ParseWithin(lim, tokens).phrase) + [END_TOKEN]
  {
    InitialIsGood(tokens);
    RunIsSound(lim, Config(Bottom, 0), tokens);
  }
}
