/**
 * The parser itself: the driver loop over the tables, with its state and value stacks, the one-token lookahead
 * it fetches only when a decision needs it, and the growth of the stacks.
 */
module PluralParser {
  import opened Options
  import opened PluralTables
  import opened PluralGrammar
  import opened PluralAutomaton
  import opened PluralParsing
  import opened PluralReading
  import opened PluralLexer

  const YYEMPTY := -2
  const YYINITDEPTH := 200
  const YYMAXDEPTH := MAX_DEPTH

  /** A value on the value stack is the one its symbol asks for; a token without a value leaves it open. */
  predicate Holds(v: Value, x: Symbol) {
    match x
    case Terminal(t) => t.value != Value.None ==> v == t.value
    case Exp(p) => Grammatical(p) && v == ExpValue(Tree(p))
    case Start(p) => true
  }

  /** The two stacks of the parser, bottom first, are those of the automaton. */
  predicate Agrees(s: Stack, ss: seq<int>, vs: seq<Value>) {
    && |ss| == |vs| == Height(s)
    && ss[|ss| - 1] == Top(s)
    && (s.Push? ==> Holds(vs[|vs| - 1], s.symbol) && Agrees(s.below, ss[..|ss| - 1], vs[..|vs| - 1]))
  }

  function Below(s: Stack, k: nat): Stack {
    if k == 0 || s.Bottom? then s else Below(s.below, k - 1)
  }

  /** The stacks agree below their topmost entries, too. */
  lemma {:induction false} Peel(s: Stack, ss: seq<int>, vs: seq<Value>, k: nat)
    requires Agrees(s, ss, vs) && k < Height(s)
    ensures Agrees(Below(s, k), ss[..|ss| - k], vs[..|vs| - k])
  {
    if k > 0 {
      Peel(s.below, ss[..|ss| - 1], vs[..|vs| - 1], k - 1);
      assert ss[..|ss| - 1][..|ss| - k] == ss[..|ss| - k];
      assert vs[..|vs| - 1][..|vs| - k] == vs[..|vs| - k];
    } else {
      assert ss[..|ss|] == ss && vs[..|vs|] == vs;
    }
  }

  /** The value at depth k is the one the symbol there asks for. */
  lemma PeelTop(s: Stack, ss: seq<int>, vs: seq<Value>, k: nat)
    requires Agrees(s, ss, vs) && k < Height(s) && Below(s, k).Push?
    ensures Holds(vs[|vs| - 1 - k], Below(s, k).symbol)
  {
    Peel(s, ss, vs, k);
  }

  lemma BelowTwo(s: Stack)
    requires s.Push? && s.below.Push?
    ensures Below(s, 0) == s && Below(s, 1) == s.below && Below(s, 2) == s.below.below
    ensures Height(s) == 2 + Height(s.below.below)
  {
    BelowStep(s, 2);
    BelowStep(s.below, 1);
  }

  lemma BelowStep(s: Stack, k: nat)
    requires s.Push? && k > 0
    ensures Below(s, k) == Below(s.below, k - 1)
  {
  }

  lemma AgreesPush(s: Stack, ss: seq<int>, vs: seq<Value>, n: State, x: Symbol, v: Value)
    requires Agrees(s, ss, vs) && Holds(v, x)
    ensures Agrees(Push(s, n, x), ss + [n], vs + [v])
  {
    assert (ss + [n])[..|ss|] == ss && (vs + [v])[..|vs|] == vs;
  }

  /** The arguments a rule's action needs are expressions and operators where it expects them. */
  predicate Arguments(rule: int, a: seq<Value>) {
    && |a| == Length(rule)
    && match rule {
      case 2 => a[0].ExpValue?
      case 3 => a[0].ExpValue? && a[2].ExpValue? && a[4].ExpValue?
      case 10 => a[1].ExpValue?
      case 12 => a[0].NumValue?
      case 13 => a[1].ExpValue?
      case _ => 4 <= rule <= 9 ==> a[0].ExpValue? && a[2].ExpValue? && (rule >= 6 ==> a[1].OpValue?)
    }
  }

  /** The actions of the rules: $$ from $1, $2, ... */
  function Action(rule: int, a: seq<Value>): Value
    requires Arguments(rule, a)
  {
    if rule == 3 then ExpValue(NewExp3(Qmop, a[0].exp, a[2].exp, a[4].exp))
    else if rule == 4 then ExpValue(NewExp2(Lor, a[0].exp, a[2].exp))
    else if rule == 5 then ExpValue(NewExp2(Land, a[0].exp, a[2].exp))
    else if 6 <= rule <= 9 then ExpValue(NewExp2(a[1].op, a[0].exp, a[2].exp))
    else if rule == 10 then ExpValue(NewExp1(Lnot, a[1].exp))
    else if rule == 11 then ExpValue(NewExp0(Var))
    else if rule == 12 then ExpValue(NewNumber(a[0].num))
    else if rule == 13 then a[1]
    else a[0]
  }

  /** The values of the topmost k entries. */
  function Last(vs: seq<Value>, k: nat): seq<Value>
    requires k <= |vs|
  {
    vs[|vs| - k..]
  }

  /** What ActionBuilds says. */
  predicate Acts(s: Stack, ss: seq<int>, vs: seq<Value>, rule: int, x: Symbol) {
    var n := Length(rule);
    && n < |ss| == |vs| && Arguments(rule, Last(vs, n)) && Holds(Action(rule, Last(vs, n)), x)
  }

  lemma AtomActs(s: Stack, ss: seq<int>, vs: seq<Value>, rule: int)
    requires Agrees(s, ss, vs) && Handle(s, rule) && (rule == 11 || rule == 12)
    ensures Acts(s, ss, vs, rule, Build(s, rule))
  {
  }

  lemma NotActs(s: Stack, ss: seq<int>, vs: seq<Value>)
    requires Agrees(s, ss, vs) && Handle(s, 10) && Grammatical(Not(s.symbol.phrase))
    ensures Acts(s, ss, vs, 10, Build(s, 10))
  {
  }

  lemma ParenActs(s: Stack, ss: seq<int>, vs: seq<Value>)
    requires Agrees(s, ss, vs) && Handle(s, 13)
    ensures Acts(s, ss, vs, 13, Build(s, 13))
  {
    BelowTwo(s);
    PeelTop(s, ss, vs, 1);
  }

  lemma BinaryActs(s: Stack, ss: seq<int>, vs: seq<Value>, rule: int)
    requires Agrees(s, ss, vs) && Handle(s, rule) && 4 <= rule <= 9 && Grammatical(Build(s, rule).phrase)
    ensures Acts(s, ss, vs, rule, Build(s, rule))
  {
    BelowTwo(s);
    PeelTop(s, ss, vs, 1);
    PeelTop(s, ss, vs, 2);
  }

  lemma ConditionalActs(s: Stack, ss: seq<int>, vs: seq<Value>)
    requires Agrees(s, ss, vs) && Handle(s, 3) && Grammatical(Build(s, 3).phrase)
    ensures Acts(s, ss, vs, 3, Build(s, 3))
  {
    BelowTwo(s);
    PeelTop(s, ss, vs, 2);
    BelowTwo(s.below.below);
    BelowStep(s, 4);
    BelowStep(s.below, 3);
    PeelTop(s, ss, vs, 4);
  }

  lemma StartActs(s: Stack, ss: seq<int>, vs: seq<Value>)
    requires Agrees(s, ss, vs) && Handle(s, 2) && Grammatical(s.symbol.phrase)
    ensures Acts(s, ss, vs, 2, Build(s, 2)) && vs[|vs| - 1] == ExpValue(Tree(s.symbol.phrase))
  {
  }

  /** The value stack holds what the action of a reduction needs, and the action builds the tree of its phrase. */
  lemma ActionBuilds(s: Stack, ss: seq<int>, vs: seq<Value>, rule: int)
    requires Agrees(s, ss, vs) && Handle(s, rule) && Grammatical(Build(s, rule).phrase)
    ensures Acts(s, ss, vs, rule, Build(s, rule))
  {
    if rule == 2 {
      StartActs(s, ss, vs);
    } else if rule == 3 {
      ConditionalActs(s, ss, vs);
    } else if rule == 10 {
      NotActs(s, ss, vs);
    } else if rule == 13 {
      ParenActs(s, ss, vs);
    } else if rule == 11 || rule == 12 {
      AtomActs(s, ss, vs, rule);
    } else {
      BinaryActs(s, ss, vs, rule);
    }
  }

  lemma RestIsBelow(s: Stack, rule: int)
    requires Handle(s, rule)
    ensures Rest(s, rule) == Below(s, Length(rule)) && Length(rule) < Height(s)
  {
    if rule == 3 {
      BelowTwo(s);
      BelowTwo(s.below.below);
      BelowStep(s, 5);
      BelowStep(s.below, 4);
      BelowStep(s.below.below, 3);
      BelowStep(s.below.below.below, 2);
      BelowStep(s.below.below.below.below, 1);
    } else if rule == 13 || 4 <= rule <= 9 {
      BelowTwo(s);
      BelowStep(s, 3);
      BelowTwo(s.below);
    } else if rule == 10 {
      BelowTwo(s);
    } else {
      BelowStep(s, 1);
    }
  }

  /** The lookahead the parser holds, and the text still to be read, continue the token list at pos. */
  predicate Ahead(text: string, cp: nat, yychar: int, yylval: Value, tokens: seq<Token>, pos: nat)
    requires cp <= |text| && pos < |tokens|
  {
    if yychar == YYEMPTY then Tokens(text[cp..]) == tokens[pos..]
    else
      && yychar >= 0 && tokens[pos].kind == Translate(yychar)
      && (tokens[pos].value != Value.None ==> tokens[pos].value == yylval)
      && (tokens[pos].kind != END ==> Tokens(text[cp..]) == tokens[pos + 1..])
  }

  /** Fetches the lookahead if there is none. */
  method Lookahead(text: string, cp: nat, yychar: int, yylval: Value, ghost tokens: seq<Token>, ghost pos: nat)
      returns (yychar': int, yylval': Value, cp': nat)
    requires cp <= |text| && pos < |tokens| && Ahead(text, cp, yychar, yylval, tokens, pos)
    ensures cp' <= |text| && yychar' != YYEMPTY && Ahead(text, cp', yychar', yylval', tokens, pos)
  {
    yychar', yylval', cp' := yychar, yylval, cp;
    if yychar == YYEMPTY {
      yychar', yylval', cp' := Yylex(text, cp, yylval);
      TokensUnfold(text[cp..]);
      assert tokens[pos..][0] == tokens[pos] && tokens[pos..][1..] == tokens[pos + 1..];
      CodesAreNatural(text[cp..]);
    }
  }

  lemma CodesAreNatural(s: string)
    ensures Lex(s).code >= 0
  {
  }

  /** Doubles the stacks, up to YYMAXDEPTH, without changing what is on them. */
  method Grow(yyss: array<int>, yyvs: array<Value>, yystacksize: nat)
    returns (ss: array<int>, vs: array<Value>, size: nat)
    requires yyss.Length == yyvs.Length == yystacksize && 0 < yystacksize < YYMAXDEPTH
    ensures fresh(ss) && fresh(vs) && ss.Length == vs.Length == size && yystacksize < size <= YYMAXDEPTH
    ensures ss[..yystacksize] == yyss[..] && vs[..yystacksize] == yyvs[..]
  {
    size := yystacksize * 2;
    if YYMAXDEPTH < size {
      size := YYMAXDEPTH;
    }
    ss := new int[size](_ => 0);
    vs := new Value[size](_ => Value.None);
    var yyi := 0;
    while yyi < yystacksize
      invariant yyi <= yystacksize
      invariant ss[..yyi] == yyss[..yyi] && vs[..yyi] == yyvs[..yyi]
    {
      ss[yyi], vs[yyi] := yyss[yyi], yyvs[yyi];
      yyi := yyi + 1;
    }
    assert ss[..yystacksize] == yyss[..yystacksize] == yyss[..];
  }

  /** What the action of rule 2 stored is the tree of the phrase the start symbol stands for. */
  predicate HoldsResult(s: Stack, res: Option<Expression>) {
    && (s.Push? && s.symbol.Start? ==> Grammatical(s.symbol.phrase) && res == Some(Tree(s.symbol.phrase)))
    && (Finished(s) ==> Grammatical(s.below.symbol.phrase) && res == Some(Tree(s.below.symbol.phrase)))
  }

  /** The parser's pop and goto land where the automaton's reduction does. */
  lemma PopsAlike(s: Stack, rule: int, ss: seq<int>, vs: seq<Value>)
    requires Handle(s, rule) && 2 <= rule <= 13 && Agrees(s, ss, vs)
    ensures
      var n := Length(rule);
      && n == yyr2(rule) && n < |ss| && ss[|ss| - 1 - n] == Top(Rest(s, rule))
      && Agrees(Rest(s, rule), ss[..|ss| - n], vs[..|vs| - n])
      && yyr1(rule) == (if rule == 2 then START_SYMBOL else EXP_SYMBOL)
      && Goto(yyr1(rule), Top(Rest(s, rule))) == Top(Reduced(s, rule))
  {
    RestIsBelow(s, rule);
    Peel(s, ss, vs, Length(rule));
    RuleLengths(rule);
    GotoIs(Top(Rest(s, rule)));
  }

  lemma ReducesGrammatically(c: Config, tokens: seq<Token>, rule: int)
    requires Tokenised(tokens) && Good(c, tokens) && Top(c.stack) != FINAL && Decision(c, tokens) == Reduce(rule)
    ensures Handle(c.stack, rule) && 2 <= rule <= 13 && Good(AfterReduce(c, rule), tokens)
    ensures Grammatical(Build(c.stack, rule).phrase)
  {
    ReduceIsGood(c, tokens);
  }

  lemma ReducedStack(s: Stack, rule: int)
    requires Handle(s, rule)
    ensures Reduced(s, rule) == Push(Rest(s, rule), Top(Reduced(s, rule)), Build(s, rule))
    ensures !Finished(Reduced(s, rule)) || Rest(s, rule).symbol.Start?
  {
  }

  lemma ReduceKeepsResult(s: Stack, rule: int, vs: seq<Value>, ss: seq<int>, res0: Option<Expression>)
    requires Valid(s) && Handle(s, rule) && Agrees(s, ss, vs) && Grammatical(Build(s, rule).phrase)
    ensures rule == 2 ==> vs[|vs| - 1].ExpValue?
    ensures HoldsResult(Reduced(s, rule), if rule == 2 then Some(vs[|vs| - 1].exp) else res0)
  {
    if rule == 2 {
      StartActs(s, ss, vs);
    } else {
      NoStartBelow(s, rule);
    }
  }

  lemma NoStartBelow(s: Stack, rule: int)
    requires Valid(s) && Handle(s, rule) && rule != 2
    ensures !Finished(Reduced(s, rule))
  {
    RestIsBelow(s, rule);
    BelowIsValid(s, Length(rule));
  }

  lemma BelowIsValid(s: Stack, k: nat)
    requires Valid(s)
    ensures Valid(Below(s, k))
  {
  }

  /** The stacks after a reduction, computed from the parser's own stacks, are those of the automaton. */
  lemma ReduceMirrored(c: Config, tokens: seq<Token>, rule: int, ss: seq<int>, vs: seq<Value>)
    requires Tokenised(tokens) && Good(c, tokens) && Top(c.stack) != FINAL && Decision(c, tokens) == Reduce(rule)
    requires Agrees(c.stack, ss, vs)
    ensures Handle(c.stack, rule) && 2 <= rule <= 13 && Good(AfterReduce(c, rule), tokens)
    ensures Grammatical(Build(c.stack, rule).phrase)
    ensures
      var n := yyr2(rule);
      && 0 < n < |ss| == |vs| && Arguments(rule, Last(vs, n))
      && yyr1(rule) == (if rule == 2 then START_SYMBOL else EXP_SYMBOL)
      && var below := ss[|ss| - 1 - n];
      && 0 <= below < NSTATES
      && Agrees(Reduced(c.stack, rule), ss[..|ss| - n] + [Goto(yyr1(rule), below)],
           vs[..|vs| - n] + [Action(rule, Last(vs, n))])
  {
    var s := c.stack;
    ReducesGrammatically(c, tokens, rule);
    ActionBuilds(s, ss, vs, rule);
    PopsAlike(s, rule, ss, vs);
    ReducedStack(s, rule);
    var n := Length(rule);
    AgreesPush(Rest(s, rule), ss[..|ss| - n], vs[..|vs| - n], Top(Reduced(s, rule)), Build(s, rule),
      Action(rule, Last(vs, n)));
  }

  /** yyreduce: runs the action of a rule, pops its right-hand side and pushes the value; yields the state to enter. */
  method Yyreduce(
      yyn: int, yyss: array<int>, yyvs: array<Value>, top: nat, res0: Option<Expression>,
      ghost c: Config, ghost tokens: seq<Token>)
      returns (yystate: State, yyssp: nat, res: Option<Expression>)
    requires yyss.Length == yyvs.Length && top < yyss.Length
    requires Tokenised(tokens) && Good(c, tokens) && Top(c.stack) != FINAL && Decision(c, tokens) == Reduce(yyn)
    requires Agrees(c.stack, yyss[..top + 1], yyvs[..top + 1]) && HoldsResult(c.stack, res0)
    modifies yyvs
    ensures Handle(c.stack, yyn) && Good(AfterReduce(c, yyn), tokens)
    ensures 0 < yyssp <= top + 1 && yyssp < yyss.Length
    ensures Agrees(AfterReduce(c, yyn).stack, yyss[..yyssp] + [yystate], yyvs[..yyssp + 1])
    ensures HoldsResult(AfterReduce(c, yyn).stack, res)
  {
    ghost var ss, vs := yyss[..top + 1], yyvs[..top + 1];
    ReduceMirrored(c, tokens, yyn, ss, vs);
    ReduceKeepsResult(c.stack, yyn, vs, ss, res0);
    res := res0;
    if yyn == 2 {
      res := Some(yyvs[top].exp);
    }
    yystate, yyssp := PopAndPush(yyn, yyss, yyvs, top, ss, vs, Reduced(c.stack, yyn));
  }

  /** The part of yyreduce that works on the stacks. */
  method PopAndPush(
      yyn: int, yyss: array<int>, yyvs: array<Value>, top: nat, ghost ss: seq<int>, ghost vs: seq<Value>,
      ghost after: Stack)
      returns (yystate: State, yyssp: nat)
    requires yyss.Length == yyvs.Length && top < yyss.Length && ss == yyss[..top + 1] && vs == yyvs[..top + 1]
    requires 2 <= yyn <= 13 && 0 < yyr2(yyn) <= top && Arguments(yyn, Last(vs, yyr2(yyn)))
    requires yyr1(yyn) == START_SYMBOL || yyr1(yyn) == EXP_SYMBOL
    requires 0 <= ss[top - yyr2(yyn)] < NSTATES
    requires
      var n := yyr2(yyn);
      Agrees(after, ss[..|ss| - n] + [Goto(yyr1(yyn), ss[top - n])], vs[..|vs| - n] + [Action(yyn, Last(vs, n))])
    modifies yyvs
    ensures 0 < yyssp <= top + 1 && yyssp < yyss.Length
    ensures Agrees(after, yyss[..yyssp] + [yystate], yyvs[..yyssp + 1])
  {
    var yylen := yyr2(yyn);
    assert yyvs[top + 1 - yylen..top + 1] == Last(vs, yylen);
    var yyval := Action(yyn, yyvs[top + 1 - yylen..top + 1]);
    yyssp := top - yylen;
    yystate := Goto(yyr1(yyn), yyss[yyssp]);
    yyssp := yyssp + 1;
    yyvs[yyssp] := yyval;
    assert yyvs[..yyssp + 1] == vs[..|vs| - yylen] + [yyval];
    assert yyss[..yyssp] == ss[..|ss| - yylen];
  }

  /** The shift of the driver: pushes the value of the lookahead. */
  method Yyshift(
      yyss: array<int>, yyvs: array<Value>, top: nat, yylval: Value, ghost n: State, ghost c: Config,
      ghost tokens: seq<Token>, ghost res: Option<Expression>)
      returns (yyssp: nat)
    requires yyss.Length == yyvs.Length && top + 1 < yyss.Length
    requires Tokenised(tokens) && Good(c, tokens) && Top(c.stack) != FINAL && Decision(c, tokens) == Shift(n)
    requires tokens[c.pos].value != Value.None ==> tokens[c.pos].value == yylval
    requires Agrees(c.stack, yyss[..top + 1], yyvs[..top + 1]) && HoldsResult(c.stack, res)
    modifies yyvs
    ensures Good(AfterShift(c, tokens, n), tokens)
    ensures yyssp == top + 1
    ensures Agrees(AfterShift(c, tokens, n).stack, yyss[..yyssp] + [n], yyvs[..yyssp + 1])
    ensures HoldsResult(AfterShift(c, tokens, n).stack, res)
  {
    ghost var vs := yyvs[..top + 1];
    yyssp := top + 1;
    yyvs[yyssp] := yylval;
    ShiftIsGood(c, tokens);
    assert yyvs[..yyssp + 1] == vs + [yylval];
    AgreesPush(c.stack, yyss[..yyssp], vs, n, Terminal(tokens[c.pos]), yylval);
  }

  /** What the parser does next: the driver's first two steps, which may do without the lookahead. */
  method Decides(text: string, cp: nat, yychar: int, yylval: Value, yystate: State, ghost tokens: seq<Token>,
      ghost pos: nat)
      returns (act: PluralTables.Action, yychar': int, yylval': Value, cp': nat)
    requires cp <= |text| && pos < |tokens| && Ahead(text, cp, yychar, yylval, tokens, pos)
    ensures cp' <= |text| && Ahead(text, cp', yychar', yylval', tokens, pos)
    ensures act == Act(yystate, tokens[pos].kind) && (act.Shift? ==> yychar' != YYEMPTY)
  {
    yychar', yylval', cp' := yychar, yylval, cp;
    TablesAct(yystate, tokens[pos].kind);
    if yypact(yystate) == NINF {
      act := Default(yystate);
    } else {
      yychar', yylval', cp' := Lookahead(text, cp, yychar, yylval, tokens, pos);
      act := Decide(yystate, Translate(yychar'));
    }
  }

  datatype Result = Result(code: int, res: Option<Expression>)

  /** yyparse's result for an outcome: 0 with the tree, 1 for a syntax error, 2 for exhausted stacks. */
  predicate Reports(o: Outcome, result: int, res: Option<Expression>) {
    match o
    case Accepted(p) => Grammatical(p) && result == 0 && res == Some(Tree(p))
    case SyntaxError => result == 1
    case Exhausted => result == 2
    case Stuck => false
  }

  /** What is true whenever the driver is about to enter a state. */
  predicate Entering(
      c: Config, tokens: seq<Token>, ss: seq<int>, vs: seq<Value>, res: Option<Expression>,
      text: string, cp: nat, yychar: int, yylval: Value)
    requires Tokenised(tokens) && cp <= |text|
  {
    && Good(c, tokens) && Agrees(c.stack, ss, vs) && HoldsResult(c.stack, res)
    && (Top(c.stack) != FINAL ==> Ahead(text, cp, yychar, yylval, tokens, c.pos))
  }

  /** How the runs of the automaton end where the parser returns. */
  lemma Returns(c: Config, tokens: seq<Token>, result: int, res: Option<Expression>)
    requires Tokenised(tokens) && Good(c, tokens) && HoldsResult(c.stack, res)
    requires Leads(MAX_DEPTH, Config(Bottom, 0), true, c, tokens)
    requires
      if Height(c.stack) >= MAX_DEPTH then result == 2
      else if Top(c.stack) == FINAL then result == 0
      else Decision(c, tokens).Fail? && result == 1
    ensures Reports(Parse(tokens), result, res)
  {
    assert Top(c.stack) == FINAL ==> Valid(c.stack.below);
    assert ComesTo(MAX_DEPTH, c, tokens, Run(MAX_DEPTH, c, tokens));
    assert ComesTo(MAX_DEPTH, Config(Bottom, 0), tokens, Run(MAX_DEPTH, c, tokens));
  }

  /** The configuration after one step of the automaton. */
  function Next(c: Config, tokens: seq<Token>): Config
    requires c.pos < |tokens| && (Decision(c, tokens).Reduce? ==> Handle(c.stack, Decision(c, tokens).rule))
  {
    match Decision(c, tokens)
    case Shift(n) => AfterShift(c, tokens, n)
    case Reduce(rule) => AfterReduce(c, rule)
    case Fail => c
  }

  lemma Continues(c: Config, tokens: seq<Token>)
    requires Tokenised(tokens) && Good(c, tokens) && Height(c.stack) < MAX_DEPTH && Top(c.stack) != FINAL
    requires Leads(MAX_DEPTH, Config(Bottom, 0), true, c, tokens) && !Decision(c, tokens).Fail?
    ensures Decision(c, tokens).Reduce? ==> Handle(c.stack, Decision(c, tokens).rule)
    ensures Leads(MAX_DEPTH, Config(Bottom, 0), true, Next(c, tokens), tokens)
    ensures Measure(Next(c, tokens), tokens) < Measure(c, tokens)
  {
    if Decision(c, tokens).Shift? {
      ShiftLeads(MAX_DEPTH, c, tokens, Decision(c, tokens).state);
    } else {
      ReduceIsGood(c, tokens);
      assert Run(MAX_DEPTH, c, tokens) == Run(MAX_DEPTH, AfterReduce(c, Decision(c, tokens).rule), tokens);
    }
  }

  function Measure(c: Config, tokens: seq<Token>): int {
    3 * (|tokens| - c.pos) + Weight(c.stack)
  }

  /** One turn of the driver behind yysetstate: the decision, and the shift or reduction it asks for. */
  method Yystep(
      text: string, cp: nat, yychar: int, yylval: Value, yyss: array<int>, yyvs: array<Value>, top: nat, state: State,
      res: Option<Expression>, ghost c: Config, ghost tokens: seq<Token>)
      returns (ok: bool, state': State, yyssp: nat, yychar': int, yylval': Value, cp': nat, res': Option<Expression>)
    requires yyss.Length == yyvs.Length && top + 1 < yyss.Length && Tokenised(tokens) && cp <= |text|
    requires Entering(c, tokens, yyss[..top + 1], yyvs[..top + 1], res, text, cp, yychar, yylval)
    requires state == Top(c.stack) != FINAL
    modifies yyvs
    ensures ok <==> !Decision(c, tokens).Fail?
    ensures !ok ==> res' == res
    ensures ok ==>
      && (Decision(c, tokens).Reduce? ==> Handle(c.stack, Decision(c, tokens).rule))
      && cp' <= |text| && yyssp < yyss.Length
      && Entering(Next(c, tokens), tokens, yyss[..yyssp] + [state'], yyvs[..yyssp + 1], res', text, cp', yychar',
          yylval')
  {
    var act;
    act, yychar', yylval', cp' := Decides(text, cp, yychar, yylval, state, tokens, c.pos);
    assert act == Decision(c, tokens);
    ok, state', yyssp, res' := true, state, top, res;
    match act {
      case Fail =>
        ok := false;
      case Shift(n) =>
        yyssp := Yyshift(yyss, yyvs, top, yylval', n, c, tokens, res);
        state' := n;
        yychar' := YYEMPTY;
      case Reduce(rule) =>
        state', yyssp, res' := Yyreduce(rule, yyss, yyvs, top, res, c, tokens);
    }
  }

  /** yysetstate: puts the state on its stack and makes sure there is room for one more, up to YYMAXDEPTH. */
  method EnterState(yyss: array<int>, yyvs: array<Value>, yystacksize: nat, yyssp: nat, yystate: State)
      returns (room: bool, ss: array<int>, vs: array<Value>, size: nat)
    requires yyss.Length == yyvs.Length == yystacksize <= YYMAXDEPTH && yyssp < yystacksize
    modifies yyss
    ensures room <==> yyssp + 1 < YYMAXDEPTH
    ensures ss.Length == vs.Length == size <= YYMAXDEPTH && (ss == yyss || fresh(ss)) && (vs == yyvs || fresh(vs))
    ensures yyssp < size && (room ==> yyssp + 1 < size)
    ensures ss[..yyssp + 1] == old(yyss[..yyssp]) + [yystate] && vs[..yyssp + 1] == old(yyvs[..yyssp + 1])
  {
    yyss[yyssp] := yystate;
    ss, vs, size := yyss, yyvs, yystacksize;
    assert ss[..yyssp + 1] == old(yyss[..yyssp]) + [yystate];
    if yystacksize - 1 <= yyssp {
      if YYMAXDEPTH <= yystacksize {
        return false, ss, vs, size;
      }
      ss, vs, size := Grow(yyss, yyvs, yystacksize);
      assert ss[..yyssp + 1] == yyss[..][..yyssp + 1] == yyss[..yyssp + 1];
      assert vs[..yyssp + 1] == yyvs[..][..yyssp + 1] == yyvs[..yyssp + 1];
    }
    room := true;
  }

  /**
   * yyparse: the driver loop on the text behind "plural=".  It reports the outcome of the automaton on the
   * tokens of the text, with the tree of the phrase as its result.
   */
  method Yyparse(text: string) returns (result: int, res: Option<Expression>)
    ensures Reports(Parse(Tokens(text)), result, res)
  {
    ghost var tokens := Tokens(text);
    ghost var c := Config(Bottom, 0);
    var yystacksize := YYINITDEPTH;
    var yyss := new int[yystacksize](_ => 0);
    var yyvs := new Value[yystacksize](_ => Value.None);
    var yyssp: nat := 0;
    var yystate: State := 0;
    var yychar, yylval := YYEMPTY, Value.None;
    var cp: nat := 0;
    res := Option.None;
    InitialIsGood(tokens);
    assert text[0..] == text;
    while true
      invariant yyss.Length == yyvs.Length == yystacksize <= YYMAXDEPTH && yyssp < yystacksize
      invariant fresh(yyss) && fresh(yyvs)
      invariant cp <= |text|
      invariant Entering(c, tokens, yyss[..yyssp] + [yystate], yyvs[..yyssp + 1], res, text, cp, yychar, yylval)
      invariant Leads(MAX_DEPTH, Config(Bottom, 0), true, c, tokens)
      decreases Measure(c, tokens)
    {
      var room;
      room, yyss, yyvs, yystacksize := EnterState(yyss, yyvs, yystacksize, yyssp, yystate);
      assert Height(c.stack) == yyssp + 1 && yystate == Top(c.stack);
      if !room {
        Returns(c, tokens, 2, res);
        return 2, res;
      }
      if yystate == FINAL {
        Returns(c, tokens, 0, res);
        return 0, res;
      }
      var ok;
      ok, yystate, yyssp, yychar, yylval, cp, res :=
        Yystep(text, cp, yychar, yylval, yyss, yyvs, yyssp, yystate, res, c, tokens);
      if !ok {
        Returns(c, tokens, 1, res);
        return 1, res;
      }
      Continues(c, tokens);
      c := Next(c, tokens);
    }
  }
}
