/**
 * The tables bison generated for the plural-expression grammar, the way the driver loop looks things up in
 * them, and what the lookups amount to.  Tokens and symbols are bison's internal numbers.
 */
module PluralTables {
  const FINAL := 9
  const LAST := 54
  const NINF := -10
  const NTOKENS := 16
  const NSTATES := 27

  const END := 0
  const ERROR := 1
  const QUESTION := 3
  const OR := 4
  const AND := 5
  const EQUOP2 := 6
  const CMPOP2 := 7
  const ADDOP2 := 8
  const MULOP2 := 9
  const NOT := 10
  const NUMBER := 11
  const COLON := 12
  const VARIABLE := 13
  const OPEN := 14
  const CLOSE := 15

  const START_SYMBOL := 17
  const EXP_SYMBOL := 18

  /** Symbol on the left of each rule. */
  function yyr1(i: int): int {
    match i
    case 0 => 0 case 1 => 16 case 2 => 17 case 3 => 18 case 4 => 18 case 5 => 18 case 6 => 18 case 7 => 18
    case 8 => 18 case 9 => 18 case 10 => 18 case 11 => 18 case 12 => 18 case _ => 18
  }

  /** Number of symbols on the right of each rule. */
  function yyr2(i: int): int {
    match i
    case 0 => 0 case 1 => 2 case 2 => 1 case 3 => 5 case 4 => 3 case 5 => 3 case 6 => 3 case 7 => 3 case 8 => 3
    case 9 => 3 case 10 => 2 case 11 => 1 case 12 => 1 case _ => 3
  }

  function yydefact(i: int): int {
    match i
    case 0 => 0 case 1 => 0 case 2 => 12 case 3 => 11 case 4 => 0 case 5 => 0 case 6 => 2 case 7 => 10
    case 8 => 0 case 9 => 1 case 10 => 0 case 11 => 0 case 12 => 0 case 13 => 0 case 14 => 0 case 15 => 0
    case 16 => 0 case 17 => 13 case 18 => 0 case 19 => 4 case 20 => 5 case 21 => 6 case 22 => 7 case 23 => 8
    case 24 => 9 case 25 => 0 case _ => 3
  }

  function yydefgoto(i: int): int {
    match i
    case 0 => -1 case 1 => 5 case _ => 6
  }

  function yypact(i: int): int {
    match i
    case 0 => -9 case 1 => -9 case 2 => -10 case 3 => -10 case 4 => -9 case 5 => 8 case 6 => 36 case 7 => -10
    case 8 => 13 case 9 => -10 case 10 => -9 case 11 => -9 case 12 => -9 case 13 => -9 case 14 => -9
    case 15 => -9 case 16 => -9 case 17 => -10 case 18 => 26 case 19 => 41 case 20 => 45 case 21 => 18
    case 22 => -2 case 23 => 14 case 24 => -10 case 25 => -9 case _ => 36
  }

  function yypgoto(i: int): int {
    match i
    case 0 => -10 case 1 => -10 case _ => -1
  }

  function yytable(i: int): int {
    match i
    case 0 => 7 case 1 => 1 case 2 => 2 case 3 => 8 case 4 => 3 case 5 => 4 case 6 => 15 case 7 => 16
    case 8 => 9 case 9 => 18 case 10 => 19 case 11 => 20 case 12 => 21 case 13 => 22 case 14 => 23 case 15 => 24
    case 16 => 10 case 17 => 11 case 18 => 12 case 19 => 13 case 20 => 14 case 21 => 15 case 22 => 16
    case 23 => 16 case 24 => 26 case 25 => 14 case 26 => 15 case 27 => 16 case 28 => 17 case 29 => 10
    case 30 => 11 case 31 => 12 case 32 => 13 case 33 => 14 case 34 => 15 case 35 => 16 case 36 => 0
    case 37 => 0 case 38 => 25 case 39 => 10 case 40 => 11 case 41 => 12 case 42 => 13 case 43 => 14
    case 44 => 15 case 45 => 16 case 46 => 12 case 47 => 13 case 48 => 14 case 49 => 15 case 50 => 16
    case 51 => 13 case 52 => 14 case 53 => 15 case _ => 16
  }

  function yycheck(i: int): int {
    match i
    case 0 => 1 case 1 => 10 case 2 => 11 case 3 => 4 case 4 => 13 case 5 => 14 case 6 => 8 case 7 => 9
    case 8 => 0 case 9 => 10 case 10 => 11 case 11 => 12 case 12 => 13 case 13 => 14 case 14 => 15 case 15 => 16
    case 16 => 3 case 17 => 4 case 18 => 5 case 19 => 6 case 20 => 7 case 21 => 8 case 22 => 9 case 23 => 9
    case 24 => 25 case 25 => 7 case 26 => 8 case 27 => 9 case 28 => 15 case 29 => 3 case 30 => 4 case 31 => 5
    case 32 => 6 case 33 => 7 case 34 => 8 case 35 => 9 case 36 => -1 case 37 => -1 case 38 => 12 case 39 => 3
    case 40 => 4 case 41 => 5 case 42 => 6 case 43 => 7 case 44 => 8 case 45 => 9 case 46 => 5 case 47 => 6
    case 48 => 7 case 49 => 8 case 50 => 9 case 51 => 6 case 52 => 7 case 53 => 8 case _ => 9
  }

  type State = s: int | 0 <= s < NSTATES witness 0
  type Kind = k: int | 0 <= k < NTOKENS witness 0

  datatype Action = Shift(state: State) | Reduce(rule: int) | Fail

  function Default(s: State): Action {
    if yydefact(s) == 0 then Fail else Reduce(yydefact(s))
  }

  /** What the driver does in state s when the next token is k. */
  function Decide(s: State, k: Kind): Action {
    if yypact(s) == NINF then Default(s)
    else
      var i := yypact(s) + k;
      if i < 0 || LAST < i || yycheck(i) != k then Default(s)
      else if yytable(i) <= 0 then
        if yytable(i) == 0 || yytable(i) == -1 then Fail else Reduce(-yytable(i))
      else Shift(yytable(i))
  }

  /** The state entered after a nonterminal has been recognised on top of state s. */
  function Goto(symbol: int, s: State): State
    requires symbol == START_SYMBOL || symbol == EXP_SYMBOL
  {
    var i := yypgoto(symbol - NTOKENS) + s;
    if 0 <= i <= LAST && yycheck(i) == s then yytable(i) else yydefgoto(symbol - NTOKENS)
  }

  /** States in which an expression may begin: at the start, after "!", "(", an operator, "?" or ":". */
  predicate Starter(s: int) {
    s == 0 || s == 1 || s == 4 || 10 <= s <= 16 || s == 25
  }

  /** The state reached from a starter once an expression has been read. */
  function ExpState(s: State): State
    requires Starter(s)
  {
    if s == 0 then 6 else if s == 1 then 7 else if s == 4 then 8 else if s == 25 then 26 else s + 8
  }

  /** The weakest binding an expression may have after a starter: that of "?" is 3, of "*" 9, of "!" 10. */
  function MinLevel(s: State): int
    requires Starter(s)
  {
    if s == 1 then NOT else if 11 <= s <= 16 then s - 6 else QUESTION
  }

  /** The rule a complete expression state ends in, 0 where the expression has to be continued. */
  function Completes(s: State): int
    requires Starter(s)
  {
    if s == 0 then 2 else if s == 1 then 10 else if s == 25 then 3 else if 11 <= s <= 16 then s - 7 else 0
  }

  predicate Operator(k: int) {
    QUESTION <= k <= MULOP2
  }

  /** The starter an expression state follows. */
  function Before(s: State): State
    requires ExpIn(s)
    ensures Starter(Before(s)) && ExpState(Before(s)) == s
  {
    if s == 6 then 0 else if s == 7 then 1 else if s == 8 then 4 else if s == 26 then 25 else s - 8
  }

  /** States with an expression on top of the stack. */
  predicate ExpIn(s: int) {
    6 <= s <= 8 || 18 <= s <= 24 || s == 26
  }

  /**
   * The tables in short.  Where an expression may begin, the four tokens that begin one are shifted.  Behind
   * an expression an operator is shifted if it binds at least as tightly as MinLevel asks, ")" and ":" where
   * they can close, and otherwise the rule is finished.
   */
  function Act(s: State, k: Kind): Action {
    if Starter(s) then
      if k == NOT then Shift(1) else if k == NUMBER then Shift(2)
      else if k == VARIABLE then Shift(3) else if k == OPEN then Shift(4) else Fail
    else if ExpIn(s) then
      if Operator(k) && MinLevel(Before(s)) <= k then Shift(k + 7)
      else if s == 8 && k == CLOSE then Shift(17)
      else if s == 18 && k == COLON then Shift(25)
      else if Completes(Before(s)) == 0 then Fail else Reduce(Completes(Before(s)))
    else if s == 5 then
      if k == END then Shift(FINAL) else Fail
    else Reduce(if s == 2 then 12 else if s == 3 then 11 else if s == 17 then 13 else 1)
  }

  /** Number of symbols on the right of a rule. */
  function Length(rule: int): nat {
    if rule == 3 then 5 else if rule == 10 then 2 else if 4 <= rule <= 9 || rule == 13 then 3 else 1
  }

  /** For every state and token the tables and their short form agree. */
  lemma TablesAct(s: State, k: Kind)
    ensures Decide(s, k) == Act(s, k)
  {
    if Starter(s) {
      StarterDecides(s, k);
    } else if ExpIn(s) {
      ExpDecides(Before(s), k);
    } else {
      OtherDecides(s, k);
    }
  }

  lemma StarterDecides(s: State, k: Kind)
    requires Starter(s)
    ensures Decide(s, k) == Act(s, k)
  {
  }

  lemma ExpDecides(s: State, k: Kind)
    requires Starter(s)
    ensures Decide(ExpState(s), k) == Act(ExpState(s), k)
  {
    if s < 12 {
      FirstExpsDecide(s, k);
    } else if s < 15 {
      MiddleExpsDecide(s, k);
    } else {
      LastExpsDecide(s, k);
    }
  }

  lemma FirstExpsDecide(s: State, k: Kind)
    requires s in {0, 1, 4, 10, 11}
    ensures Decide(ExpState(s), k) == Act(ExpState(s), k)
  {
  }

  lemma MiddleExpsDecide(s: State, k: Kind)
    requires s in {12, 13, 14}
    ensures Decide(ExpState(s), k) == Act(ExpState(s), k)
  {
  }

  lemma LastExpsDecide(s: State, k: Kind)
    requires s in {15, 16, 25}
    ensures Decide(ExpState(s), k) == Act(ExpState(s), k)
  {
  }

  lemma OtherDecides(s: State, k: Kind)
    requires s in {2, 3, 5, 9, 17}
    ensures Decide(s, k) == Act(s, k)
  {
  }

  lemma RuleLengths(rule: int)
    requires 2 <= rule <= 13
    ensures yyr2(rule) == Length(rule)
    ensures yyr1(rule) == if rule == 2 then START_SYMBOL else EXP_SYMBOL
  {
  }

  lemma GotoIs(s: State)
    ensures Starter(s) ==> Goto(EXP_SYMBOL, s) == ExpState(s)
    ensures s == 0 ==> Goto(START_SYMBOL, s) == 5
  {
  }

  /** No state has a transition on the error token, so error recovery pops every state and gives up. */
  lemma ErrorNeverShifts(s: State)
    ensures !Decide(s, ERROR).Shift?
  {
  }
}
