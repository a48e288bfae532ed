/**
 * The lexer of plural expressions: from the text behind "plural=" to tokens.
 */
module PluralLexer {
  import opened CStrings
  import opened PluralTables
  import opened PluralGrammar
  import opened PluralParsing

  const YYEOF := 0
  const YYERRCODE := 256
  const LEX_EQUOP2 := 258
  const LEX_CMPOP2 := 259
  const LEX_ADDOP2 := 260
  const LEX_MULOP2 := 261
  const LEX_NUMBER := 262

  /** YYTRANSLATE: from the lexer's codes to the parser's token numbers; 2 stands for any other code. */
  function Translate(code: int): Kind {
    if code == YYEOF then END
    else if code == '!' as int then NOT
    else if code == '&' as int then AND
    else if code == '(' as int then OPEN
    else if code == ')' as int then CLOSE
    else if code == ':' as int then COLON
    else if code == '?' as int then QUESTION
    else if code == 'n' as int then VARIABLE
    else if code == '|' as int then OR
    else if code == YYERRCODE then ERROR
    else if code == LEX_EQUOP2 then EQUOP2
    else if code == LEX_CMPOP2 then CMPOP2
    else if code == LEX_ADDOP2 then ADDOP2
    else if code == LEX_MULOP2 then MULOP2
    else if code == LEX_NUMBER then NUMBER
    else 2
  }

  predicate Blank(c: char) {
    c == ' ' || c == '\t'
  }

  function SkipBlanks(s: string): (r: string)
    ensures |r| <= |s| && !Blank(At(r, 0))
  {
    if Blank(At(s, 0)) then SkipBlanks(s[1..]) else s
  }

  /** A code, the value that comes with it (None if the lexer stores none), and the text behind it. */
  datatype Lexeme = Lexeme(code: int, value: Value, rest: string)

  function Char(s: string): Lexeme
    requires s != ""
  {
    Lexeme(s[0] as int, None, s[1..])
  }

  function Op(code: int, op: Operation, s: string, k: nat): Lexeme
    requires k <= |s|
  {
    Lexeme(code, OpValue(op), s[k..])
  }

  /** A lexeme of one character. */
  function Single(s: string): (x: Lexeme)
    requires s != "" && s[0] != '\0' && !Digit(s[0]) && s[0] !in "=!&|<>"
    ensures x.code != YYEOF && |x.rest| < |s| && Lexical(Token(Translate(x.code), x.value))
  {
    var c := s[0];
    if c == '*' then Op(LEX_MULOP2, Mult, s, 1)
    else if c == '/' then Op(LEX_MULOP2, Divide, s, 1)
    else if c == '%' then Op(LEX_MULOP2, Module, s, 1)
    else if c == '+' then Op(LEX_ADDOP2, Plus, s, 1)
    else if c == '-' then Op(LEX_ADDOP2, Minus, s, 1)
    else if c == 'n' || c == '?' || c == ':' || c == '(' || c == ')' then Char(s)
    else Lexeme(YYERRCODE, None, s[1..])
  }

  /** A lexeme whose extent depends on the second character. */
  function Double(s: string): (x: Lexeme)
    requires s != "" && s[0] in "=!&|<>"
    ensures x.code != YYEOF && |x.rest| < |s| && Lexical(Token(Translate(x.code), x.value))
  {
    var c, next := s[0], At(s, 1);
    if c == '=' then
      if next == '=' then Op(LEX_EQUOP2, Equal, s, 2) else Lexeme(YYERRCODE, None, s[1..])
    else if c == '!' then
      if next == '=' then Op(LEX_EQUOP2, NotEqual, s, 2) else Char(s)
    else if c == '&' || c == '|' then
      if next == c then Lexeme(c as int, None, s[2..]) else Lexeme(YYERRCODE, None, s[1..])
    else if c == '<' then
      if next == '=' then Op(LEX_CMPOP2, LessOrEqual, s, 2) else Op(LEX_CMPOP2, LessThan, s, 1)
    else
      if next == '=' then Op(LEX_CMPOP2, GreaterOrEqual, s, 2) else Op(LEX_CMPOP2, GreaterThan, s, 1)
  }

  /** The lexeme at the start of a text that does not start with a blank. */
  function Word(s: string): (x: Lexeme)
    ensures x.code != YYEOF ==> |x.rest| < |s|
    ensures Lexical(Token(Translate(x.code), x.value))
    ensures x.code == YYEOF <==> Translate(x.code) == END
  {
    var c := At(s, 0);
    if c == '\0' || c == ';' || c == '\n' then Lexeme(YYEOF, None, s)
    else if Digit(c) then
      var k := DigitRun(s);
      Lexeme(LEX_NUMBER, NumValue(Wrap(Decimal(s[..k]))), s[k..])
    else if c in "=!&|<>" then Double(s)
    else Single(s)
  }

  function Lex(s: string): (x: Lexeme)
    ensures x.code != YYEOF ==> |x.rest| < |s|
  {
    Word(SkipBlanks(s))
  }

  lemma LexAtDigit(s: string)
    requires Digit(At(s, 0))
    ensures Lex(s) == Lexeme(LEX_NUMBER, NumValue(Wrap(Decimal(s[..DigitRun(s)]))), s[DigitRun(s)..])
  {
  }

  function TokenOf(x: Lexeme): Token {
    Token(Translate(x.code), x.value)
  }

  /** All tokens of a text, up to the end marker. */
  function Tokens(s: string): (tokens: seq<Token>)
    ensures Tokenised(tokens)
    decreases |s|
  {
    var x := Lex(s);
    [TokenOf(x)] + if x.code == YYEOF then [] else Tokens(x.rest)
  }

  lemma TokensUnfold(s: string)
    ensures Tokens(s) == [TokenOf(Lex(s))] + if Lex(s).code == YYEOF then [] else Tokens(Lex(s).rest)
  {
  }

  /** One step of the loop over digits, in the arithmetic of unsigned long. */
  function Accumulate(n: Word, d: nat): Word {
    (n * 10 % WORD_LIMIT + d) % WORD_LIMIT
  }

  function Wrap(n: nat): Word {
    n % WORD_LIMIT
  }

  /** Reducing modulo the word size after every digit is reducing once at the end. */
  lemma AccumulateWraps(n: nat, d: nat)
    ensures Accumulate(Wrap(n), d) == Wrap(10 * n + d)
  {
  }

  /** The loop at the start of yylex: up to the first character that is no blank. */
  method SkipWhite(text: string, pexp: nat) returns (exp: nat)
    requires pexp <= |text|
    ensures pexp <= exp <= |text| && text[exp..] == SkipBlanks(text[pexp..])
  {
    exp := pexp;
    while true
      invariant pexp <= exp <= |text| && SkipBlanks(text[exp..]) == SkipBlanks(text[pexp..])
      decreases |text| - exp
    {
      if At(text, exp) == '\0' {
        return;
      }
      if At(text, exp) != ' ' && At(text, exp) != '\t' {
        return;
      }
      assert text[exp..][1..] == text[exp + 1..];
      exp := exp + 1;
    }
  }

  lemma Suffixes(text: string, i: nat)
    requires i < |text|
    ensures At(text, i) == At(text[i..], 0) && At(text, i + 1) == At(text[i..], 1)
    ensures text[i..][1..] == text[i + 1..]
    ensures i + 2 <= |text| ==> text[i..][2..] == text[i + 2..]
  {
  }

  /** The switch of yylex, on the character at start. */
  method LexWord(text: string, start: nat, lval0: Value) returns (result: int, lval: Value, exp: nat)
    requires start <= |text| && !Blank(At(text, start))
    ensures start <= exp <= |text|
    ensures
      var x := Word(text[start..]);
      result == x.code && text[exp..] == x.rest && lval == if x.value == None then lval0 else x.value
  {
    lval := lval0;
    exp := start;
    if At(text, exp) == '\0' {
      return YYEOF, lval, exp;
    }
    Suffixes(text, exp);
    var c := At(text, exp);
    exp := exp + 1;
    if Digit(c) {
      result, lval, exp := LexNumber(text, exp);
      assert text[exp..] == text[start..][DigitRun(text[start..])..];
    } else if c in "=!&|<>" {
      result, lval, exp := LexDouble(text, exp, lval0);
    } else if c == ';' || c == '\n' {
      exp := exp - 1;
      result := YYEOF;
    } else {
      result, lval := LexSingle(text, exp, lval0);
    }
  }

  /**
   * yylex on the text from pexp on: the code and the value of the next lexeme, and the place behind it.  lval
   * keeps its old contents when the lexeme has no value.
   */
  method Yylex(text: string, pexp: nat, lval0: Value) returns (result: int, lval: Value, exp: nat)
    requires pexp <= |text|
    ensures pexp <= exp <= |text|
    ensures result == Lex(text[pexp..]).code && text[exp..] == Lex(text[pexp..]).rest
    ensures lval == if Lex(text[pexp..]).value == None then lval0 else Lex(text[pexp..]).value
  {
    exp := SkipWhite(text, pexp);
    assert At(text, exp) == At(text[exp..], 0);
    result, lval, exp := LexWord(text, exp, lval0);
  }

  /** The operators of one or two characters; the first is the one before start. */
  method LexDouble(text: string, start: nat, lval0: Value) returns (result: int, lval: Value, exp: nat)
    requires 0 < start <= |text| && text[start - 1] in "=!&|<>"
    ensures start <= exp <= |text|
    ensures
      var x := Double(text[start - 1..]);
      result == x.code && text[exp..] == x.rest && lval == if x.value == None then lval0 else x.value
  {
    Suffixes(text, start - 1);
    exp := start;
    lval := lval0;
    var c := text[exp - 1];
    if c == '=' {
      if At(text, exp) == '=' {
        exp := exp + 1;
        lval := OpValue(Equal);
        result := LEX_EQUOP2;
      } else {
        result := YYERRCODE;
      }
    } else if c == '!' {
      result := c as int;
      if At(text, exp) == '=' {
        exp := exp + 1;
        lval := OpValue(NotEqual);
        result := LEX_EQUOP2;
      }
    } else if c == '&' || c == '|' {
      result := c as int;
      if At(text, exp) == c {
        exp := exp + 1;
      } else {
        result := YYERRCODE;
      }
    } else if c == '<' {
      if At(text, exp) == '=' {
        exp := exp + 1;
        lval := OpValue(LessOrEqual);
      } else {
        lval := OpValue(LessThan);
      }
      result := LEX_CMPOP2;
    } else {
      if At(text, exp) == '=' {
        exp := exp + 1;
        lval := OpValue(GreaterOrEqual);
      } else {
        lval := OpValue(GreaterThan);
      }
      result := LEX_CMPOP2;
    }
  }

  /** The characters that stand for themselves, and those the lexer does not know; c is the one before exp. */
  method LexSingle(text: string, exp: nat, lval0: Value) returns (result: int, lval: Value)
    requires 0 < exp <= |text|
    requires var s := text[exp - 1..]; s[0] != '\0' && !Digit(s[0]) && s[0] !in "=!&|<>"
    ensures
      var x := Single(text[exp - 1..]);
      result == x.code && text[exp..] == x.rest && lval == if x.value == None then lval0 else x.value
  {
    lval := lval0;
    var c := text[exp - 1];
    if c == '*' || c == '/' || c == '%' {
      lval := OpValue(if c == '*' then Mult else if c == '/' then Divide else Module);
      result := LEX_MULOP2;
    } else if c == '+' || c == '-' {
      lval := OpValue(if c == '+' then Plus else Minus);
      result := LEX_ADDOP2;
    } else if c == 'n' || c == '?' || c == ':' || c == '(' || c == ')' {
      result := c as int;
    } else {
      result := YYERRCODE;
    }
  }

  /** One more digit: the two assignments to n wrap around separately. */
  method AddDigit(m: Word, c: char) returns (n: Word)
    requires Digit(c)
    ensures n == Accumulate(m, DigitValue(c))
  {
    n := m * 10 % WORD_LIMIT;
    n := (n + DigitValue(c)) % WORD_LIMIT;
  }

  /** The digits from the one before exp on, with the arithmetic of unsigned long. */
  method LexNumber(text: string, start: nat) returns (result: int, lval: Value, exp: nat)
    requires 0 < start <= |text| && Digit(text[start - 1])
    ensures result == LEX_NUMBER && start <= exp <= |text|
    ensures
      var s := text[start - 1..];
      exp == start - 1 + DigitRun(s) && lval == NumValue(Wrap(Decimal(s[..DigitRun(s)])))
  {
    ghost var s, k := text[start - 1..], 1;
    exp := start;
    var n: Word := DigitValue(text[exp - 1]);
    assert s[..1] == "" + [text[exp - 1]];
    DecimalSnoc("", text[exp - 1]);
    while '0' <= At(text, exp) <= '9'
      invariant 1 <= k <= DigitRun(s) && exp == start - 1 + k <= |text| && At(s, k) == At(text, exp)
      invariant n == Wrap(Decimal(s[..k]))
      decreases |text| - exp
    {
      NextDigit(s, k, n);
      n := AddDigit(n, At(text, exp));
      exp, k := exp + 1, k + 1;
    }
    lval := NumValue(n);
    result := LEX_NUMBER;
  }

  lemma NextDigit(s: string, k: nat, n: Word)
    requires k <= DigitRun(s) && Digit(At(s, k)) && n == Wrap(Decimal(s[..k]))
    ensures k < DigitRun(s) && Accumulate(n, DigitValue(s[k])) == Wrap(Decimal(s[..k + 1]))
  {
    assert s[..k + 1] == s[..k] + [s[k]];
    DecimalSnoc(s[..k], s[k]);
    AccumulateWraps(Decimal(s[..k]), DigitValue(s[k]));
  }
}
