/** How the tokens of plural expressions are spelled, and what ends an expression, character by character. */
module PluralSpelling {
  import opened CStrings
  import opened PluralTables
  import opened PluralGrammar
  import opened PluralParsing
  import opened PluralLexer

  /** The lexeme at the start of s is token t, and the text goes on k characters later. */
  predicate Spells(s: string, t: Token, k: nat) {
    k <= |s| && TokenOf(Lex(s)) == t && Lex(s).rest == s[k..]
  }

  /** An operator of two characters, whatever follows. */
  lemma LongOperators(s: string)
    requires |s| >= 2
    ensures s[..2] == "||" ==> Spells(s, OpToken(Lor), 2)
    ensures s[..2] == "&&" ==> Spells(s, OpToken(Land), 2)
    ensures s[..2] == "==" ==> Spells(s, OpToken(Equal), 2)
    ensures s[..2] == "!=" ==> Spells(s, OpToken(NotEqual), 2)
    ensures s[..2] == "<=" ==> Spells(s, OpToken(LessOrEqual), 2)
    ensures s[..2] == ">=" ==> Spells(s, OpToken(GreaterOrEqual), 2)
  {
    assert s[0] == s[..2][0] && s[1] == s[..2][1];
  }

  /** An operator of one character, where it is not the start of a longer one. */
  lemma ShortOperators(s: string)
    requires s != ""
    ensures s[0] == '<' && At(s, 1) != '=' ==> Spells(s, OpToken(LessThan), 1)
    ensures s[0] == '>' && At(s, 1) != '=' ==> Spells(s, OpToken(GreaterThan), 1)
    ensures s[0] == '+' ==> Spells(s, OpToken(Plus), 1)
    ensures s[0] == '-' ==> Spells(s, OpToken(Minus), 1)
    ensures s[0] == '*' ==> Spells(s, OpToken(Mult), 1)
    ensures s[0] == '/' ==> Spells(s, OpToken(Divide), 1)
    ensures s[0] == '%' ==> Spells(s, OpToken(Module), 1)
    ensures s[0] == '!' && At(s, 1) != '=' ==> Spells(s, Token(NOT, None), 1)
  {
  }

  /** The other tokens; a number goes as far as there are digits. */
  lemma Operands(s: string, k: nat)
    requires s != ""
    ensures s[0] == 'n' ==> Spells(s, Token(VARIABLE, None), 1)
    ensures s[0] == '?' ==> Spells(s, Token(QUESTION, None), 1)
    ensures s[0] == ':' ==> Spells(s, Token(COLON, None), 1)
    ensures s[0] == '(' ==> Spells(s, Token(OPEN, None), 1)
    ensures s[0] == ')' ==> Spells(s, Token(CLOSE, None), 1)
    ensures 0 < k <= |s| && (forall i :: 0 <= i < k ==> '0' <= s[i] <= '9') && !('0' <= At(s, k) <= '9') ==>
      Spells(s, Token(NUMBER, NumValue(Decimal(s[..k]) % WORD_LIMIT)), k)
  {
    if 0 < k <= |s| && (forall i :: 0 <= i < k ==> '0' <= s[i] <= '9') && !('0' <= At(s, k) <= '9') {
      DigitRunIs(s, k);
      LexAtDigit(s);
    }
  }

  /** Anything else is an error, which no phrase holds, and of which one character is taken. */
  lemma Errors(s: string)
    requires s != "" && !Blank(s[0]) && s[0] !in "\0;\n0123456789n?:()+-*/%<>!"
    requires |s| >= 2 ==> s[..2] != "==" && s[..2] != "&&" && s[..2] != "||"
    ensures Spells(s, Token(ERROR, None), 1)
  {
    if |s| >= 2 {
      assert s[0] == s[1] ==> s[..2] == [s[0], s[0]];
    }
    DigitIs(s[0]);
  }

  /** Blanks and tabs in front of a lexeme are passed over. */
  lemma {:induction false} BlanksAreSkipped(s: string, k: nat)
    requires k <= |s| && forall i :: 0 <= i < k ==> s[i] == ' ' || s[i] == '\t'
    ensures Lex(s) == Lex(s[k..])
  {
    if k > 0 {
      assert s[1..][k - 1..] == s[k..];
      BlanksAreSkipped(s[1..], k - 1);
    } else {
      assert s[0..] == s;
    }
  }

  /**
   * What ends an expression: the end of the text, a NUL, a ";" or the end of the line, behind any blanks.  The lexer
   * stays there.  k is the place of the first character that is neither a blank nor a tab.
   */
  lemma EndOfExpression(s: string, k: nat)
    requires k <= |s| && forall i :: 0 <= i < k ==> s[i] == ' ' || s[i] == '\t'
    requires k < |s| ==> s[k] != ' ' && s[k] != '\t'
    ensures Lex(s).code == YYEOF <==> k == |s| || s[k] == '\0' || s[k] == ';' || s[k] == '\n'
    ensures Lex(s).code == YYEOF ==> Spells(s, END_TOKEN, k) && Tokens(s) == [END_TOKEN]
  {
    BlanksAreSkipped(s, k);
    assert At(s, k) == At(s[k..], 0);
    TokensUnfold(s);
  }
}
