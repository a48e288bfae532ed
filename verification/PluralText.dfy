/** Writing plural expressions as text, and reading back what was written. */
module PluralText {
  import opened CStrings
  import opened PluralTables
  import opened PluralGrammar
  import opened PluralAutomaton
  import opened PluralParsing
  import opened PluralReading
  import opened PluralLexer

  function DigitChar(d: nat): (c: char)
    requires d < 10
    ensures Digit(c) && DigitValue(c) == d
  {
    '0' + d as char
  }

  function DecimalText(n: nat): (s: string)
    ensures s != "" && forall i :: 0 <= i < |s| ==> Digit(s[i])
  {
    (if n < 10 then "" else DecimalText(n / 10)) + [DigitChar(n % 10)]
  }

  lemma {:induction false} DecimalOfText(n: nat)
    ensures Decimal(DecimalText(n)) == n
  {
    if n < 10 {
      DecimalSnoc("", DigitChar(n));
      assert DecimalText(n) == "" + [DigitChar(n)];
    } else {
      DecimalOfText(n / 10);
      DecimalSnoc(DecimalText(n / 10), DigitChar(n % 10));
    }
  }

  /** Tokens that occur in expressions. */
  predicate Printable(t: Token) {
    Lexical(t) && QUESTION <= t.kind
  }

  function OpText(op: Operation): string {
    match op
    case Mult => "*"
    case Divide => "/"
    case Module => "%"
    case Plus => "+"
    case Minus => "-"
    case LessThan => "<"
    case GreaterThan => ">"
    case LessOrEqual => "<="
    case GreaterOrEqual => ">="
    case Equal => "=="
    case NotEqual => "!="
    case _ => ""
  }

  function TextOf(t: Token): string
    requires Printable(t)
  {
    if t.kind == QUESTION then "?"
    else if t.kind == OR then "||"
    else if t.kind == AND then "&&"
    else if t.kind == NOT then "!"
    else if t.kind == NUMBER then DecimalText(t.value.num)
    else if t.kind == COLON then ":"
    else if t.kind == VARIABLE then "n"
    else if t.kind == OPEN then "("
    else if t.kind == CLOSE then ")"
    else OpText(t.value.op)
  }

  /** The tokens with a blank behind each, in front of a tail. */
  function Text(tokens: seq<Token>, tail: string): string
    requires forall i :: 0 <= i < |tokens| ==> Printable(tokens[i])
  {
    if tokens == [] then tail else TextOf(tokens[0]) + " " + Text(tokens[1..], tail)
  }

  lemma WrapsToItself(n: Word)
    ensures Wrap(n) == n
  {
  }

  lemma LexReadsNumber(n: Word, rest: string)
    ensures Lex(DecimalText(n) + " " + rest) == Lexeme(LEX_NUMBER, NumValue(n), " " + rest)
  {
    var a, b := DecimalText(n), " " + rest;
    assert a + " " + rest == a + b;
    var s := a + b;
    DigitRunIs(s, |a|);
    DecimalOfText(n);
    assert s[..|a|] == a && s[|a|..] == b;
    LexAtDigit(s);
    WrapsToItself(n);
  }

  lemma LexReadsOp(t: Token, rest: string)
    requires Printable(t) && EQUOP2 <= t.kind <= MULOP2
    ensures
      var x := Lex(OpText(t.value.op) + " " + rest);
      TokenOf(x) == t && x.rest == " " + rest
  {
    var s := OpText(t.value.op) + " " + rest;
    assert s[1..] == OpText(t.value.op)[1..] + " " + rest;
    if |OpText(t.value.op)| == 2 {
      assert s[2..] == " " + rest;
    } else {
      assert s[1..] == " " + rest;
    }
  }

  lemma LexReads(t: Token, rest: string)
    requires Printable(t)
    ensures
      var x := Lex(TextOf(t) + " " + rest);
      TokenOf(x) == t && x.rest == " " + rest
  {
    var s := TextOf(t) + " " + rest;
    if t.kind == NUMBER {
      LexReadsNumber(t.value.num, rest);
    } else if EQUOP2 <= t.kind <= MULOP2 {
      LexReadsOp(t, rest);
    } else if t.kind == OR || t.kind == AND {
      assert s[2..] == " " + rest;
    } else {
      assert s[1..] == " " + rest;
    }
  }

  lemma BlankIsSkipped(s: string)
    ensures Tokens(" " + s) == Tokens(s)
  {
    assert (" " + s)[1..] == s;
  }

  /** What is written before a text the lexer takes for the end is read back token by token. */
  lemma {:induction false} TokensReadBack(tokens: seq<Token>, tail: string)
    requires forall i :: 0 <= i < |tokens| ==> Printable(tokens[i])
    requires Lex(tail).code == YYEOF
    ensures Tokens(Text(tokens, tail)) == tokens + [END_TOKEN]
  {
    if tokens != [] {
      var rest := Text(tokens[1..], tail);
      LexReads(tokens[0], rest);
      TokensUnfold(TextOf(tokens[0]) + " " + rest);
      BlankIsSkipped(rest);
      TokensReadBack(tokens[1..], tail);
      assert tokens == [tokens[0]] + tokens[1..];
    }
  }

  lemma {:induction false} YieldIsWritten(p: Phrase)
    requires Grammatical(p)
    ensures forall i :: 0 <= i < |Yield(p)| ==> Printable(Yield(p)[i])
  {
    match p
    case Number(_) =>
    case Variable =>
    case Paren(q) => YieldIsWritten(q);
    case Not(q) => YieldIsWritten(q);
    case Binary(op, l, r) =>
      YieldIsWritten(l);
      YieldIsWritten(r);
      assert Printable(OpToken(op));
    case Conditional(c, y, n) =>
      YieldIsWritten(c);
      YieldIsWritten(y);
      YieldIsWritten(n);
  }

  /** The text of an expression. */
  function Print(e: Expression, tail: string): string
    requires WellFormed(e)
  {
    WriteIsGrammatical(e);
    YieldIsWritten(Write(e));
    Text(Yield(Write(e)), tail)
  }

  /** Printing an expression with the needed parentheses and parsing the text gives the expression back. */
  lemma RoundTrip(e: Expression, tail: string)
    requires WellFormed(e) && Lex(tail).code == YYEOF
    ensures Parse(Tokens(Print(e, tail))) ==
      if 1 + Depth(Write(e)) < MAX_DEPTH then Accepted(Write(e)) else Exhausted
    ensures Grammatical(Write(e)) && Tree(Write(e)) == e
  {
    WriteIsGrammatical(e);
    YieldIsWritten(Write(e));
    TokensReadBack(Yield(Write(e)), tail);
    ParseIsComplete(MAX_DEPTH, Write(e));
  }
}
