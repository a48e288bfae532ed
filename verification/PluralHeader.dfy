/** What a catalogue header announces, in terms of its text. */
module PluralHeader {
  import opened Options
  import opened CStrings
  import opened PluralGrammar
  import opened PluralAutomaton
  import opened PluralParsing
  import opened PluralReading
  import opened PluralLexer
  import opened PluralSpelling
  import opened PluralText
  import opened PluralEval

  /** The pattern occurs in s at i, and not before. */
  predicate FirstAt(s: string, pattern: string, i: nat) {
    OccursAt(s, pattern, i) && forall k :: 0 <= k < i ==> !OccursAt(s, pattern, k)
  }

  /** Where a pattern occurs the text consists of what is before it, the pattern, and what is behind it. */
  lemma OccursIs(s: string, pattern: string, i: nat)
    ensures OccursAt(s, pattern, i) <==>
      i + |pattern| <= |s| && s == s[..i] + pattern + s[i + |pattern|..]
  {
    if i + |pattern| <= |s| {
      assert s == s[..i] + s[i..i + |pattern|] + s[i + |pattern|..];
      assert (s[..i] + pattern + s[i + |pattern|..])[i..i + |pattern|] == pattern;
    }
  }

  lemma FindsFirst(s: string, pattern: string, i: nat)
    requires FirstAt(s, pattern, i)
    ensures Find(s, pattern, 0) == Some(i)
  {
    var r := Find(s, pattern, 0);
    assert r.Some? ==> r.value == i;
  }

  /** White space in the sense of isspace: the blank, and the control characters from the tab to the return. */
  predicate White(c: char) {
    c == ' ' || 9 <= c as int <= 13
  }

  lemma {:induction false} SpacesAreSkipped(s: string, i: nat, k: nat)
    requires i <= k <= |s| && (forall j :: i <= j < k ==> White(s[j])) && !White(At(s, k))
    ensures SkipSpaces(s[i..]) == s[k..]
    decreases k - i
  {
    if i < k {
      assert s[i..][1..] == s[i + 1..];
      SpacesAreSkipped(s, i + 1, k);
    } else {
      assert k < |s| ==> s[k..][0] == s[k];
    }
  }

  /** The number that is kept: strtoul has the largest word stand for whatever is no word. */
  function Kept(n: nat): Word {
    if n < WORD_LIMIT then n else WORD_LIMIT - 1
  }

  /**
   * A header announces a phrase and a number if and only if the first "plural=" is followed by the phrase, the first
   * "nplurals=" by the number, perhaps with white space in front, and the phrase fits the parser's stack.
   */
  lemma HeaderAnnounces(header: string, i: nat, j: nat, m: nat, d: nat, x: Announcement)
    requires FirstAt(header, "plural=", i) && FirstAt(header, "nplurals=", j) && j + 9 <= m <= d <= |header|
    requires (forall k :: j + 9 <= k < m ==> White(header[k])) && !White(At(header, m))
    requires (forall k :: m <= k < d ==> Digit(header[k])) && !Digit(At(header, d))
    ensures Announced(header) == Some(x) <==>
      && m < d && x.nplurals == Kept(Decimal(header[m..d]))
      && Grammatical(x.phrase) && Tokens(header[i + 7..]) == Yield(x.phrase) + [END_TOKEN]
      && 1 + Depth(x.phrase) < MAX_DEPTH
  {
    AnnouncedIs(header, i, j);
    CountIs(header, j + 9, m, d);
    AnnouncingIs(header[m..], d - m, header[i + 7..], x);
  }

  lemma AnnouncedIs(header: string, i: nat, j: nat)
    requires FirstAt(header, "plural=", i) && FirstAt(header, "nplurals=", j)
    ensures i + 7 <= |header| && j + 9 <= |header|
    ensures Announced(header) == Announcing(SkipSpaces(header[j + 9..]), header[i + 7..])
  {
    FindsFirst(header, "plural=", i);
    FindsFirst(header, "nplurals=", j);
  }

  /** The number at m, behind the white space from j on. */
  lemma CountIs(s: string, j: nat, m: nat, d: nat)
    requires j <= m <= d <= |s| && (forall k :: j <= k < m ==> White(s[k])) && !White(At(s, m))
    requires (forall k :: m <= k < d ==> Digit(s[k])) && !Digit(At(s, d))
    ensures SkipSpaces(s[j..]) == s[m..] && DigitRun(s[m..]) == d - m && s[m..][..d - m] == s[m..d]
  {
    SpacesAreSkipped(s, j, m);
    DigitRunIs(s[m..], d - m);
  }

  lemma AnnouncingIs(count: string, k: nat, text: string, x: Announcement)
    requires DigitRun(count) == k
    ensures Announcing(count, text) == Some(x) <==>
      && k > 0 && x.nplurals == Kept(Decimal(count[..k]))
      && Grammatical(x.phrase) && Tokens(text) == Yield(x.phrase) + [END_TOKEN] && 1 + Depth(x.phrase) < MAX_DEPTH
  {
    ParserDecidesGrammar(Tokens(text), x.phrase);
  }

  /** Without either of the two there is no announcement. */
  lemma NothingAnnounced(header: string)
    requires (forall i :: !OccursAt(header, "plural=", i)) || (forall i :: !OccursAt(header, "nplurals=", i))
    ensures Announced(header) == Option.None
  {
  }

  /** Blanks, and then nothing, a NUL, a ";" or the end of the line. */
  predicate Ends(tail: string, k: nat) {
    && k <= |tail| && (forall i :: 0 <= i < k ==> tail[i] == ' ' || tail[i] == '\t')
    && (k == |tail| || tail[k] == '\0' || tail[k] == ';' || tail[k] == '\n')
  }

  /**
   * Whatever expression and number are written into a header are announced: an expression printed behind "plural=" and
   * ended as usual, and a decimal number behind "nplurals=".
   */
  lemma HeaderRoundTrip(
      header: string, e: Expression, nplurals: Word, b: string, tail: string, k: nat, c: string, w: string,
      rest: string)
    requires WellFormed(e) && 1 + Depth(Write(e)) < MAX_DEPTH && Ends(tail, k)
    requires header == b + "plural=" + Print(e, tail) && FirstAt(header, "plural=", |b|)
    requires header == c + "nplurals=" + (w + DecimalText(nplurals) + rest) && FirstAt(header, "nplurals=", |c|)
    requires (forall i :: 0 <= i < |w| ==> White(w[i])) && !Digit(At(rest, 0))
    ensures Announced(header) == Some(Announcement(Write(e), nplurals))
    ensures Grammatical(Write(e)) && Tree(Write(e)) == e
  {
    PrintedTokens(e, tail, k);
    PhraseAnnounced(header, Write(e), nplurals, b, Print(e, tail), c, w, rest);
  }

  lemma PhraseAnnounced(
      header: string, p: Phrase, nplurals: Word, b: string, text: string, c: string, w: string, rest: string)
    requires Grammatical(p) && 1 + Depth(p) < MAX_DEPTH && Tokens(text) == Yield(p) + [END_TOKEN]
    requires header == b + "plural=" + text && FirstAt(header, "plural=", |b|)
    requires header == c + "nplurals=" + (w + DecimalText(nplurals) + rest) && FirstAt(header, "nplurals=", |c|)
    requires (forall i :: 0 <= i < |w| ==> White(w[i])) && !Digit(At(rest, 0))
    ensures Announced(header) == Some(Announcement(p, nplurals))
  {
    AnnouncedIs(header, |b|, |c|);
    TextStands(header, b + "plural=", text);
    TextStands(header, c + "nplurals=", w + DecimalText(nplurals) + rest);
    var count := SkipSpaces(header[|c| + 9..]);
    NumberRead(w, nplurals, rest);
    AnnouncingIs(count, DigitRun(count), text, Announcement(p, nplurals));
  }

  lemma NumberRead(w: string, n: nat, rest: string)
    requires (forall i :: 0 <= i < |w| ==> White(w[i])) && !Digit(At(rest, 0))
    ensures
      var count := SkipSpaces(w + DecimalText(n) + rest);
      DigitRun(count) > 0 && Decimal(count[..DigitRun(count)]) == n
  {
    var digits := DecimalText(n);
    var s, count := w + digits + rest, digits + rest;
    ThreeParts(w, digits, rest);
    SpacesAreSkipped(s, 0, |w|);
    DigitRunIs(count, |digits|);
    DecimalOfText(n);
  }

  lemma ThreeParts(w: string, digits: string, rest: string)
    requires digits != ""
    ensures
      var s, count := w + digits + rest, digits + rest;
      && s[0..] == s && s[|w|..] == count && At(s, |w|) == digits[0] && count[..|digits|] == digits
      && At(count, |digits|) == At(rest, 0)
  {
  }

  lemma PrintedTokens(e: Expression, tail: string, k: nat)
    requires WellFormed(e) && Ends(tail, k)
    ensures Grammatical(Write(e)) && Tree(Write(e)) == e
    ensures Tokens(Print(e, tail)) == Yield(Write(e)) + [END_TOKEN]
  {
    WriteIsGrammatical(e);
    YieldIsWritten(Write(e));
    EndOfExpression(tail, k);
    TokensReadBack(Yield(Write(e)), tail);
  }

  lemma TextStands(header: string, b: string, text: string)
    requires header == b + text
    ensures header[|b|..] == text
  {
  }
}
