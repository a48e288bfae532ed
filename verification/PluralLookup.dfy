/** Choosing the variant of a translation: a message holds its variants one behind the other, each ended by NUL. */
module PluralLookup {
  import opened PluralGrammar
  import opened PluralEval

  /** A message as it is stored: its last character ends its last variant. */
  predicate Terminated(s: string) {
    s != "" && s[|s| - 1] == '\0'
  }

  /** The characters up to the first NUL, as a reader of the C string at the start of s sees them. */
  function CString(s: string): (v: string)
    requires Terminated(s)
    ensures |v| < |s| && s[..|v|] == v && s[|v|] == '\0' && '\0' !in v
  {
    if s[0] == '\0' then "" else [s[0]] + CString(s[1..])
  }

  function Variants(s: string): (vs: seq<string>)
    requires s == "" || Terminated(s)
  {
    if s == "" then [] else [CString(s)] + Variants(s[|CString(s)| + 1..])
  }

  function Join(vs: seq<string>): string {
    if vs == [] then "" else vs[0] + "\0" + Join(vs[1..])
  }

  lemma CutAtNul(s: string)
    requires Terminated(s)
    ensures
      var v := CString(s);
      s == v + "\0" + s[|v| + 1..] && s[..|v| + 1] == v + "\0" && (s[|v| + 1..] == "" || Terminated(s[|v| + 1..]))
  {
    var v := CString(s);
    assert s[|v|..|v| + 1] == "\0";
    assert s == s[..|v|] + s[|v|..|v| + 1] + s[|v| + 1..];
  }

  /** A message is its variants one behind the other, and no variant contains a NUL. */
  lemma {:induction false} VariantsJoin(s: string)
    requires s == "" || Terminated(s)
    ensures Join(Variants(s)) == s
    ensures forall i :: 0 <= i < |Variants(s)| ==> '\0' !in Variants(s)[i]
    ensures s != "" ==> Variants(s) != []
  {
    if s != "" {
      CutAtNul(s);
      VariantsJoin(s[|CString(s)| + 1..]);
      assert Variants(s)[1..] == Variants(s[|CString(s)| + 1..]);
    }
  }

  datatype Choice = At(place: nat) | Signal

  /** At place p starts the variant number k of the message, or the first one if there are no more than k. */
  predicate VariantAt(s: string, k: nat, p: nat)
    requires Terminated(s)
  {
    var vs := Variants(s);
    var i := if k < |vs| then k else 0;
    i < |vs| && p < |s| && s[..p] == Join(vs[..i]) && Terminated(s[p..]) && CString(s[p..]) == vs[i]
  }

  /**
   * plural_lookup: the place in the translation where the chosen variant starts.  It is the one the index names, and
   * the first one if the index is not below nplurals or there are fewer variants.  Signal stands for a division by zero
   * while the index is computed.
   */
  method PluralLookup(plural: Expression, nplurals: Word, n: Word, translation: string) returns (c: Choice)
    requires WellFormed(plural) && Terminated(translation)
    ensures Shaped(plural) && (c.Signal? <==> Eval(plural, n) == DivisionByZero)
    ensures c.At? ==>
      && Eval(plural, n).Yields?
      && VariantAt(translation, if Eval(plural, n).value < nplurals then Eval(plural, n).value else 0, c.place)
  {
    WellFormedEvaluates(plural, n);
    var value := Eval(plural, n);
    if !value.Yields? {
      return Signal;
    }
    var index: int := value.value;
    if index >= nplurals {
      index := 0;
    }
    var p := SkipVariants(translation, index);
    return At(p);
  }

  /** The variants in done have been passed on the way to p. */
  predicate Passed(s: string, p: nat, done: seq<string>)
    requires Terminated(s)
  {
    p < |s| && Terminated(s[p..]) && Variants(s) == done + Variants(s[p..]) && s[..p] == Join(done)
  }

  /** The loop of plural_lookup. */
  method SkipVariants(translation: string, skip: nat) returns (p: nat)
    requires Terminated(translation)
    ensures VariantAt(translation, skip, p)
  {
    var index: nat := skip;
    p := 0;
    ghost var done: seq<string> := [];
    NothingPassed(translation);
    while index > 0
      invariant index <= skip && |done| == skip - index && Passed(translation, p, done)
    {
      index := index - 1;
      ghost var next;
      next, done := PassOne(translation, p, done);
      p := FindNul(translation, p);
      p := p + 1;
      if p >= |translation| {
        FirstFound(translation, skip);
        return 0;
      }
    }
    Found(translation, p, done);
  }

  lemma NothingPassed(s: string)
    requires Terminated(s)
    ensures Passed(s, 0, [])
  {
    assert s[0..] == s;
    assert [] + Variants(s) == Variants(s);
  }

  /** One variant more, unless the message ends behind it. */
  lemma PassOne(s: string, p: nat, done: seq<string>) returns (next: nat, done': seq<string>)
    requires Terminated(s) && Passed(s, p, done)
    ensures next == p + |CString(s[p..])| + 1 <= |s| && |done'| == |done| + 1
    ensures if next < |s| then Passed(s, next, done') else |Variants(s)| == |done'|
  {
    var v := CString(s[p..]);
    next := p + |v| + 1;
    done' := done + [v];
    CutAtNul(s[p..]);
    NextPart(s, p, |v| + 1, next);
    HeadVariant(s[p..], v, s[next..]);
    AppendBoth(Variants(s), done, v, done', Variants(s[p..]), Variants(s[next..]));
    JoinsOn(s[..next], s[..p], v, done, done');
  }

  lemma HeadVariant(s: string, v: string, rest: string)
    requires Terminated(s) && v == CString(s) && rest == s[|v| + 1..] && (rest == "" || Terminated(rest))
    ensures Variants(s) == [v] + Variants(rest)
  {
  }

  lemma AppendBoth(
      all: seq<string>, done: seq<string>, v: string, done': seq<string>, vs: seq<string>, rest: seq<string>)
    requires all == done + vs && vs == [v] + rest && done' == done + [v]
    ensures all == done' + rest && |all| == |done'| + |rest|
  {
  }

  lemma JoinsOn(t: string, before: string, v: string, done: seq<string>, done': seq<string>)
    requires t == before + (v + "\0") && before == Join(done) && done' == done + [v]
    ensures t == Join(done')
  {
    JoinSnoc(done, v);
  }

  lemma NextPart(s: string, p: nat, n: nat, next: nat)
    requires next == p + n <= |s|
    ensures s[p..][n..] == s[next..] && s[..next] == s[..p] + s[p..][..n]
  {
  }

  lemma Found(s: string, p: nat, done: seq<string>)
    requires Terminated(s) && Passed(s, p, done)
    ensures VariantAt(s, |done|, p)
  {
    var vs := done + Variants(s[p..]);
    assert vs[..|done|] == done && vs[|done|] == CString(s[p..]);
  }

  lemma FirstFound(s: string, k: nat)
    requires Terminated(s) && |Variants(s)| <= k
    ensures VariantAt(s, k, 0)
  {
    NothingPassed(s);
    Found(s, 0, []);
  }

  lemma {:induction false} JoinSnoc(vs: seq<string>, v: string)
    ensures Join(vs + [v]) == Join(vs) + (v + "\0")
  {
    if vs == [] {
      assert Join([v]) == v + "\0" + Join([]);
    } else {
      assert (vs + [v])[1..] == vs[1..] + [v];
      JoinSnoc(vs[1..], v);
    }
  }

  /** strchr (p, '\0') */
  method FindNul(s: string, start: nat) returns (p: nat)
    requires start < |s| && Terminated(s)
    ensures Terminated(s[start..]) && p == start + |CString(s[start..])| && p < |s|
  {
    p := start;
    while s[p] != '\0'
      invariant start <= p < |s|
      invariant |CString(s[start..])| == p - start + |CString(s[p..])|
      decreases |s| - p
    {
      assert s[p..][1..] == s[p + 1..];
      p := p + 1;
    }
  }
}
