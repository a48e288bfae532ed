/**
 * Whole format strings: which texts are understood, what the directives of one are recorded as, which arguments they
 * take, and what the table of arguments says in the end.
 */
module PrintfFormat {
  import opened Options
  import opened PrintfArguments
  import opened PrintfSyntax
  import opened PrintfGrammar
  import opened PrintfOrder

  /** A directive in a format, with the place of its "%". */
  datatype Piece = Piece(start: nat, spec: Spec)

  function End(q: Piece): nat {
    ConversionStart(q.spec, q.start) + 1
  }

  /** From cp on the format consists of just these directives, and text without a percent sign around them. */
  predicate Spelled(s: string, cp: nat, ps: seq<Piece>)
    decreases |ps|
  {
    if ps == [] then Plain(s, cp, |s|)
    else
      && Plain(s, cp, ps[0].start) && IsSpec(ps[0].spec) && Spells(s, ps[0].start, ps[0].spec)
      && Spelled(s, End(ps[0]), ps[1..])
  }

  predicate AllSpecs(ps: seq<Piece>) {
    forall k :: 0 <= k < |ps| ==> IsSpec(ps[k].spec)
  }

  lemma {:induction false} SpelledSpecs(s: string, cp: nat, ps: seq<Piece>)
    requires Spelled(s, cp, ps)
    ensures AllSpecs(ps)
    decreases |ps|
  {
    if ps != [] {
      SpelledSpecs(s, End(ps[0]), ps[1..]);
      assert forall k :: 0 < k < |ps| ==> ps[k] == ps[1..][k - 1];
    }
  }

  /** The requests of all directives in the order of the text. */
  function AllRequests(ps: seq<Piece>): seq<Request>
    requires AllSpecs(ps)
  {
    if ps == [] then [] else Requests(ps[0].spec) + AllRequests(ps[1..])
  }

  /** The uses of all directives as they are recorded. */
  function AllUses(ds: seq<Directive>, ps: seq<Piece>): seq<Use>
    requires |ds| == |ps| && AllSpecs(ps)
    decreases |ps|
  {
    if ps == [] then [] else UsesOf(ds[0], OwnType(ps[0].spec)) + AllUses(ds[1..], ps[1..])
  }

  /** Every directive is recorded as it stands, and their uses answer their requests. */
  predicate Understood(ps: seq<Piece>, ds: seq<Directive>, posn: nat)
    requires AllSpecs(ps)
  {
    && |ds| == |ps| && (forall k :: 0 <= k < |ps| ==> Describes(ds[k], ps[k].spec, ps[k].start))
    && Answer(AllUses(ds, ps), AllRequests(ps), posn)
  }

  /** There is only one way to answer requests. */
  lemma AnswersAre(uses: seq<Use>, uses': seq<Use>, rs: seq<Request>, posn: nat)
    requires Answer(uses, rs, posn) && Answer(uses', rs, posn)
    ensures uses == uses'
  {
    forall i | 0 <= i < |rs|
      ensures uses[i] == uses'[i]
    {
      assert Meets(uses[i], rs[i], posn + Regulars(rs[..i])) && Meets(uses'[i], rs[i], posn + Regulars(rs[..i]));
    }
  }

  /** No argument is wanted with two types. */
  predicate Consistent(uses: seq<Use>) {
    forall i, j :: 0 <= i < j < |uses| && uses[i].index == uses[j].index ==> uses[i].x == uses[j].x
  }

  predicate Typed(uses: seq<Use>) {
    forall i :: 0 <= i < |uses| ==> uses[i].x != TypeNone
  }

  /** The table agrees with what has been said about its arguments already. */
  predicate AllAgree(t: Table, uses: seq<Use>) {
    forall i :: 0 <= i < |uses| ==> Agrees(t, uses[i].index, uses[i].x)
  }

  lemma AgreesAfter(t: Table, u: Use, v: Use)
    requires Agrees(t, u.index, u.x) && u.x != TypeNone
    ensures Agrees(Registered(t, u.index, u.x), v.index, v.x) <==>
      if u.index == v.index then u.x == v.x else Agrees(t, v.index, v.x)
  {
  }

  /** Uses can be registered if and only if they contradict neither the table nor each other. */
  lemma {:induction false} RegisterAllIff(t: Table, uses: seq<Use>)
    requires Typed(uses)
    ensures RegisterAll(t, uses).Some? <==> AllAgree(t, uses) && Consistent(uses)
    decreases |uses|
  {
    if uses != [] {
      var u, rest := uses[0], uses[1..];
      assert forall i :: 0 < i < |uses| ==> uses[i] == rest[i - 1];
      if Agrees(t, u.index, u.x) {
        var t' := Registered(t, u.index, u.x);
        RegisterAllIff(t', rest);
        forall i | 0 <= i < |rest|
          ensures Agrees(t', rest[i].index, rest[i].x) <==>
            if u.index == rest[i].index then u.x == rest[i].x else Agrees(t, rest[i].index, rest[i].x)
        {
          AgreesAfter(t, u, rest[i]);
        }
        RestAgrees(t, t', u, rest, uses);
      }
    }
  }

  lemma RestAgrees(t: Table, t': Table, u: Use, rest: seq<Use>, uses: seq<Use>)
    requires uses == [u] + rest && Agrees(t, u.index, u.x)
    requires forall i :: 0 <= i < |rest| ==>
      (Agrees(t', rest[i].index, rest[i].x) <==>
        if u.index == rest[i].index then u.x == rest[i].x else Agrees(t, rest[i].index, rest[i].x))
    ensures AllAgree(t', rest) && Consistent(rest) <==> AllAgree(t, uses) && Consistent(uses)
  {
    assert forall i :: 0 < i < |uses| ==> uses[i] == rest[i - 1];
    if AllAgree(t, uses) && Consistent(uses) {
      forall i | 0 <= i < |rest|
        ensures Agrees(t', rest[i].index, rest[i].x)
      {
        assert uses[i + 1] == rest[i] && uses[0] == u;
      }
      forall i, j | 0 <= i < j < |rest| && rest[i].index == rest[j].index
        ensures rest[i].x == rest[j].x
      {
        assert uses[i + 1] == rest[i] && uses[j + 1] == rest[j];
      }
    }
  }

  predicate Unused(uses: seq<Use>, j: nat) {
    forall i :: 0 <= i < |uses| ==> uses[i].index != j
  }

  /** The table of some uses: they find their types there, other entries have none, and the last entry is used. */
  predicate TableOf(t: Table, uses: seq<Use>) {
    && (forall i :: 0 <= i < |uses| ==> HasUse(t, uses[i]))
    && (forall j :: 0 <= j < |t| && Unused(uses, j) ==> t[j] == TypeNone)
    && (|t| > 0 ==> !Unused(uses, |t| - 1))
  }

  lemma TableOfSnoc(t: Table, uses: seq<Use>, u: Use)
    requires TableOf(t, uses) && Typed(uses) && Agrees(t, u.index, u.x) && u.x != TypeNone
    ensures TableOf(Registered(t, u.index, u.x), uses + [u])
  {
    var t', all := Registered(t, u.index, u.x), uses + [u];
    assert all[|uses|] == u;
    assert forall i :: 0 <= i < |uses| ==> all[i] == uses[i] && HasUse(t, uses[i]);
    forall j | 0 <= j < |t'| && Unused(all, j)
      ensures t'[j] == TypeNone
    {
      assert u.index != j;
      assert Unused(uses, j);
    }
    if |t'| == |t| > 0 {
      var i :| 0 <= i < |uses| && uses[i].index == |t| - 1;
      assert all[i].index == |t'| - 1;
    }
  }

  lemma SplitLast(uses: seq<Use>)
    requires uses != []
    ensures uses == uses[..|uses| - 1] + [uses[|uses| - 1]]
  {
  }

  lemma RegisterLast(uses: seq<Use>, u: Use)
    ensures RegisterAll([], uses + [u]) ==
      var t := RegisterAll([], uses);
      if t == Option.None || !Agrees(t.value, u.index, u.x) then Option.None
      else Some(Registered(t.value, u.index, u.x))
  {
    RegisterAllConcat([], uses, [u]);
    assert [u][1..] == [];
  }

  /** The table that registering some uses makes is the table of these. */
  lemma {:induction false} RegisteredTable(uses: seq<Use>) returns (t: Table)
    requires Typed(uses) && RegisterAll([], uses).Some?
    ensures RegisterAll([], uses) == Some(t) && TableOf(t, uses)
  {
    if uses == [] {
      t := [];
    } else {
      var first, u := uses[..|uses| - 1], uses[|uses| - 1];
      SplitLast(uses);
      RegisterLast(first, u);
      var t' := RegisteredTable(first);
      TableOfSnoc(t', first, u);
      t := Registered(t', u.index, u.x);
    }
  }

  /** Text without a percent sign is passed over. */
  lemma {:induction false} PlainIsSkipped(s: string, cp: nat, e: nat, posn: nat, t: Table)
    requires Plain(s, cp, e)
    ensures FormatAt(s, cp, posn, t) == FormatAt(s, e, posn, t)
    decreases e - cp
  {
    if cp < e {
      PlainIsSkipped(s, cp + 1, e, posn, t);
    }
  }

  lemma UsesCons(q: Piece, ps: seq<Piece>, d: Directive, ds: seq<Directive>)
    requires IsSpec(q.spec) && AllSpecs(ps) && |ds| == |ps|
    ensures AllSpecs([q] + ps) && AllRequests([q] + ps) == Requests(q.spec) + AllRequests(ps)
    ensures AllUses([d] + ds, [q] + ps) == UsesOf(d, OwnType(q.spec)) + AllUses(ds, ps)
  {
    assert ([q] + ps)[1..] == ps && ([d] + ds)[1..] == ds;
    assert forall k :: 0 < k < |ps| + 1 ==> ([q] + ps)[k] == ps[k - 1];
  }

  lemma UnderstoodCons(q: Piece, ps: seq<Piece>, r: Reading, ds: seq<Directive>, posn: nat)
    requires IsSpec(q.spec) && ReadAs(r, q.spec, q.start, posn)
    requires AllSpecs(ps) && Understood(ps, ds, r.posn)
    ensures AllSpecs([q] + ps) && Understood([q] + ps, [r.d] + ds, posn)
    ensures AllUses([r.d] + ds, [q] + ps) == r.uses + AllUses(ds, ps)
  {
    UsesCons(q, ps, r.d, ds);
    var ps', ds' := [q] + ps, [r.d] + ds;
    forall k | 0 <= k < |ps'|
      ensures Describes(ds'[k], ps'[k].spec, ps'[k].start)
    {
      if k > 0 {
        assert ps'[k] == ps[k - 1] && ds'[k] == ds[k - 1];
      }
    }
    AnswerConcat(r.uses, Requests(q.spec), AllUses(ds, ps), AllRequests(ps), posn, r.posn);
  }

  /** The directives of a format and the table, if the uses can be registered. */
  function Reported(ds: seq<Directive>, t: Option<Table>): Option<(seq<Directive>, Table)> {
    if t == Option.None then Option.None else Some((ds, t.value))
  }

  lemma FormatStep(s: string, cp: nat, posn: nat, t: Table, r: Reading, ds: seq<Directive>, uses: seq<Use>)
    requires cp < |s| && s[cp] == '%' && DirectiveAt(s, cp, posn) == Some(r)
    requires RegisterAll(t, r.uses).Some? ==>
      FormatAt(s, r.d.dirEnd, r.posn, RegisterAll(t, r.uses).value) ==
        Reported(ds, RegisterAll(RegisterAll(t, r.uses).value, uses))
    ensures FormatAt(s, cp, posn, t) == Reported([r.d] + ds, RegisterAll(t, r.uses + uses))
  {
    RegisterAllConcat(t, r.uses, uses);
  }

  /** A format that consists of directives is read as these. */
  lemma {:induction false} FormatReads(s: string, cp: nat, posn: nat, t: Table, ps: seq<Piece>)
      returns (ds: seq<Directive>, uses: seq<Use>)
    requires cp <= |s| && Spelled(s, cp, ps)
    ensures AllSpecs(ps) && Understood(ps, ds, posn) && uses == AllUses(ds, ps)
    ensures FormatAt(s, cp, posn, t) == Reported(ds, RegisterAll(t, uses))
    decreases |ps|
  {
    if ps == [] {
      PlainIsSkipped(s, cp, |s|, posn, t);
      return [], [];
    }
    var q, tail := ps[0], ps[1..];
    assert ps == [q] + tail;
    PlainIsSkipped(s, cp, q.start, posn, t);
    var r := DirectiveTakes(s, q.start, q.spec, posn);
    var t' := RegisterAll(t, r.uses);
    EndsThere(s, q, r, posn);
    ds, uses := FormatReads(s, End(q), r.posn, if t'.Some? then t'.value else t, tail);
    FormatStep(s, q.start, posn, t, r, ds, uses);
    UnderstoodCons(q, tail, r, ds, posn);
    ds, uses := [r.d] + ds, r.uses + uses;
  }

  lemma EndsThere(s: string, q: Piece, r: Reading, posn: nat)
    requires IsSpec(q.spec) && Spells(s, q.start, q.spec) && ReadAs(r, q.spec, q.start, posn)
    ensures q.start < |s| && s[q.start] == '%' && r.d.dirEnd == End(q) <= |s|
  {
  }

  /** And every format that is understood consists of directives. */
  lemma {:induction false} FormatIsSpelled(s: string, cp: nat, posn: nat, t: Table) returns (ps: seq<Piece>)
    requires cp <= |s| && FormatAt(s, cp, posn, t).Some?
    ensures Spelled(s, cp, ps)
    decreases |s| - cp
  {
    if cp == |s| {
      ps := [];
    } else if s[cp] != '%' {
      ps := FormatIsSpelled(s, cp + 1, posn, t);
      assert ps == [] || Plain(s, cp, ps[0].start);
    } else {
      var r, t' := FormatRest(s, cp, posn, t);
      var q := FirstPiece(s, cp, posn, r);
      var rest := FormatIsSpelled(s, End(q), r.posn, t');
      ps := [q] + rest;
      assert ps[1..] == rest;
    }
  }

  lemma FormatRest(s: string, cp: nat, posn: nat, t: Table) returns (r: Reading, t': Table)
    requires cp < |s| && s[cp] == '%' && FormatAt(s, cp, posn, t).Some?
    ensures DirectiveAt(s, cp, posn) == Some(r) && cp < r.d.dirEnd <= |s|
    ensures FormatAt(s, r.d.dirEnd, r.posn, t').Some?
  {
    r := DirectiveAt(s, cp, posn).value;
    t' := RegisterAll(t, r.uses).value;
  }

  /** What is read is a directive of the grammar, read as it stands. */
  lemma ReadStands(s: string, start: nat, posn: nat, r: Reading) returns (p: Spec)
    requires start < |s| && s[start] == '%' && DirectiveAt(s, start, posn) == Some(r)
    ensures IsSpec(p) && Spells(s, start, p) && ReadAs(r, p, start, posn)
  {
    ReadingDecidesGrammar(s, start, posn, Spec("", "", "", "", "", '%'));
    p := Cut(s, start, posn);
    ReadingDecidesGrammar(s, start, posn, p);
    var r' := DirectiveTakes(s, start, p, posn);
  }

  lemma FirstPiece(s: string, cp: nat, posn: nat, r: Reading) returns (q: Piece)
    requires cp < |s| && s[cp] == '%' && DirectiveAt(s, cp, posn) == Some(r)
    ensures q.start == cp && IsSpec(q.spec) && Spells(s, cp, q.spec) && r.d.dirEnd == End(q) <= |s|
  {
    var p := ReadStands(s, cp, posn, r);
    q := Piece(cp, p);
    EndsThere(s, q, r, posn);
  }

  lemma {:induction false} UsesAreTyped(ds: seq<Directive>, ps: seq<Piece>)
    requires AllSpecs(ps) && |ds| == |ps| && forall k :: 0 <= k < |ps| ==> Describes(ds[k], ps[k].spec, ps[k].start)
    ensures Typed(AllUses(ds, ps))
    decreases |ps|
  {
    if ps != [] {
      NoneForPercent(ps[0].spec);
      UsesAreTyped(ds[1..], ps[1..]);
    }
  }

  /**
   * What parsing a format reports: its directives, each recorded as it stands and with the arguments it asks for, and
   * the table of the uses of these arguments, which do not contradict each other.
   */
  ghost predicate Parsed(s: string, ds: seq<Directive>, t: Table) {
    exists ps :: Spelled(s, 0, ps) && Reports(ps, ds, t)
  }

  predicate Reports(ps: seq<Piece>, ds: seq<Directive>, t: Table) {
    AllSpecs(ps) && Understood(ps, ds, 0) && Consistent(AllUses(ds, ps)) && TableOf(t, AllUses(ds, ps))
  }

  /** A format that is rejected: it does not consist of directives, or these want an argument with two types. */
  ghost predicate Rejected(s: string) {
    forall ps :: Spelled(s, 0, ps) ==> Contradictory(ps)
  }

  ghost predicate Contradictory(ps: seq<Piece>) {
    AllSpecs(ps) && exists uses :: Answer(uses, AllRequests(ps), 0) && !Consistent(uses)
  }

  /** Every format is parsed or rejected. */
  lemma FormatDecides(s: string)
    ensures
      var o := FormatAt(s, 0, 0, []);
      if o == Option.None then Rejected(s) else Parsed(s, o.value.0, o.value.1)
  {
    forall ps | Spelled(s, 0, ps)
      ensures AllSpecs(ps)
      ensures FormatAt(s, 0, 0, []) == Option.None ==> Contradictory(ps)
    {
      var ds, uses := FormatReads(s, 0, 0, [], ps);
      UsesAreTyped(ds, ps);
      RegisterAllIff([], uses);
    }
    if FormatAt(s, 0, 0, []).Some? {
      var ps := FormatIsSpelled(s, 0, 0, []);
      var ds, uses := FormatReads(s, 0, 0, [], ps);
      UsesAreTyped(ds, ps);
      RegisterAllIff([], uses);
      var t := RegisteredTable(uses);
      assert Reports(ps, ds, t);
    }
  }

  /** And none is both. */
  lemma NotBoth(s: string, ds: seq<Directive>, t: Table)
    requires Parsed(s, ds, t)
    ensures !Rejected(s)
  {
    var ps :| Spelled(s, 0, ps) && Reports(ps, ds, t);
    forall uses | Answer(uses, AllRequests(ps), 0)
      ensures Consistent(uses)
    {
      AnswersAre(uses, AllUses(ds, ps), AllRequests(ps), 0);
    }
    assert !Contradictory(ps);
  }

  /** Without numbers the arguments are taken one by one: no gap, no repetition, and no more in the table. */
  lemma TakenInOrder(ps: seq<Piece>, ds: seq<Directive>, t: Table)
    requires Reports(ps, ds, t) && forall i :: 0 <= i < |AllRequests(ps)| ==> AllRequests(ps)[i].Regular?
    ensures
      var uses := AllUses(ds, ps);
      |t| == |uses| && forall i :: 0 <= i < |uses| ==> uses[i] == Use(i, t[i])
  {
    RegularIndices(AllUses(ds, ps), AllRequests(ps));
    TableInOrder(t, AllUses(ds, ps));
  }

  lemma RegularIndices(uses: seq<Use>, rs: seq<Request>)
    requires Answer(uses, rs, 0) && forall i :: 0 <= i < |rs| ==> rs[i].Regular?
    ensures forall i :: 0 <= i < |uses| ==> uses[i].index == i
  {
    forall i | 0 <= i < |rs|
      ensures uses[i].index == i
    {
      RegularsOnly(rs[..i]);
      assert Meets(uses[i], rs[i], Regulars(rs[..i]));
    }
  }

  lemma TableInOrder(t: Table, uses: seq<Use>)
    requires TableOf(t, uses) && forall i :: 0 <= i < |uses| ==> uses[i].index == i
    ensures |t| == |uses| && forall i :: 0 <= i < |uses| ==> uses[i] == Use(i, t[i])
  {
    assert forall i :: 0 <= i < |uses| ==> HasUse(t, uses[i]);
    if |uses| > 0 {
      assert HasUse(t, uses[|uses| - 1]);
    }
    if |t| > 0 {
      var i :| 0 <= i < |uses| && uses[i].index == |t| - 1;
    }
  }

  lemma {:induction false} RegularsOnly(rs: seq<Request>)
    requires forall i :: 0 <= i < |rs| ==> rs[i].Regular?
    ensures Regulars(rs) == |rs|
  {
    if rs != [] {
      RegularsOnly(rs[..|rs| - 1]);
    }
  }

  /** A format can be taken apart into directives in one way only. */
  lemma {:induction false} SpelledOnce(s: string, cp: nat, ps: seq<Piece>, qs: seq<Piece>)
    requires cp <= |s| && Spelled(s, cp, ps) && Spelled(s, cp, qs)
    ensures ps == qs
    decreases |ps|
  {
    NotPlain(s, cp, ps);
    NotPlain(s, cp, qs);
    if ps != [] && qs != [] {
      SamePiece(s, cp, ps[0], qs[0]);
      SpelledOnce(s, End(ps[0]), ps[1..], qs[1..]);
      SameCons(ps, qs);
    }
  }

  lemma SamePiece(s: string, cp: nat, p: Piece, q: Piece)
    requires Plain(s, cp, p.start) && IsSpec(p.spec) && Spells(s, p.start, p.spec)
    requires Plain(s, cp, q.start) && IsSpec(q.spec) && Spells(s, q.start, q.spec)
    ensures p == q
  {
    ReadingDecidesGrammar(s, p.start, 0, p.spec);
    ReadingDecidesGrammar(s, p.start, 0, q.spec);
  }

  lemma NotPlain(s: string, cp: nat, ps: seq<Piece>)
    requires Spelled(s, cp, ps)
    ensures ps == [] <==> Plain(s, cp, |s|)
    ensures ps != [] ==> End(ps[0]) <= |s|
  {
  }

  lemma SameCons(ps: seq<Piece>, qs: seq<Piece>)
    requires ps != [] && qs != [] && ps[0] == qs[0] && ps[1..] == qs[1..]
    ensures ps == qs
  {
    assert ps == [ps[0]] + ps[1..] && qs == [qs[0]] + qs[1..];
  }
}
