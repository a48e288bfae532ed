/**
 * Which arguments the directives of a format take: those without a number take the arguments in the order of the text,
 * and those with a number the argument it names.  This is stated for the texts of the directives, whatever reads them.
 */
module PrintfOrder {
  import opened Options
  import opened CStrings
  import opened PrintfArguments
  import opened PrintfSyntax
  import opened PrintfGrammar

  /** What a part of a directive asks for: an argument by its number, counting from 1, or the next one. */
  datatype Request = Numbered(number: nat, x: ArgType) | Regular(x: ArgType)

  /** "5$" asks for argument 5. */
  function NumberOf(x: string): nat
    requires IsPosition(x)
  {
    Decimal(x[..|x| - 1])
  }

  function Star(x: string): Request
    requires IsStar(x)
  {
    if x == "*" then Regular(Int) else Numbered(NumberOf(x[1..]), Int)
  }

  /** The type that the argument of a conversion has to have. */
  function OwnType(p: Spec): ArgType
    requires IsSpec(p)
  {
    TypeOf(p.conversion, SizeFlags(0, p.size)).value
  }

  /** The requests of a width, a precision and a conversion. */
  function OfWidth(p: Spec): seq<Request> {
    if IsStar(p.width) then [Star(p.width)] else []
  }

  predicate StarPrecision(p: Spec) {
    p.precision != "" && IsStar(p.precision[1..])
  }

  function OfPrecision(p: Spec): seq<Request> {
    if StarPrecision(p) then [Star(p.precision[1..])] else []
  }

  function OfConversion(p: Spec): seq<Request>
    requires IsSpec(p)
  {
    if p.conversion == '%' then []
    else if p.position == "" then [Regular(OwnType(p))]
    else [Numbered(NumberOf(p.position), OwnType(p))]
  }

  /** All requests of a directive in the order of the text: the number in front belongs to the conversion. */
  function Requests(p: Spec): seq<Request>
    requires IsSpec(p)
  {
    OfWidth(p) + OfPrecision(p) + OfConversion(p)
  }

  /** How many of some requests are for the next argument. */
  function Regulars(rs: seq<Request>): nat {
    if rs == [] then 0 else Regulars(rs[..|rs| - 1]) + if rs[|rs| - 1].Regular? then 1 else 0
  }

  /** The use is of the type asked for, and of the argument with the number, or of the next one behind n others. */
  predicate Meets(u: Use, r: Request, n: nat) {
    u.x == r.x && u.index == match r { case Numbered(k, _) => k - 1 case Regular(_) => n }
  }

  /** Every use meets its request, where posn arguments have been taken in turn before these, and more by these. */
  predicate Answer(uses: seq<Use>, rs: seq<Request>, posn: nat) {
    |uses| == |rs| && forall i :: 0 <= i < |rs| ==> Meets(uses[i], rs[i], posn + Regulars(rs[..i]))
  }

  lemma {:induction false} RegularsConcat(a: seq<Request>, b: seq<Request>)
    ensures Regulars(a + b) == Regulars(a) + Regulars(b)
    decreases |b|
  {
    if b == [] {
      assert a + b == a;
    } else {
      assert (a + b)[..|a + b| - 1] == a + b[..|b| - 1];
      RegularsConcat(a, b[..|b| - 1]);
    }
  }

  lemma AnswerConcat(us: seq<Use>, rs: seq<Request>, us': seq<Use>, rs': seq<Request>, posn: nat, posn': nat)
    requires Answer(us, rs, posn) && Answer(us', rs', posn') && posn' == posn + Regulars(rs)
    ensures Answer(us + us', rs + rs', posn) && Regulars(rs + rs') == Regulars(rs) + Regulars(rs')
  {
    RegularsConcat(rs, rs');
    forall i | 0 <= i < |rs + rs'|
      ensures Meets((us + us')[i], (rs + rs')[i], posn + Regulars((rs + rs')[..i]))
    {
      if i < |rs| {
        assert (rs + rs')[..i] == rs[..i];
      } else {
        var k := i - |rs|;
        assert (rs + rs')[..i] == rs + rs'[..k];
        RegularsConcat(rs, rs'[..k]);
        assert Meets(us'[k], rs'[k], posn' + Regulars(rs'[..k]));
      }
    }
  }

  lemma AnswerOne(r: Request, posn: nat, u: Use)
    requires Meets(u, r, posn)
    ensures Answer([u], [r], posn) && Regulars([r]) == if r.Regular? then 1 else 0
  {
    assert [r][..0] == [];
  }

  /** A part with or without a "*" answers its request. */
  lemma PartAnswers(x: string, star: bool, part: Part, next: nat, posn: nat, length: nat)
    requires star ==> IsStar(x) && part == StarPart(x, next, posn, length)
    requires !star ==> part.arg == Option.None && part.posn == posn
    ensures
      var rs := if star then [Star(x)] else [];
      Answer(Uses(part.arg, Int), rs, posn) && part.posn == posn + Regulars(rs)
  {
    if star {
      assert |x| > 1 ==> x[1..][..|x| - 2] == x[1..][..|x[1..]| - 1];
      AnswerOne(Star(x), posn, Use(part.arg.value, Int));
    }
  }

  /** The uses of a directive as it is recorded: for its width, its precision, and its conversion. */
  function UsesOf(d: Directive, x: ArgType): seq<Use> {
    Uses(d.widthArg, Int) + Uses(d.precisionArg, Int) + Uses(d.argIndex, x)
  }

  function Letters(x: string): set<char> {
    set c | c in x
  }

  /** The record of a directive says what the text says; a "*" counts without its number. */
  predicate Describes(d: Directive, p: Spec, start: nat) {
    && d.dirStart == start
    && d.dirEnd == start + |p.position| + |p.flags| + |p.width| + |p.precision| + |p.size| + 2
    && d.flags == Letters(p.flags)
    && d.widthLength == (if IsStar(p.width) then 1 else |p.width|) && (d.widthArg.Some? <==> IsStar(p.width))
    && d.precisionLength == (if StarPrecision(p) then 2 else |p.precision|)
    && (d.precisionArg.Some? <==> StarPrecision(p))
    && d.conversion == (if p.conversion == 'C' then 'c' else if p.conversion == 'S' then 's' else p.conversion)
    && (d.argIndex.Some? <==> p.conversion != '%')
  }

  /** What a text is read as. */
  predicate ReadAs(r: Reading, p: Spec, start: nat, posn: nat)
    requires IsSpec(p)
  {
    && Describes(r.d, p, start) && r.uses == UsesOf(r.d, OwnType(p)) && Answer(r.uses, Requests(p), posn)
    && r.posn == posn + Regulars(Requests(p))
  }

  lemma DirectiveFrom(
      s: string, start: nat, posn: nat, i: Position, at: nat, f: nat, flags: set<char>, w: Part, q: Part)
    requires start < |s| && PositionAt(s, start + 1) == i && i != BadPosition
    requires at == (if i.Position? then i.next else start + 1) && FlagEnd(s, at) == f
    requires FieldsAt(s, f, posn) == Some((w, q)) && flags == Chars(s, at, f)
    ensures start < q.next <= |s|
    ensures DirectiveAt(s, start, posn) == ConversionAt(s, start, i, flags, w, q)
  {
  }

  /** A directive is read from its parts. */
  lemma DirectiveIs(s: string, start: nat, p: Spec, posn: nat, i: Position, w: Part, q: Part)
    requires IsSpec(p) && Spells(s, start, p)
    requires i == if p.position == "" then NoPosition else Position(NumberOf(p.position) - 1, FlagsAt(p, start))
    requires w == WidthPart(p.width, PrecisionStart(p, start), posn)
    requires q == PrecisionPart(p.precision, SizeStart(p, start), w.posn)
    ensures start < q.next <= |s|
    ensures DirectiveAt(s, start, posn) == ConversionAt(s, start, i, Letters(p.flags), w, q)
  {
    FlagSet(s, FlagsAt(p, start), p.flags);
    ConversionIsInert(p.conversion, SizeFlags(0, p.size));
    PositionRead(s, start, p);
    EndsHere(s, start, p);
    FieldsHere(s, start, p, posn);
    DirectiveFrom(s, start, posn, i, FlagsAt(p, start), WidthStart(p, start), Letters(p.flags), w, q);
  }

  lemma ConversionFrom(
      s: string, start: nat, i: Position, flags: set<char>, w: Part, q: Part, z: nat, c: char, x: ArgType)
    requires start < q.next <= |s| && i != BadPosition && SizeEnd(s, q.next) == z && At(s, z) == c
    requires TypeOf(c, SizeFlags(0, s[q.next..])) == Some(x)
    ensures ConversionAt(s, start, i, flags, w, q) == Some(Built(start, z + 1, i, flags, w, q, c, x))
  {
  }

  /** The record of a directive and its uses, put together from its parts. */
  function Built(start: nat, end: nat, i: Position, flags: set<char>, w: Part, q: Part, c: char, x: ArgType): Reading {
    var arg := if x == TypeNone then Option.None else if i.Position? then Some(i.index) else Some(q.posn);
    Reading(
      Directive(start, end, flags, w.length, w.arg, q.length, q.arg, Recorded(c), arg),
      Uses(w.arg, Int) + Uses(q.arg, Int) + Uses(arg, x),
      if !i.Position? && x != TypeNone then q.posn + 1 else q.posn)
  }

  lemma ConversionIs(s: string, start: nat, p: Spec, i: Position, flags: set<char>, w: Part, q: Part) returns (z: nat)
    requires IsSpec(p) && Spells(s, start, p) && q.next == SizeStart(p, start) && start < q.next <= |s|
    requires i != BadPosition
    ensures z == ConversionStart(p, start)
    ensures ConversionAt(s, start, i, flags, w, q) ==
      Some(Built(start, z + 1, i, flags, w, q, p.conversion, OwnType(p)))
  {
    ConversionIsInert(p.conversion, SizeFlags(0, p.size));
    EndsHere(s, start, p);
    BehindPrecision(s, start, p);
    z := ConversionStart(p, start);
    ConversionFrom(s, start, i, flags, w, q, z, p.conversion, OwnType(p));
  }

  /** A percent sign as the conversion, and only this, takes no argument. */
  lemma NoneForPercent(p: Spec)
    requires IsSpec(p)
    ensures OwnType(p) == TypeNone <==> p.conversion == '%'
  {
    TypesFit(p.conversion, SizeFlags(0, p.size));
  }

  lemma FieldsAnswer(p: Spec, w: Part, q: Part, next: nat, next': nat, posn: nat)
    requires IsSpec(p) && w == WidthPart(p.width, next, posn) && q == PrecisionPart(p.precision, next', w.posn)
    ensures Answer(Uses(w.arg, Int) + Uses(q.arg, Int), OfWidth(p) + OfPrecision(p), posn)
    ensures q.posn == posn + Regulars(OfWidth(p) + OfPrecision(p))
  {
    PartAnswers(p.width, IsStar(p.width), w, next, posn, 1);
    PartAnswers(if StarPrecision(p) then p.precision[1..] else "", StarPrecision(p), q, next', w.posn, 2);
    AnswerConcat(Uses(w.arg, Int), OfWidth(p), Uses(q.arg, Int), OfPrecision(p), posn, w.posn);
  }

  /** The position that is read in front of a directive. */
  predicate Numbers(i: Position, p: Spec)
    requires IsSpec(p)
  {
    if p.position == "" then i == NoPosition else i.Position? && i.index == NumberOf(p.position) - 1
  }

  lemma ConversionAnswers(p: Spec, i: Position, posn: nat, own: Option<nat>)
    requires IsSpec(p) && Numbers(i, p)
    requires own == if OwnType(p) == TypeNone then Option.None else Some(if i.Position? then i.index else posn)
    ensures Answer(Uses(own, OwnType(p)), OfConversion(p), posn)
    ensures posn + Regulars(OfConversion(p)) == if !i.Position? && OwnType(p) != TypeNone then posn + 1 else posn
  {
    NoneForPercent(p);
    if p.conversion != '%' {
      AnswerOne(OfConversion(p)[0], posn, Use(own.value, OwnType(p)));
    }
  }

  lemma BuiltAnswers(p: Spec, r: Reading, i: Position, w: Part, q: Part, posn: nat)
    requires IsSpec(p) && Numbers(i, p)
    requires w == WidthPart(p.width, w.next, posn) && q == PrecisionPart(p.precision, q.next, w.posn)
    requires r.d.widthArg == w.arg && r.d.precisionArg == q.arg
    requires r.d.argIndex ==
      if OwnType(p) == TypeNone then Option.None else Some(if i.Position? then i.index else q.posn)
    requires r.uses == Uses(w.arg, Int) + Uses(q.arg, Int) + Uses(r.d.argIndex, OwnType(p))
    requires r.posn == if !i.Position? && OwnType(p) != TypeNone then q.posn + 1 else q.posn
    ensures Answer(r.uses, Requests(p), posn) && r.posn == posn + Regulars(Requests(p))
  {
    var fields, own := Uses(w.arg, Int) + Uses(q.arg, Int), Uses(r.d.argIndex, OwnType(p));
    FieldsAnswer(p, w, q, w.next, q.next, posn);
    ConversionAnswers(p, i, q.posn, r.d.argIndex);
    AnswerConcat(fields, OfWidth(p) + OfPrecision(p), own, OfConversion(p), posn, q.posn);
  }

  lemma BuiltDescribes(p: Spec, start: nat, i: Position, w: Part, q: Part, posn: nat, r: Reading)
    requires IsSpec(p)
    requires w == WidthPart(p.width, w.next, posn) && q == PrecisionPart(p.precision, q.next, w.posn)
    requires r == Built(start, ConversionStart(p, start) + 1, i, Letters(p.flags), w, q, p.conversion, OwnType(p))
    ensures Describes(r.d, p, start)
  {
    NoneForPercent(p);
  }

  lemma BuiltFrom(
      start: nat, end: nat, i: Position, flags: set<char>, w: Part, q: Part, c: char, x: ArgType, r: Reading)
    requires r == Built(start, end, i, flags, w, q, c, x)
    ensures r.d.widthArg == w.arg && r.d.precisionArg == q.arg
    ensures r.d.argIndex == if x == TypeNone then Option.None else Some(if i.Position? then i.index else q.posn)
    ensures r.uses == UsesOf(r.d, x) == Uses(w.arg, Int) + Uses(q.arg, Int) + Uses(r.d.argIndex, x)
    ensures r.posn == if !i.Position? && x != TypeNone then q.posn + 1 else q.posn
  {
  }

  lemma DirectiveBuilt(s: string, start: nat, p: Spec, posn: nat, i: Position, w: Part, q: Part)
      returns (r: Reading, z: nat)
    requires IsSpec(p) && Spells(s, start, p)
    requires i == if p.position == "" then NoPosition else Position(NumberOf(p.position) - 1, FlagsAt(p, start))
    requires w == WidthPart(p.width, PrecisionStart(p, start), posn)
    requires q == PrecisionPart(p.precision, SizeStart(p, start), w.posn)
    ensures DirectiveAt(s, start, posn) == Some(r) && z == ConversionStart(p, start)
    ensures r == Built(start, z + 1, i, Letters(p.flags), w, q, p.conversion, OwnType(p))
  {
    DirectiveIs(s, start, p, posn, i, w, q);
    z := ConversionIs(s, start, p, i, Letters(p.flags), w, q);
    r := Built(start, z + 1, i, Letters(p.flags), w, q, p.conversion, OwnType(p));
  }

  /** A directive is read with the arguments its text asks for, and recorded as it stands. */
  lemma DirectiveTakes(s: string, start: nat, p: Spec, posn: nat) returns (r: Reading)
    requires IsSpec(p) && Spells(s, start, p)
    ensures DirectiveAt(s, start, posn) == Some(r) && ReadAs(r, p, start, posn)
  {
    var i := if p.position == "" then NoPosition else Position(NumberOf(p.position) - 1, FlagsAt(p, start));
    var w := WidthPart(p.width, PrecisionStart(p, start), posn);
    var q := PrecisionPart(p.precision, SizeStart(p, start), w.posn);
    var z;
    r, z := DirectiveBuilt(s, start, p, posn, i, w, q);
    BuiltDescribes(p, start, i, w, q, posn, r);
    BuiltFrom(start, z + 1, i, Letters(p.flags), w, q, p.conversion, OwnType(p), r);
    BuiltAnswers(p, r, i, w, q, posn);
  }

  lemma FlagSet(s: string, at: nat, x: string)
    requires Here(s, at, x)
    ensures Chars(s, at, at + |x|) == Letters(x)
  {
    HereAt(s, at, x);
    var flags := Chars(s, at, at + |x|);
    forall c
      ensures c in flags <==> c in x
    {
      if c in x {
        var k :| 0 <= k < |x| && x[k] == c;
        assert s[at + k] == c;
      }
    }
  }
}
