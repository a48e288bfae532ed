/** Parsing a format string: PRINTF_PARSE, and PRINTF_FETCHARGS behind it. */
module PrintfParse {
  import opened Options
  import opened CStrings
  import opened PrintfArguments
  import opened PrintfSyntax
  import opened PrintfGrammar
  import opened PrintfOrder
  import opened PrintfFormat

  /** Skips digits. */
  method SkipDigits(s: string, cp: nat) returns (np: nat)
    requires cp <= |s|
    ensures np == cp + DigitRun(s[cp..])
  {
    np := cp;
    while '0' <= At(s, np) <= '9'
      invariant cp <= np <= |s| && np + DigitRun(s[np..]) == cp + DigitRun(s[cp..])
      decreases |s| - np
    {
      assert s[np..][1..] == s[np + 1..];
      np := np + 1;
    }
  }

  lemma SaturatedStep(n: nat, d: nat)
    requires d < 10
    ensures Xsum(Xtimes(Saturated(n), 10), d) == Saturated(10 * n + d)
  {
  }

  lemma NextDigit(t: string, k: nat)
    requires k < DigitRun(t)
    ensures Decimal(t[..k + 1]) == 10 * Decimal(t[..k]) + DigitValue(t[k])
  {
    assert t[..k + 1] == t[..k] + [t[k]];
    DecimalSnoc(t[..k], t[k]);
  }

  method ReadPosition(s: string, cp: nat) returns (p: Position)
    requires cp <= |s|
    ensures p == PositionAt(s, cp)
  {
    if !('0' <= At(s, cp) <= '9') {
      return NoPosition;
    }
    var np := SkipDigits(s, cp);
    if At(s, np) != '$' {
      return NoPosition;
    }
    var end := np;
    var n: nat := 0;
    np := cp;
    ghost var t := s[cp..];
    while np < end
      invariant cp <= np <= end && n == Saturated(Decimal(t[..np - cp]))
    {
      NextDigit(t, np - cp);
      SaturatedStep(Decimal(t[..np - cp]), DigitValue(s[np]));
      n := Xsum(Xtimes(n, 10), DigitValue(s[np]));
      np := np + 1;
    }
    if n == 0 || n == SIZE_MAX {
      return BadPosition;
    }
    p := Position(n - 1, np + 1);
  }

  method ReadFlags(s: string, cp: nat) returns (flags: set<char>, next: nat)
    requires cp <= |s|
    ensures next == FlagEnd(s, cp) && flags == Chars(s, cp, next)
  {
    flags, next := {}, cp;
    while IsFlag(At(s, next))
      invariant cp <= next <= |s| && FlagEnd(s, next) == FlagEnd(s, cp)
      invariant flags == Chars(s, cp, next)
      decreases |s| - next
    {
      flags := flags + {At(s, next)};
      next := next + 1;
    }
  }

  method ReadSize(s: string, cp: nat) returns (flags: nat, next: nat)
    requires cp <= |s|
    ensures next == SizeEnd(s, cp) && flags == SizeFlags(0, s[cp..])
  {
    flags, next := 0, cp;
    while IsSize(At(s, next))
      invariant cp <= next <= |s| && SizeEnd(s, next) == SizeEnd(s, cp)
      invariant SizeFlags(flags, s[next..]) == SizeFlags(0, s[cp..])
      decreases |s| - next
    {
      assert s[next..][1..] == s[next + 1..] && s[next..][0] == s[next];
      flags := SizeStep(flags, At(s, next));
      next := next + 1;
    }
    assert At(s, next) == At(s[next..], 0);
  }

  /** No number of an argument in the text, and not its length, is beyond what fits the address space. */
  predicate Modest(s: string) {
    |s| < HUGE && forall i :: 0 <= i <= |s| && PositionAt(s, i).Position? ==> PositionAt(s, i).index < HUGE
  }

  /**
   * Reading a part at some place in the text and entering its argument, if it has one, into the table t: what is
   * there is got and the new table is t', or there is nothing that can be read, or its argument has another type.
   */
  predicate Reads(r: Status, o: Option<Part>, got: Part, t: Table, t': Table) {
    && (r == Fine ==> o == Some(got) && RegisterAll(t, Uses(got.arg, Int)) == Some(t'))
    && (r == BadFormat ==> o == Option.None || RegisterAll(t, Uses(o.value.arg, Int)) == Option.None)
  }

  lemma RegisterOne(t: Table, n: nat, x: ArgType)
    ensures RegisterAll(t, [Use(n, x)]) == if Agrees(t, n, x) then Some(Registered(t, n, x)) else Option.None
  {
    assert [Use(n, x)][1..] == [];
  }

  /** The argument of a "*" in front of cp. */
  method ReadStar(s: string, cp: nat, posn: nat, length: nat, args: Arguments) returns (r: Status, part: Part)
    requires cp <= |s| < SIZE_MAX && posn <= cp && args.Valid()
    modifies args, args.arg
    ensures args.Valid() && (args.arg == old(args.arg) || fresh(args.arg))
    ensures Reads(r, StarAt(s, cp, posn, length), part, old(args.Types()), args.Types())
    ensures r == NoMemory ==> !Modest(s)
  {
    part := Part(length, Option.None, cp, posn);
    var p := ReadPosition(s, cp);
    if p == BadPosition {
      return BadFormat, part;
    }
    var index, next, posn' := posn, cp, posn + 1;
    if p.Position? {
      index, next, posn' := p.index, p.next, posn;
    }
    RegisterOne(args.Types(), index, Int);
    r := args.Register(index, Int);
    part := Part(length, Some(index), next, posn');
  }

  /** The field width, if there is one at cp. */
  method ReadWidth(s: string, cp: nat, posn: nat, args: Arguments) returns (r: Status, part: Part)
    requires cp <= |s| < SIZE_MAX && posn <= cp && args.Valid()
    modifies args, args.arg
    ensures args.Valid() && (args.arg == old(args.arg) || fresh(args.arg))
    ensures Reads(r, WidthAt(s, cp, posn), part, old(args.Types()), args.Types())
    ensures r == NoMemory ==> !Modest(s)
  {
    r, part := Fine, Part(0, Option.None, cp, posn);
    if At(s, cp) == '*' {
      r, part := ReadStar(s, cp + 1, posn, 1, args);
    } else if '0' <= At(s, cp) <= '9' {
      var next := SkipDigits(s, cp);
      part := Part(next - cp, Option.None, next, posn);
    }
  }

  /** The precision, if there is one at cp. */
  method ReadPrecision(s: string, cp: nat, posn: nat, args: Arguments) returns (r: Status, part: Part)
    requires cp <= |s| < SIZE_MAX && posn <= cp && args.Valid()
    modifies args, args.arg
    ensures args.Valid() && (args.arg == old(args.arg) || fresh(args.arg))
    ensures Reads(r, PrecisionAt(s, cp, posn), part, old(args.Types()), args.Types())
    ensures r == NoMemory ==> !Modest(s)
  {
    r, part := Fine, Part(0, Option.None, cp, posn);
    if At(s, cp) == '.' {
      if At(s, cp + 1) == '*' {
        r, part := ReadStar(s, cp + 2, posn, 2, args);
      } else {
        var next := SkipDigits(s, cp + 1);
        part := Part(next - cp, Option.None, next, posn);
      }
    }
  }

  /** The width and the precision at cp. */
  method ReadFields(s: string, cp: nat, posn: nat, args: Arguments) returns (r: Status, w: Part, q: Part)
    requires cp <= |s| < SIZE_MAX && posn <= cp && args.Valid()
    modifies args, args.arg
    ensures args.Valid() && (args.arg == old(args.arg) || fresh(args.arg))
    ensures r == Fine ==>
      && FieldsAt(s, cp, posn) == Some((w, q))
      && RegisterAll(old(args.Types()), Uses(w.arg, Int) + Uses(q.arg, Int)) == Some(args.Types())
    ensures r == BadFormat ==>
      var o := FieldsAt(s, cp, posn);
      o == Option.None
      || RegisterAll(old(args.Types()), Uses(o.value.0.arg, Int) + Uses(o.value.1.arg, Int)) == Option.None
    ensures r == NoMemory ==> !Modest(s)
  {
    ghost var t := args.Types();
    r, w := ReadWidth(s, cp, posn, args);
    q := w;
    if FieldsAt(s, cp, posn).Some? {
      var (w', q') := FieldsAt(s, cp, posn).value;
      RegisterAllConcat(t, Uses(w'.arg, Int), Uses(q'.arg, Int));
    }
    if r == Fine {
      r, q := ReadPrecision(s, w.next, w.posn, args);
    }
  }

  /** The argument of a conversion: the one with the number in front, or the next one. */
  method TakeOwn(s: string, start: nat, p: Position, posn: nat, x: ArgType, args: Arguments)
      returns (r: Status, argIndex: Option<nat>, posn': nat)
    requires start < |s| < SIZE_MAX && posn <= |s| && args.Valid()
    requires p == PositionAt(s, start + 1) && p != BadPosition
    modifies args, args.arg
    ensures args.Valid() && (args.arg == old(args.arg) || fresh(args.arg))
    ensures argIndex == Some(if p.Position? then p.index else posn)
    ensures posn' == if p.Position? then posn else posn + 1
    ensures r == Fine ==> RegisterAll(old(args.Types()), Uses(argIndex, x)) == Some(args.Types())
    ensures r == BadFormat ==> RegisterAll(old(args.Types()), Uses(argIndex, x)) == Option.None
    ensures r == NoMemory ==> !Modest(s)
  {
    var index := posn;
    posn' := posn + 1;
    if p.Position? {
      index, posn' := p.index, posn;
    }
    argIndex := Some(index);
    RegisterOne(args.Types(), index, x);
    r := args.Register(index, x);
  }

  /** The size letters and the conversion character behind the precision. */
  method ReadConversion(s: string, start: nat, p: Position, flags: set<char>, w: Part, q: Part, args: Arguments)
      returns (r: Status, d: Directive, posn': nat, ghost own: seq<Use>)
    requires start < q.next <= |s| < SIZE_MAX && q.posn <= q.next && args.Valid()
    requires p == PositionAt(s, start + 1) && p != BadPosition
    modifies args, args.arg
    ensures args.Valid() && (args.arg == old(args.arg) || fresh(args.arg))
    ensures r == Fine ==>
      && ConversionAt(s, start, p, flags, w, q) ==
           Some(Reading(d, Uses(w.arg, Int) + Uses(q.arg, Int) + own, posn'))
      && RegisterAll(old(args.Types()), own) == Some(args.Types())
    ensures r == BadFormat ==>
      var o := ConversionAt(s, start, p, flags, w, q);
      o.Some? ==>
        && o.value.uses == Uses(w.arg, Int) + Uses(q.arg, Int) + own
        && RegisterAll(old(args.Types()), own) == Option.None
    ensures r == NoMemory ==> !Modest(s)
  {
    d, posn', own := Directive(start, 0, flags, 0, Option.None, 0, Option.None, '%', Option.None), q.posn, [];
    var size, at := ReadSize(s, q.next);
    var c := At(s, at);
    var x := TypeOf(c, size);
    if x == Option.None {
      return BadFormat, d, posn', own;
    }
    var argIndex := Option.None;
    r := Fine;
    if x.value != TypeNone {
      r, argIndex, posn' := TakeOwn(s, start, p, q.posn, x.value, args);
    }
    own := Uses(argIndex, x.value);
    d := Directive(start, at + 1, flags, w.length, w.arg, q.length, q.arg, Recorded(c), argIndex);
    ConversionFrom(s, start, p, flags, w, q, at, c, x.value);
  }

  /** The directive at start is not understood, or it contradicts the table. */
  predicate Refused(s: string, start: nat, posn: nat, t: Table)
    requires start < |s|
  {
    var o := DirectiveAt(s, start, posn);
    o == Option.None || RegisterAll(t, o.value.uses) == Option.None
  }

  /** One directive, whose "%" is at start. */
  method ParseDirective(s: string, start: nat, posn: nat, args: Arguments)
      returns (r: Status, d: Directive, posn': nat, ghost uses: seq<Use>)
    requires start < |s| < SIZE_MAX && s[start] == '%' && posn <= start && args.Valid()
    modifies args, args.arg
    ensures args.Valid() && (args.arg == old(args.arg) || fresh(args.arg))
    ensures r == Fine ==>
      && DirectiveAt(s, start, posn) == Some(Reading(d, uses, posn'))
      && RegisterAll(old(args.Types()), uses) == Some(args.Types())
      && exists p :: IsSpec(p) && Spells(s, start, p) && ReadAs(Reading(d, uses, posn'), p, start, posn)
    ensures r == BadFormat ==> Refused(s, start, posn, old(args.Types()))
    ensures r == NoMemory ==> !Modest(s)
  {
    d, posn', uses := Directive(start, 0, {}, 0, Option.None, 0, Option.None, '%', Option.None), posn, [];
    var cp := start + 1;
    var p := ReadPosition(s, cp);
    if p == BadPosition {
      return BadFormat, d, posn, uses;
    }
    if p.Position? {
      cp := p.next;
    }
    ghost var t := args.Types();
    var flags, w, q;
    flags, cp := ReadFlags(s, cp);
    r, w, q := ReadFields(s, cp, posn, args);
    if r != Fine {
      FieldsRefused(s, start, posn, t);
      return r, d, posn, uses;
    }
    ghost var own;
    r, d, posn', own := ReadConversion(s, start, p, flags, w, q, args);
    uses := Uses(w.arg, Int) + Uses(q.arg, Int) + own;
    RegisterAllConcat(t, Uses(w.arg, Int) + Uses(q.arg, Int), own);
    if r == Fine {
      var spec := ReadStands(s, start, posn, Reading(d, uses, posn'));
    }
  }

  /** A width or precision that contradicts the table makes the whole directive contradict it. */
  lemma FieldsRefused(s: string, start: nat, posn: nat, t: Table)
    requires start < |s| && PositionAt(s, start + 1) != BadPosition
    ensures
      var p := PositionAt(s, start + 1);
      var o := FieldsAt(s, FlagEnd(s, if p.Position? then p.next else start + 1), posn);
      o == Option.None || RegisterAll(t, Uses(o.value.0.arg, Int) + Uses(o.value.1.arg, Int)) == Option.None
      ==> Refused(s, start, posn, t)
  {
    if DirectiveAt(s, start, posn).Some? {
      var p := PositionAt(s, start + 1);
      var at := if p.Position? then p.next else start + 1;
      var f := FlagEnd(s, at);
      var (w, q) := FieldsAt(s, f, posn).value;
      var r := DirectiveAt(s, start, posn).value;
      var x := ConversionUses(s, start, p, Chars(s, at, f), w, q);
      RegisterAllConcat(t, Uses(w.arg, Int) + Uses(q.arg, Int), Uses(r.d.argIndex, x));
    }
  }

  /** The next directive of a format. */
  method ParseNext(s: string, cp: nat, posn: nat, args: Arguments) returns (r: Status, d: Directive, posn': nat)
    requires cp < |s| < SIZE_MAX && s[cp] == '%' && posn <= cp && args.Valid()
    modifies args, args.arg
    ensures args.Valid() && (args.arg == old(args.arg) || fresh(args.arg))
    ensures r == Fine ==>
      && cp < d.dirEnd <= |s| && posn' <= d.dirEnd
      && FormatAt(s, cp, posn, old(args.Types())) == Behind([d], FormatAt(s, d.dirEnd, posn', args.Types()))
    ensures r == BadFormat ==> FormatAt(s, cp, posn, old(args.Types())) == Option.None
    ensures r == NoMemory ==> !Modest(s)
  {
    ghost var uses;
    r, d, posn', uses := ParseDirective(s, cp, posn, args);
  }

  lemma BehindTwice(ds: seq<Directive>, d: Directive, o: Option<(seq<Directive>, Table)>)
    ensures Behind(ds, Behind([d], o)) == Behind(ds + [d], o)
  {
    if o.Some? {
      assert ds + ([d] + o.value.0) == (ds + [d]) + o.value.0;
    }
  }

  lemma BehindNothing(o: Option<(seq<Directive>, Table)>)
    ensures Behind([], o) == o
  {
    if o.Some? {
      assert [] + o.value.0 == o.value.0;
    }
  }

  function Max(a: nat, b: nat): nat {
    if a < b then b else a
  }

  predicate Sized(ds: seq<Directive>, maxWidth: nat, maxPrecision: nat) {
    forall k :: 0 <= k < |ds| ==> ds[k].widthLength <= maxWidth && ds[k].precisionLength <= maxPrecision
  }

  /**
   * PRINTF_PARSE: the directives of a format, the types of the arguments they use, and bounds of the widths and
   * precisions; an error exactly if the format is not understood or contradicts itself.
   */
  method Parse(s: string)
      returns (r: Status, ds: seq<Directive>, args: Arguments, maxWidthLength: nat, maxPrecisionLength: nat)
    requires |s| < SIZE_MAX
    ensures fresh(args) && args.Valid()
    ensures r == Fine ==> FormatAt(s, 0, 0, []) == Some((ds, args.Types())) && Parsed(s, ds, args.Types())
    ensures r == Fine ==> Sized(ds, maxWidthLength, maxPrecisionLength)
    ensures r == BadFormat ==> FormatAt(s, 0, 0, []) == Option.None && Rejected(s)
    ensures Modest(s) ==> r != NoMemory
  {
    args := new Arguments();
    ds, maxWidthLength, maxPrecisionLength := [], 0, 0;
    var cp := 0;
    var posn: nat := 0;
    FormatDecides(s);
    BehindNothing(FormatAt(s, 0, 0, []));
    while cp < |s|
      invariant posn <= cp <= |s| && args.Valid() && fresh(args.arg)
      invariant FormatAt(s, 0, 0, []) == Behind(ds, FormatAt(s, cp, posn, args.Types()))
      invariant Sized(ds, maxWidthLength, maxPrecisionLength)
      decreases |s| - cp
    {
      if s[cp] == '%' {
        var d;
        r, d, posn := ParseNext(s, cp, posn, args);
        if r != Fine {
          return;
        }
        BehindTwice(ds, d, FormatAt(s, d.dirEnd, posn, args.Types()));
        ds := ds + [d];
        maxWidthLength := Max(maxWidthLength, d.widthLength);
        maxPrecisionLength := Max(maxPrecisionLength, d.precisionLength);
        cp := d.dirEnd;
      } else {
        cp := cp + 1;
      }
    }
    assert ds + [] == ds;
    r := Fine;
  }

  /**
   * Parsing and fetching: every directive then finds in the table what executing it relies on and would call abort
   * without; fetching succeeds exactly if no argument below the highest one used was left out.
   */
  method ParseAndFetch(s: string) returns (r: Status, ok: bool, ds: seq<Directive>, args: Arguments)
    requires |s| < SIZE_MAX
    ensures args.Valid()
    ensures r == Fine ==> Parsed(s, ds, args.Types())
    ensures r == Fine ==> AllUsable(ds, args.Types()) && Tiled(s, ds, 0) && (ok <==> TypeNone !in args.Types())
  {
    var w, p;
    r, ds, args, w, p := Parse(s);
    ok := false;
    if r == Fine {
      FormatIsUsable(s, 0, 0, []);
      FormatIsTiled(s, 0, 0, []);
      ok := FetchArgs(args.arg[..args.count]);
    }
  }
}
