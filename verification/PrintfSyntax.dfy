/**
 * The format strings of printf: what a directive consists of, the arguments it uses, and what is known about a
 * format whose directives agree on the types of their arguments.
 */
module PrintfSyntax {
  import opened Options
  import opened CStrings
  import opened PrintfArguments

  /** A parsed directive; places are positions in the format, and None stands for ARG_NONE. */
  datatype Directive = Directive(
    dirStart: nat, dirEnd: nat, flags: set<char>,
    widthLength: nat, widthArg: Option<nat>, precisionLength: nat, precisionArg: Option<nat>,
    conversion: char, argIndex: Option<nat>)

  /** "n$" at the start of a directive or behind a "*": the argument it names, counting from 0. */
  datatype Position = NoPosition | BadPosition | Position(index: nat, next: nat)

  function Saturated(n: nat): nat {
    if n < SIZE_MAX then n else SIZE_MAX
  }

  function PositionAt(s: string, cp: nat): (p: Position)
    requires cp <= |s|
    ensures p.Position? ==> cp < p.next <= |s| && p.index < SIZE_MAX - 1
  {
    var k := DigitRun(s[cp..]);
    if k == 0 || At(s, cp + k) != '$' then NoPosition
    else
      var n := Saturated(Decimal(s[cp..][..k]));
      if n == 0 || n == SIZE_MAX then BadPosition else Position(n - 1, cp + k + 1)
  }

  predicate IsFlag(c: char) {
    c == '\'' || c == '-' || c == '+' || c == ' ' || c == '#' || c == '0'
  }

  /** The end of the flags at cp. */
  function FlagEnd(s: string, cp: nat): (end: nat)
    requires cp <= |s|
    ensures cp <= end <= |s| && !IsFlag(At(s, end)) && forall i :: cp <= i < end ==> IsFlag(s[i])
    decreases |s| - cp
  {
    if IsFlag(At(s, cp)) then FlagEnd(s, cp + 1) else cp
  }

  /** The characters from place i to place j. */
  function Chars(s: string, i: nat, j: nat): set<char>
    requires i <= j <= |s|
  {
    set k | i <= k < j :: s[k]
  }

  /** Setting a bit of the size flags. */
  function WithBit(flags: nat, bit: nat): nat
    requires bit > 0
  {
    if flags / bit % 2 == 1 then flags else flags + bit
  }

  predicate IsSize(c: char) {
    c == 'h' || c == 'L' || c == 'l' || c == 'j' || c == 'z' || c == 'Z' || c == 't'
  }

  /** One size letter; long, intmax_t, size_t and ptrdiff_t all have 64 bits. */
  function SizeStep(flags: nat, c: char): nat {
    if c == 'h' then WithBit(flags, if flags % 2 == 1 then 2 else 1)
    else if c == 'L' then WithBit(flags, 4)
    else flags + 8
  }

  function SizeFlags(flags: nat, s: string): nat
    decreases |s|
  {
    if IsSize(At(s, 0)) then SizeFlags(SizeStep(flags, s[0]), s[1..]) else flags
  }

  /** The end of the size letters at cp. */
  function SizeEnd(s: string, cp: nat): (end: nat)
    requires cp <= |s|
    ensures cp <= end <= |s| && !IsSize(At(s, end)) && forall i :: cp <= i < end ==> IsSize(s[i])
    decreases |s| - cp
  {
    if IsSize(At(s, cp)) then SizeEnd(s, cp + 1) else cp
  }

  predicate IsSigned(c: char) {
    c == 'd' || c == 'i'
  }

  predicate IsUnsigned(c: char) {
    c == 'o' || c == 'u' || c == 'x' || c == 'X'
  }

  predicate IsFloat(c: char) {
    c == 'f' || c == 'F' || c == 'e' || c == 'E' || c == 'g' || c == 'G' || c == 'a' || c == 'A'
  }

  /** The argument type for a conversion character and the size flags; TypeNone for "%%", None for an error. */
  function TypeOf(c: char, flags: nat): Option<ArgType> {
    var big := flags >= 16 || flags / 4 % 2 == 1;
    if IsSigned(c) then
      Some(if big then LongLongInt else if flags >= 8 then LongInt
           else if flags / 2 % 2 == 1 then Schar else if flags % 2 == 1 then Short else Int)
    else if IsUnsigned(c) then
      Some(if big then UlongLongInt else if flags >= 8 then UlongInt
           else if flags / 2 % 2 == 1 then Uchar else if flags % 2 == 1 then Ushort else Uint)
    else if IsFloat(c) then Some(if big then LongDouble else Double)
    else if c == 'c' then Some(if flags >= 8 then WideChar else Char)
    else if c == 'C' then Some(WideChar)
    else if c == 's' then Some(if flags >= 8 then WideString else String)
    else if c == 'S' then Some(WideString)
    else if c == 'p' then Some(Pointer)
    else if c == 'n' then
      Some(if big then CountLongLongInt else if flags >= 8 then CountLongInt
           else if flags / 2 % 2 == 1 then CountSchar else if flags % 2 == 1 then CountShort else CountInt)
    else if c == '%' then Some(TypeNone)
    else None
  }

  /** The conversion character that is recorded. */
  function Recorded(c: char): char {
    if c == 'C' then 'c' else if c == 'S' then 's' else c
  }

  /** The argument types the code that executes a conversion is prepared for. */
  predicate Fits(conversion: char, x: ArgType) {
    if IsSigned(conversion) then x in {Schar, Short, Int, LongInt, LongLongInt}
    else if IsUnsigned(conversion) then x in {Uchar, Ushort, Uint, UlongInt, UlongLongInt}
    else if IsFloat(conversion) then x in {Double, LongDouble}
    else if conversion == 'c' then x in {Char, WideChar}
    else if conversion == 's' then x in {String, WideString}
    else if conversion == 'p' then x == Pointer
    else conversion == 'n' && x in {CountSchar, CountShort, CountInt, CountLongInt, CountLongLongInt}
  }

  lemma TypesFit(c: char, flags: nat)
    requires TypeOf(c, flags).Some?
    ensures TypeOf(c, flags).value == TypeNone <==> Recorded(c) == '%'
    ensures Recorded(c) != '%' ==> Fits(Recorded(c), TypeOf(c, flags).value)
  {
  }

  predicate IsInt(a: Option<nat>, t: Table) {
    a.Some? ==> a.value < |t| && t[a.value] == Int
  }

  /** What executing a directive relies on, and calls abort without. */
  predicate Usable(d: Directive, t: Table) {
    && IsInt(d.widthArg, t) && IsInt(d.precisionArg, t)
    && (d.conversion == '%' <==> d.argIndex == None)
    && (d.argIndex.Some? ==> d.argIndex.value < |t| && Fits(d.conversion, t[d.argIndex.value]))
  }

  lemma StillUsable(d: Directive, t: Table, t': Table)
    requires Usable(d, t) && Extends(t, t')
    ensures Usable(d, t')
  {
  }

  /** The argument for a position, or the next of the regular ones, and where the text goes on. */
  datatype Choice = Choice(index: nat, next: nat, posn: nat)

  function Chosen(p: Position, cp: nat, posn: nat): Choice
    requires p != BadPosition
  {
    if p.Position? then Choice(p.index, p.next, posn) else Choice(posn, cp, posn + 1)
  }

  /** A width or a precision: its length, or the argument that holds it. */
  datatype Part = Part(length: nat, arg: Option<nat>, next: nat, posn: nat)

  /** The part with a "*" in front of cp. */
  function StarAt(s: string, cp: nat, posn: nat, length: nat): (o: Option<Part>)
    requires cp <= |s|
    ensures o.Some? ==> cp <= o.value.next <= |s| && o.value.posn <= posn + 1
  {
    var p := PositionAt(s, cp);
    if p == BadPosition then Option.None
    else
      var c := Chosen(p, cp, posn);
      Some(Part(length, Some(c.index), c.next, c.posn))
  }

  function WidthAt(s: string, cp: nat, posn: nat): (o: Option<Part>)
    requires cp <= |s|
    ensures o.Some? ==> cp <= o.value.next <= |s| && o.value.posn <= posn + (o.value.next - cp)
  {
    if At(s, cp) == '*' then StarAt(s, cp + 1, posn, 1)
    else Some(Part(DigitRun(s[cp..]), Option.None, cp + DigitRun(s[cp..]), posn))
  }

  function PrecisionAt(s: string, cp: nat, posn: nat): (o: Option<Part>)
    requires cp <= |s|
    ensures o.Some? ==> cp <= o.value.next <= |s| && o.value.posn <= posn + (o.value.next - cp)
  {
    if At(s, cp) != '.' then Some(Part(0, Option.None, cp, posn))
    else if At(s, cp + 1) == '*' then StarAt(s, cp + 2, posn, 2)
    else
      var k := 1 + DigitRun(s[cp + 1..]);
      Some(Part(k, Option.None, cp + k, posn))
  }

  /** Width and precision. */
  function FieldsAt(s: string, cp: nat, posn: nat): (o: Option<(Part, Part)>)
    requires cp <= |s|
    ensures o.Some? ==> cp <= o.value.1.next <= |s| && o.value.1.posn <= posn + (o.value.1.next - cp)
  {
    var w := WidthAt(s, cp, posn);
    if w == Option.None then Option.None
    else
      var q := PrecisionAt(s, w.value.next, w.value.posn);
      if q == Option.None then Option.None else Some((w.value, q.value))
  }

  /** An argument that a directive uses, and the type it wants it to have. */
  datatype Use = Use(index: nat, x: ArgType)

  function Uses(arg: Option<nat>, x: ArgType): seq<Use> {
    if arg == Option.None then [] else [Use(arg.value, x)]
  }

  datatype Reading = Reading(d: Directive, uses: seq<Use>, posn: nat)

  /** The directive whose "%" is at start; posn regular arguments have been used before. */
  function DirectiveAt(s: string, start: nat, posn: nat): (o: Option<Reading>)
    requires start < |s|
    ensures o.Some? ==> start == o.value.d.dirStart < o.value.d.dirEnd <= |s|
    ensures o.Some? ==> o.value.posn <= posn + (o.value.d.dirEnd - start)
  {
    var p := PositionAt(s, start + 1);
    if p == BadPosition then Option.None
    else
      var at := if p.Position? then p.next else start + 1;
      var f := FlagEnd(s, at);
      var o := FieldsAt(s, f, posn);
      if o == Option.None then Option.None
      else ConversionAt(s, start, p, Chars(s, at, f), o.value.0, o.value.1)
  }

  /** The rest of a directive behind position, flags, width and precision. */
  function ConversionAt(s: string, start: nat, p: Position, flags: set<char>, w: Part, q: Part): (o: Option<Reading>)
    requires start < q.next <= |s| && p != BadPosition
    ensures o.Some? ==> start == o.value.d.dirStart < o.value.d.dirEnd <= |s| && q.next < o.value.d.dirEnd
    ensures o.Some? ==> o.value.posn <= q.posn + 1
  {
    var z := SizeEnd(s, q.next);
    var c := At(s, z);
    var x := TypeOf(c, SizeFlags(0, s[q.next..]));
    if x == Option.None then Option.None
    else
      var arg := if x.value == TypeNone then Option.None else Some(Chosen(p, 0, q.posn).index);
      Some(Reading(
        Directive(start, z + 1, flags, w.length, w.arg, q.length, q.arg, Recorded(c), arg),
        Uses(w.arg, Int) + Uses(q.arg, Int) + Uses(arg, x.value),
        if arg == Option.None then q.posn else Chosen(p, 0, q.posn).posn))
  }

  /** The table after all uses have been registered, if they do not contradict each other. */
  function RegisterAll(t: Table, uses: seq<Use>): Option<Table>
    decreases |uses|
  {
    if uses == [] then Some(t)
    else if !Agrees(t, uses[0].index, uses[0].x) then Option.None
    else RegisterAll(Registered(t, uses[0].index, uses[0].x), uses[1..])
  }

  /** The directives from cp on and the table with their uses; None for a format that is not understood. */
  function FormatAt(s: string, cp: nat, posn: nat, t: Table): Option<(seq<Directive>, Table)>
    requires cp <= |s|
    decreases |s| - cp
  {
    if cp == |s| then Some(([], t))
    else if s[cp] != '%' then FormatAt(s, cp + 1, posn, t)
    else
      var r := DirectiveAt(s, cp, posn);
      if r == Option.None then Option.None
      else
        var t' := RegisterAll(t, r.value.uses);
        if t' == Option.None then Option.None
        else Behind([r.value.d], FormatAt(s, r.value.d.dirEnd, r.value.posn, t'.value))
  }

  function Behind(ds: seq<Directive>, o: Option<(seq<Directive>, Table)>): Option<(seq<Directive>, Table)> {
    if o == Option.None then Option.None else Some((ds + o.value.0, o.value.1))
  }

  lemma ExtendsTrans(a: Table, b: Table, c: Table)
    requires Extends(a, b) && Extends(b, c)
    ensures Extends(a, c)
  {
  }

  lemma {:induction false} RegisterAllConcat(t: Table, a: seq<Use>, b: seq<Use>)
    ensures RegisterAll(t, a + b) ==
      if RegisterAll(t, a) == Option.None then Option.None else RegisterAll(RegisterAll(t, a).value, b)
    decreases |a|
  {
    if a == [] {
      assert a + b == b;
    } else {
      assert (a + b)[0] == a[0] && (a + b)[1..] == a[1..] + b;
      if Agrees(t, a[0].index, a[0].x) {
        RegisterAllConcat(Registered(t, a[0].index, a[0].x), a[1..], b);
      }
    }
  }

  predicate HasUse(t: Table, u: Use) {
    u.index < |t| && t[u.index] == u.x
  }

  /** Whatever is registered stays, so that in the end every use finds its type. */
  lemma {:induction false} RegisterAllHas(t: Table, uses: seq<Use>)
    requires RegisterAll(t, uses).Some? && forall i :: 0 <= i < |uses| ==> uses[i].x != TypeNone
    ensures Extends(t, RegisterAll(t, uses).value)
    ensures forall i :: 0 <= i < |uses| ==> HasUse(RegisterAll(t, uses).value, uses[i])
    decreases |uses|
  {
    if uses != [] {
      var u := uses[0];
      var t1 := Registered(t, u.index, u.x);
      RegisterAllHas(t1, uses[1..]);
      RegisteredExtends(t, u.index, u.x);
      ExtendsTrans(t, t1, RegisterAll(t, uses).value);
      forall i | 0 <= i < |uses|
        ensures HasUse(RegisterAll(t, uses).value, uses[i])
      {
        assert i > 0 ==> uses[i] == uses[1..][i - 1];
      }
    }
  }

  /** The uses of a directive: its width and precision as int, and the argument with a type for the conversion. */
  lemma ConversionUses(s: string, start: nat, p: Position, flags: set<char>, w: Part, q: Part) returns (x: ArgType)
    requires start < q.next <= |s| && p != BadPosition && ConversionAt(s, start, p, flags, w, q).Some?
    ensures
      var r := ConversionAt(s, start, p, flags, w, q).value;
      && r.uses == Uses(r.d.widthArg, Int) + Uses(r.d.precisionArg, Int) + Uses(r.d.argIndex, x)
      && (r.d.conversion == '%' <==> r.d.argIndex == Option.None)
      && (r.d.argIndex.Some? ==> x != TypeNone && Fits(r.d.conversion, x))
  {
    var c := At(s, SizeEnd(s, q.next));
    var flags := SizeFlags(0, s[q.next..]);
    TypesFit(c, flags);
    x := TypeOf(c, flags).value;
  }

  lemma HasUses(t: Table, w: Option<nat>, q: Option<nat>, arg: Option<nat>, x: ArgType, uses: seq<Use>)
    requires uses == Uses(w, Int) + Uses(q, Int) + Uses(arg, x)
    requires forall i :: 0 <= i < |uses| ==> HasUse(t, uses[i])
    ensures IsInt(w, t) && IsInt(q, t) && (arg.Some? ==> HasUse(t, Use(arg.value, x)))
  {
    if w.Some? {
      assert uses[0] == Use(w.value, Int);
    }
    if q.Some? {
      assert uses[|Uses(w, Int)|] == Use(q.value, Int);
    }
    if arg.Some? {
      assert uses[|uses| - 1] == Use(arg.value, x);
    }
  }

  /** A directive finds what executing it relies on in every table its uses have been entered into. */
  lemma DirectiveIsUsable(s: string, start: nat, posn: nat, t: Table)
    requires start < |s| && DirectiveAt(s, start, posn).Some?
    requires RegisterAll(t, DirectiveAt(s, start, posn).value.uses).Some?
    ensures
      var r := DirectiveAt(s, start, posn).value;
      var t' := RegisterAll(t, r.uses).value;
      Extends(t, t') && Usable(r.d, t')
  {
    var r := DirectiveAt(s, start, posn).value;
    var p := PositionAt(s, start + 1);
    var at := if p.Position? then p.next else start + 1;
    var f := FlagEnd(s, at);
    var (w, q) := FieldsAt(s, f, posn).value;
    var x := ConversionUses(s, start, p, Chars(s, at, f), w, q);
    UsesAreUsable(t, r, x);
  }

  lemma UsesAreUsable(t: Table, r: Reading, x: ArgType)
    requires r.uses == Uses(r.d.widthArg, Int) + Uses(r.d.precisionArg, Int) + Uses(r.d.argIndex, x)
    requires r.d.conversion == '%' <==> r.d.argIndex == Option.None
    requires r.d.argIndex.Some? ==> x != TypeNone && Fits(r.d.conversion, x)
    requires RegisterAll(t, r.uses).Some?
    ensures Extends(t, RegisterAll(t, r.uses).value) && Usable(r.d, RegisterAll(t, r.uses).value)
  {
    RegisterAllHas(t, r.uses);
    HasUses(RegisterAll(t, r.uses).value, r.d.widthArg, r.d.precisionArg, r.d.argIndex, x, r.uses);
  }

  predicate AllUsable(ds: seq<Directive>, t: Table) {
    forall k :: 0 <= k < |ds| ==> Usable(ds[k], t)
  }

  lemma UsableCons(d: Directive, ds: seq<Directive>, t: Table, t': Table)
    requires Usable(d, t) && Extends(t, t') && AllUsable(ds, t')
    ensures AllUsable([d] + ds, t')
  {
    StillUsable(d, t, t');
    forall k | 0 <= k < |ds| + 1
      ensures Usable(([d] + ds)[k], t')
    {
      assert k > 0 ==> ([d] + ds)[k] == ds[k - 1];
    }
  }

  /** The first directive of a format, with the table behind it, and the rest. */
  lemma FormatCons(s: string, cp: nat, posn: nat, t: Table)
      returns (d: Directive, posn': nat, t1: Table, ds: seq<Directive>, t2: Table)
    requires cp < |s| && s[cp] == '%' && FormatAt(s, cp, posn, t).Some?
    ensures d.dirStart == cp < d.dirEnd <= |s| && Extends(t, t1) && Usable(d, t1)
    ensures FormatAt(s, d.dirEnd, posn', t1) == Some((ds, t2))
    ensures FormatAt(s, cp, posn, t) == Some(([d] + ds, t2))
  {
    DirectiveIsUsable(s, cp, posn, t);
    var r := DirectiveAt(s, cp, posn).value;
    d, posn', t1 := r.d, r.posn, RegisterAll(t, r.uses).value;
    var rest := FormatAt(s, d.dirEnd, posn', t1);
    ds, t2 := rest.value.0, rest.value.1;
  }

  /** In a format that is understood every directive finds in the final table what executing it relies on. */
  lemma {:induction false} FormatIsUsable(s: string, cp: nat, posn: nat, t: Table)
    requires cp <= |s| && FormatAt(s, cp, posn, t).Some?
    ensures
      var (ds, t') := FormatAt(s, cp, posn, t).value;
      Extends(t, t') && AllUsable(ds, t')
    decreases |s| - cp
  {
    if cp < |s| && s[cp] != '%' {
      FormatIsUsable(s, cp + 1, posn, t);
    } else if cp < |s| {
      var d, posn', t1, ds, t2 := FormatCons(s, cp, posn, t);
      FormatIsUsable(s, d.dirEnd, posn', t1);
      ExtendsTrans(t, t1, t2);
      UsableCons(d, ds, t1, t2);
    }
  }

  predicate Plain(s: string, i: nat, j: nat) {
    i <= j <= |s| && forall m :: i <= m < j ==> s[m] != '%'
  }

  /** From cp on the format is made of the directives, with text in between and at the end that holds no "%". */
  predicate Tiled(s: string, ds: seq<Directive>, cp: nat) {
    if ds == [] then Plain(s, cp, |s|)
    else
      && Plain(s, cp, ds[0].dirStart) && ds[0].dirStart < ds[0].dirEnd <= |s| && s[ds[0].dirStart] == '%'
      && Tiled(s, ds[1..], ds[0].dirEnd)
  }

  lemma {:induction false} FormatIsTiled(s: string, cp: nat, posn: nat, t: Table)
    requires cp <= |s| && FormatAt(s, cp, posn, t).Some?
    ensures Tiled(s, FormatAt(s, cp, posn, t).value.0, cp)
    decreases |s| - cp
  {
    if cp < |s| && s[cp] != '%' {
      FormatIsTiled(s, cp + 1, posn, t);
    } else if cp < |s| {
      var d, posn', t1, ds, t2 := FormatCons(s, cp, posn, t);
      FormatIsTiled(s, d.dirEnd, posn', t1);
      assert ([d] + ds)[1..] == ds;
    }
  }
}
