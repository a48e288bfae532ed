/**
 * The grammar of the directives that the parser reads: the parts of those of section 7.19.6.1 of ISO C99, with numbered
 * arguments, but with any run of size letters in front of any conversion it knows.  The reading of a directive in a
 * format is the only way to cut it into these parts.  PrintfStandard compares this with the standard.
 */
module PrintfGrammar {
  import opened Options
  import opened CStrings
  import opened PrintfArguments
  import opened PrintfSyntax

  /** The parts of a directive behind the "%". */
  datatype Spec = Spec(
    position: string, flags: string, width: string, precision: string, size: string, conversion: char)

  predicate AllDigits(x: string) {
    forall i :: 0 <= i < |x| ==> Digit(x[i])
  }

  /** "n$", with a positive number that fits. */
  predicate IsPosition(x: string) {
    && |x| > 1 && x[|x| - 1] == '$' && AllDigits(x[..|x| - 1])
    && 0 < Decimal(x[..|x| - 1]) < SIZE_MAX
  }

  /** "*" or "*n$" */
  predicate IsStar(x: string) {
    x != "" && x[0] == '*' && (|x| == 1 || IsPosition(x[1..]))
  }

  predicate IsWidth(x: string) {
    x == "" || IsStar(x) || (AllDigits(x) && x[0] != '0')
  }

  predicate IsPrecision(x: string) {
    x == "" || (x[0] == '.' && (IsStar(x[1..]) || AllDigits(x[1..])))
  }

  predicate IsSpec(p: Spec) {
    HasParts(p) && TypeOf(p.conversion, SizeFlags(0, p.size)).Some?
  }

  /** The parts in front of the conversion. */
  predicate HasParts(p: Spec) {
    && (p.position == "" || IsPosition(p.position))
    && (forall i :: 0 <= i < |p.flags| ==> IsFlag(p.flags[i]))
    && IsWidth(p.width) && IsPrecision(p.precision)
    && (forall i :: 0 <= i < |p.size| ==> IsSize(p.size[i]))
  }

  /** Where the parts end in a text that starts with "%" at start. */
  function FlagsAt(p: Spec, start: nat): nat { start + 1 + |p.position| }

  function WidthStart(p: Spec, start: nat): nat { FlagsAt(p, start) + |p.flags| }

  function PrecisionStart(p: Spec, start: nat): nat { WidthStart(p, start) + |p.width| }

  function SizeStart(p: Spec, start: nat): nat { PrecisionStart(p, start) + |p.precision| }

  function ConversionStart(p: Spec, start: nat): nat { SizeStart(p, start) + |p.size| }

  /** The text x stands at position cp. */
  predicate Here(s: string, cp: nat, x: string) {
    cp + |x| <= |s| && s[cp..cp + |x|] == x
  }

  lemma HereAt(s: string, cp: nat, x: string)
    requires Here(s, cp, x)
    ensures forall i :: cp <= i < cp + |x| ==> s[i] == x[i - cp]
  {
    forall i | cp <= i < cp + |x|
      ensures s[i] == x[i - cp]
    {
      assert s[i] == s[cp..cp + |x|][i - cp];
    }
  }

  /** The parts stand one behind the other, from the "%" at start. */
  predicate Spells(s: string, start: nat, p: Spec) {
    && start < |s| && s[start] == '%' && Here(s, start + 1, p.position) && Here(s, FlagsAt(p, start), p.flags)
    && Here(s, WidthStart(p, start), p.width) && Here(s, PrecisionStart(p, start), p.precision)
    && Here(s, SizeStart(p, start), p.size) && Here(s, ConversionStart(p, start), [p.conversion])
  }

  /** A character that belongs to none of the parts in front of the size letters. */
  predicate Inert(c: char) {
    !Digit(c) && !IsFlag(c) && c != '$' && c != '*' && c != '.'
  }

  /** What may follow a width or a precision. */
  predicate EndsPart(c: char) {
    !Digit(c) && c != '$' && c != '*'
  }

  lemma ConversionIsInert(c: char, flags: nat)
    requires TypeOf(c, flags).Some?
    ensures Inert(c) && !IsSize(c)
  {
  }

  /** The parts can be told from one another. */
  predicate Apart(p: Spec) {
    HasParts(p) && Inert(p.conversion) && !IsSize(p.conversion)
  }

  lemma {:induction false} FlagEndIs(s: string, cp: nat, k: nat)
    requires cp <= k <= |s| && (forall i :: cp <= i < k ==> IsFlag(s[i])) && !IsFlag(At(s, k))
    ensures FlagEnd(s, cp) == k
    decreases k - cp
  {
    if cp < k {
      FlagEndIs(s, cp + 1, k);
    }
  }

  lemma {:induction false} SizeEndIs(s: string, cp: nat, k: nat)
    requires cp <= k <= |s| && (forall i :: cp <= i < k ==> IsSize(s[i])) && !IsSize(At(s, k))
    ensures SizeEnd(s, cp) == k
    decreases k - cp
  {
    if cp < k {
      SizeEndIs(s, cp + 1, k);
    }
  }

  lemma {:induction false} SizeFlagsOf(flags: nat, x: string, rest: string)
    requires (forall i :: 0 <= i < |x| ==> IsSize(x[i])) && !IsSize(At(rest, 0))
    ensures SizeFlags(flags, x + rest) == SizeFlags(flags, x)
    decreases |x|
  {
    if x == "" {
      assert x + rest == rest;
    } else {
      assert (x + rest)[1..] == x[1..] + rest && (x + rest)[0] == x[0];
      SizeFlagsOf(SizeStep(flags, x[0]), x[1..], rest);
    }
  }

  /** A position is read where it stands. */
  lemma PositionHere(s: string, cp: nat, x: string)
    requires IsPosition(x) && Here(s, cp, x)
    ensures PositionAt(s, cp) == Position(Decimal(x[..|x| - 1]) - 1, cp + |x|)
  {
    var t, k := s[cp..], |x| - 1;
    assert forall i :: 0 <= i < |x| ==> t[i] == s[cp..cp + |x|][i];
    DigitRunIs(t, k);
    assert t[..k] == x[..k];
  }

  /** None is read where no "$" follows the digits. */
  lemma NoPositionHere(s: string, cp: nat, e: nat)
    requires cp <= e <= |s| && (forall i :: cp <= i < e ==> s[i] != '$') && At(s, e) != '$' && !Digit(At(s, e))
    ensures PositionAt(s, cp) == NoPosition
  {
    var t, k := s[cp..], DigitRun(s[cp..]);
    assert k <= e - cp by {
      assert e < |s| ==> t[e - cp] == s[e];
    }
  }

  /** And a position that has been read stands there. */
  lemma PositionStands(s: string, cp: nat)
    requires cp <= |s| && PositionAt(s, cp).Position?
    ensures
      var p := PositionAt(s, cp);
      IsPosition(s[cp..p.next]) && p.index == Decimal(s[cp..p.next][..p.next - cp - 1]) - 1
  {
    var p := PositionAt(s, cp);
    var x, k := s[cp..p.next], p.next - cp - 1;
    assert x[..k] == s[cp..][..k];
  }

  /** What a "*" is read as: it takes the next argument, or the one with its number, counting from 1. */
  function StarPart(x: string, next: nat, posn: nat, length: nat): (part: Part)
    requires IsStar(x)
    ensures part.next == next
  {
    if |x| == 1 then Part(length, Some(posn), next, posn + 1)
    else Part(length, Some(Decimal(x[1..][..|x| - 2]) - 1), next, posn)
  }

  function WidthPart(x: string, next: nat, posn: nat): (part: Part)
    ensures part.next == next
  {
    if IsStar(x) then StarPart(x, next, posn, 1) else Part(|x|, Option.None, next, posn)
  }

  function PrecisionPart(x: string, next: nat, posn: nat): (part: Part)
    ensures part.next == next
  {
    if x != "" && IsStar(x[1..]) then StarPart(x[1..], next, posn, 2) else Part(|x|, Option.None, next, posn)
  }

  lemma StarHere(s: string, cp: nat, x: string, posn: nat, length: nat)
    requires IsStar(x) && cp > 0 && Here(s, cp - 1, x) && EndsPart(At(s, cp - 1 + |x|))
    ensures StarAt(s, cp, posn, length) == Some(StarPart(x, cp - 1 + |x|, posn, length))
  {
    if |x| == 1 {
      NoPositionHere(s, cp, cp);
    } else {
      assert s[cp..cp + |x| - 1] == s[cp - 1..cp - 1 + |x|][1..];
      PositionHere(s, cp, x[1..]);
    }
  }

  lemma WidthHere(s: string, cp: nat, x: string, posn: nat)
    requires IsWidth(x) && Here(s, cp, x) && EndsPart(At(s, cp + |x|))
    ensures WidthAt(s, cp, posn) == Some(WidthPart(x, cp + |x|, posn))
  {
    HereAt(s, cp, x);
    if x != "" && x[0] == '*' {
      StarHere(s, cp + 1, x, posn, 1);
    } else {
      DigitRunIs(s[cp..], |x|);
    }
  }

  lemma PrecisionHere(s: string, cp: nat, x: string, posn: nat)
    requires IsPrecision(x) && Here(s, cp, x) && EndsPart(At(s, cp + |x|)) && At(s, cp + |x|) != '.'
    ensures PrecisionAt(s, cp, posn) == Some(PrecisionPart(x, cp + |x|, posn))
  {
    HereAt(s, cp, x);
    if x != "" {
      assert s[cp + 1..cp + |x|] == x[1..];
      if |x| > 1 && x[1] == '*' {
        StarHere(s, cp + 2, x[1..], posn, 2);
      } else {
        DigitRunIs(s[cp + 1..], |x| - 1);
      }
    }
  }

  /** What stands where the parts of a directive meet: behind the precision, behind the width, behind the flags. */
  lemma BehindPrecision(s: string, start: nat, p: Spec)
    requires Apart(p) && Spells(s, start, p)
    ensures Inert(At(s, SizeStart(p, start))) && !IsSize(At(s, ConversionStart(p, start)))
    ensures At(s, ConversionStart(p, start)) == p.conversion
  {
    HereAt(s, ConversionStart(p, start), [p.conversion]);
    HereAt(s, SizeStart(p, start), p.size);
  }

  lemma BehindWidth(s: string, start: nat, p: Spec)
    requires Apart(p) && Spells(s, start, p)
    ensures At(s, PrecisionStart(p, start)) == '.' || Inert(At(s, PrecisionStart(p, start)))
  {
    BehindPrecision(s, start, p);
    HereAt(s, PrecisionStart(p, start), p.precision);
  }

  lemma BehindFlags(s: string, start: nat, p: Spec)
    requires Apart(p) && Spells(s, start, p)
    ensures !IsFlag(At(s, WidthStart(p, start))) && At(s, WidthStart(p, start)) != '$'
    ensures p.width == "" || p.width[0] == '*' ==> !Digit(At(s, WidthStart(p, start)))
  {
    BehindWidth(s, start, p);
    HereAt(s, WidthStart(p, start), p.width);
  }

  lemma NoPositionRead(s: string, start: nat, p: Spec)
    requires Apart(p) && Spells(s, start, p) && p.position == ""
    ensures PositionAt(s, start + 1) == NoPosition
  {
    BehindWidth(s, start, p);
    BehindFlags(s, start, p);
    HereAt(s, FlagsAt(p, start), p.flags);
    HereAt(s, WidthStart(p, start), p.width);
    if p.width == "" || p.width[0] == '*' {
      NoPositionHere(s, start + 1, WidthStart(p, start));
    } else {
      NoPositionHere(s, start + 1, PrecisionStart(p, start));
    }
  }

  /** The position is read where there is one, and only there. */
  lemma PositionRead(s: string, start: nat, p: Spec)
    requires Apart(p) && Spells(s, start, p)
    ensures PositionAt(s, start + 1) ==
              if p.position == "" then NoPosition
              else Position(Decimal(p.position[..|p.position| - 1]) - 1, FlagsAt(p, start))
  {
    if p.position == "" {
      NoPositionRead(s, start, p);
    } else {
      PositionHere(s, start + 1, p.position);
    }
  }

  lemma EndsHere(s: string, start: nat, p: Spec)
    requires Apart(p) && Spells(s, start, p)
    ensures FlagEnd(s, FlagsAt(p, start)) == WidthStart(p, start)
    ensures SizeEnd(s, SizeStart(p, start)) == ConversionStart(p, start)
    ensures SizeFlags(0, s[SizeStart(p, start)..]) == SizeFlags(0, p.size)
  {
    BehindFlags(s, start, p);
    BehindPrecision(s, start, p);
    HereAt(s, FlagsAt(p, start), p.flags);
    FlagEndIs(s, FlagsAt(p, start), WidthStart(p, start));
    HereAt(s, SizeStart(p, start), p.size);
    SizeEndIs(s, SizeStart(p, start), ConversionStart(p, start));
    var rest := s[ConversionStart(p, start)..];
    assert s[SizeStart(p, start)..] == p.size + rest;
    SizeFlagsOf(0, p.size, rest);
  }

  lemma FieldsAre(s: string, cp: nat, w: string, q: string, posn: nat)
    requires IsWidth(w) && Here(s, cp, w) && EndsPart(At(s, cp + |w|))
    requires IsPrecision(q) && Here(s, cp + |w|, q) && Inert(At(s, cp + |w| + |q|))
    ensures
      var wp := WidthPart(w, cp + |w|, posn);
      FieldsAt(s, cp, posn) == Some((wp, PrecisionPart(q, cp + |w| + |q|, wp.posn)))
  {
    WidthHere(s, cp, w, posn);
    var wp := WidthPart(w, cp + |w|, posn);
    PrecisionHere(s, wp.next, q, wp.posn);
    FieldsFrom(s, cp, posn, wp, PrecisionPart(q, wp.next + |q|, wp.posn));
  }

  lemma FieldsFrom(s: string, cp: nat, posn: nat, w: Part, q: Part)
    requires cp <= |s| && WidthAt(s, cp, posn) == Some(w)
    requires w.next <= |s| && PrecisionAt(s, w.next, w.posn) == Some(q)
    ensures FieldsAt(s, cp, posn) == Some((w, q))
  {
  }

  lemma FieldsHere(s: string, start: nat, p: Spec, posn: nat)
    requires Apart(p) && Spells(s, start, p)
    ensures
      var wp := WidthPart(p.width, PrecisionStart(p, start), posn);
      FieldsAt(s, WidthStart(p, start), posn) == Some((wp, PrecisionPart(p.precision, SizeStart(p, start), wp.posn)))
  {
    BehindWidth(s, start, p);
    BehindPrecision(s, start, p);
    FieldsAre(s, WidthStart(p, start), p.width, p.precision, posn);
  }

  /** The places where the reading of a directive cuts it. */
  datatype Cuts = Cuts(at: nat, f: nat, g: nat, h: nat, z: nat)

  function CutsAt(s: string, start: nat, posn: nat): (o: Option<Cuts>)
    requires start < |s|
    ensures o.Some? ==> var c := o.value; start < c.at <= c.f <= c.g <= c.h <= c.z <= |s|
  {
    var p := PositionAt(s, start + 1);
    if p == BadPosition then Option.None
    else
      var at := if p.Position? then p.next else start + 1;
      var f := FlagEnd(s, at);
      var o := FieldsAt(s, f, posn);
      if o == Option.None then Option.None
      else Some(Cuts(at, f, o.value.0.next, o.value.1.next, SizeEnd(s, o.value.1.next)))
  }

  /** The text can be cut, and its conversion has a type. */
  predicate Readable(s: string, start: nat, posn: nat)
    requires start < |s|
  {
    var o := CutsAt(s, start, posn);
    o.Some? && TypeOf(At(s, o.value.z), SizeFlags(0, s[o.value.h..])).Some?
  }

  /** Just then it is read as a directive. */
  lemma ReadAtCuts(s: string, start: nat, posn: nat)
    requires start < |s|
    ensures
      var o := DirectiveAt(s, start, posn);
      && (o.Some? <==> Readable(s, start, posn))
      && (o.Some? ==> o.value.d.dirEnd == CutsAt(s, start, posn).value.z + 1)
  {
  }

  /** The parts between the cuts. */
  function SliceSpec(s: string, start: nat, c: Cuts): Spec
    requires start < c.at <= c.f <= c.g <= c.h <= c.z <= |s|
  {
    Spec(s[start + 1..c.at], s[c.at..c.f], s[c.f..c.g], s[c.g..c.h], s[c.h..c.z], At(s, c.z))
  }

  /** The parts that the reading of a directive finds. */
  function Cut(s: string, start: nat, posn: nat): Spec
    requires start < |s| && CutsAt(s, start, posn).Some?
  {
    SliceSpec(s, start, CutsAt(s, start, posn).value)
  }

  lemma CutsHere(s: string, start: nat, p: Spec, posn: nat)
    requires Apart(p) && Spells(s, start, p)
    ensures CutsAt(s, start, posn) == Some(Cuts(FlagsAt(p, start), WidthStart(p, start), PrecisionStart(p, start),
      SizeStart(p, start), ConversionStart(p, start)))
  {
    PositionRead(s, start, p);
    EndsHere(s, start, p);
    FieldsHere(s, start, p, posn);
    var w := WidthPart(p.width, PrecisionStart(p, start), posn);
    CutsFrom(s, start, p, posn, w, PrecisionPart(p.precision, SizeStart(p, start), w.posn));
  }

  lemma CutsFrom(s: string, start: nat, p: Spec, posn: nat, w: Part, q: Part)
    requires start < |s| && PositionAt(s, start + 1) != BadPosition
    requires FlagsAt(p, start) ==
      if PositionAt(s, start + 1).Position? then PositionAt(s, start + 1).next else start + 1
    requires FlagsAt(p, start) <= |s| && FlagEnd(s, FlagsAt(p, start)) == WidthStart(p, start)
    requires FieldsAt(s, WidthStart(p, start), posn) == Some((w, q))
    requires w.next == PrecisionStart(p, start) && q.next == SizeStart(p, start)
    requires SizeEnd(s, SizeStart(p, start)) == ConversionStart(p, start)
    ensures CutsAt(s, start, posn) == Some(Cuts(FlagsAt(p, start), WidthStart(p, start), PrecisionStart(p, start),
      SizeStart(p, start), ConversionStart(p, start)))
  {
  }

  /** The parts are the slices of the text between the places where they meet. */
  lemma SpelledSlices(s: string, start: nat, p: Spec)
    requires Spells(s, start, p)
    ensures ConversionStart(p, start) < |s| && s[ConversionStart(p, start)] == p.conversion
    ensures SliceSpec(s, start, Cuts(FlagsAt(p, start), WidthStart(p, start), PrecisionStart(p, start),
      SizeStart(p, start), ConversionStart(p, start))) == p
  {
    HereAt(s, ConversionStart(p, start), [p.conversion]);
  }

  lemma SlicesSpell(s: string, start: nat, c: Cuts)
    requires start < c.at <= c.f <= c.g <= c.h <= c.z < |s| && s[start] == '%'
    ensures Spells(s, start, SliceSpec(s, start, c))
  {
  }

  /** Completeness: what the grammar allows is read, and cut into just these parts. */
  lemma GrammaticalIsRead(s: string, start: nat, p: Spec, posn: nat)
    requires IsSpec(p) && Spells(s, start, p)
    ensures Readable(s, start, posn) && Cut(s, start, posn) == p
  {
    ConversionIsInert(p.conversion, SizeFlags(0, p.size));
    CutsHere(s, start, p, posn);
    EndsHere(s, start, p);
    SpelledSlices(s, start, p);
  }

  lemma NulHasNoType(flags: nat)
    ensures TypeOf('\0', flags) == Option.None
  {
  }

  /** The parts between cuts at the right places are those of the grammar. */
  predicate PartsStand(s: string, start: nat, c: Cuts)
    requires start < c.at <= c.f <= c.g <= c.h <= c.z <= |s|
  {
    && (c.at == start + 1 || IsPosition(s[start + 1..c.at])) && (forall i :: c.at <= i < c.f ==> IsFlag(s[i]))
    && IsWidth(s[c.f..c.g]) && IsPrecision(s[c.g..c.h])
    && (forall i :: c.h <= i < c.z ==> IsSize(s[i])) && !IsSize(At(s, c.z))
  }

  lemma StandingParts(s: string, start: nat, c: Cuts)
    requires start < c.at <= c.f <= c.g <= c.h <= c.z <= |s| && PartsStand(s, start, c)
    ensures HasParts(SliceSpec(s, start, c))
    ensures SizeFlags(0, s[c.h..]) == SizeFlags(0, s[c.h..c.z])
  {
    assert s[c.h..] == s[c.h..c.z] + s[c.z..];
    SizeFlagsOf(0, s[c.h..c.z], s[c.z..]);
  }

  /** Soundness: what is read is grammatical, and its parts are the text. */
  lemma ReadIsGrammatical(s: string, start: nat, posn: nat)
    requires start < |s| && s[start] == '%' && Readable(s, start, posn)
    ensures IsSpec(Cut(s, start, posn)) && Spells(s, start, Cut(s, start, posn))
  {
    var c := CutsAt(s, start, posn).value;
    CutPartsStand(s, start, posn);
    StandingParts(s, start, c);
    NulHasNoType(SizeFlags(0, s[c.h..]));
    SlicesSpell(s, start, c);
  }

  lemma CutPartsStand(s: string, start: nat, posn: nat)
    requires start < |s| && CutsAt(s, start, posn).Some?
    ensures PartsStand(s, start, CutsAt(s, start, posn).value)
  {
    var p := PositionAt(s, start + 1);
    if p.Position? {
      PositionStands(s, start + 1);
    }
    var f := FlagEnd(s, if p.Position? then p.next else start + 1);
    WidthStands(s, f, posn);
    var w := WidthAt(s, f, posn).value;
    PrecisionStands(s, w.next, w.posn);
  }

  lemma StarStands(s: string, cp: nat, posn: nat, length: nat)
    requires 0 < cp <= |s| && s[cp - 1] == '*' && StarAt(s, cp, posn, length).Some?
    ensures IsStar(s[cp - 1..StarAt(s, cp, posn, length).value.next])
  {
    var next := StarAt(s, cp, posn, length).value.next;
    if PositionAt(s, cp).Position? {
      PositionStands(s, cp);
      assert s[cp - 1..next][1..] == s[cp..next];
    }
  }

  lemma WidthStands(s: string, cp: nat, posn: nat)
    requires cp <= |s| && WidthAt(s, cp, posn).Some? && !IsFlag(At(s, cp))
    ensures IsWidth(s[cp..WidthAt(s, cp, posn).value.next])
  {
    if At(s, cp) == '*' {
      StarStands(s, cp + 1, posn, 1);
    } else {
      var k := DigitRun(s[cp..]);
      assert s[cp..cp + k] == s[cp..][..k];
    }
  }

  lemma PrecisionStands(s: string, cp: nat, posn: nat)
    requires cp <= |s| && PrecisionAt(s, cp, posn).Some?
    ensures IsPrecision(s[cp..PrecisionAt(s, cp, posn).value.next])
  {
    if At(s, cp) == '.' {
      var next := PrecisionAt(s, cp, posn).value.next;
      assert s[cp..next][1..] == s[cp + 1..next];
      if At(s, cp + 1) == '*' {
        StarStands(s, cp + 2, posn, 2);
      } else {
        var k := DigitRun(s[cp + 1..]);
        assert s[cp + 1..next] == s[cp + 1..][..k];
      }
    }
  }

  /** A text is read as a directive exactly if the grammar has it, and it can be cut into parts in one way only. */
  lemma ReadingDecidesGrammar(s: string, start: nat, posn: nat, p: Spec)
    requires start < |s| && s[start] == '%'
    ensures DirectiveAt(s, start, posn).Some? ==> CutsAt(s, start, posn).Some?
    ensures IsSpec(p) && Spells(s, start, p) <==> DirectiveAt(s, start, posn).Some? && Cut(s, start, posn) == p
  {
    ReadAtCuts(s, start, posn);
    if IsSpec(p) && Spells(s, start, p) {
      GrammaticalIsRead(s, start, p, posn);
    }
    if Readable(s, start, posn) {
      ReadIsGrammatical(s, start, posn);
    }
  }
}
