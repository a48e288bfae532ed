/**
 * The directives of section 7.19.6.1 of ISO C99, with numbered arguments, beside those the parser reads: it reads all
 * of them with the types they have there, and others besides, which it treats like certain ones of these.
 */
module PrintfStandard {
  import opened Options
  import opened CStrings
  import opened PrintfArguments
  import opened PrintfSyntax
  import opened PrintfGrammar

  /** The table of length modifiers; on the system of the model intmax_t, size_t and ptrdiff_t are as wide as long. */
  function SignedType(size: string): Option<ArgType> {
    if size == "" then Some(Int)
    else if size == "hh" then Some(Schar)
    else if size == "h" then Some(Short)
    else if size == "l" || size == "j" || size == "z" || size == "t" then Some(LongInt)
    else if size == "ll" then Some(LongLongInt)
    else Option.None
  }

  function UnsignedType(size: string): Option<ArgType> {
    if size == "" then Some(Uint)
    else if size == "hh" then Some(Uchar)
    else if size == "h" then Some(Ushort)
    else if size == "l" || size == "j" || size == "z" || size == "t" then Some(UlongInt)
    else if size == "ll" then Some(UlongLongInt)
    else Option.None
  }

  function CountType(size: string): Option<ArgType> {
    if size == "" then Some(CountInt)
    else if size == "hh" then Some(CountSchar)
    else if size == "h" then Some(CountShort)
    else if size == "l" || size == "j" || size == "z" || size == "t" then Some(CountLongInt)
    else if size == "ll" then Some(CountLongLongInt)
    else Option.None
  }

  /** The type of the argument of a conversion; TypeNone for the percent sign, which has none. */
  function StandardType(size: string, c: char): Option<ArgType> {
    if c in "di" then SignedType(size)
    else if c in "ouxX" then UnsignedType(size)
    else if c == 'n' then CountType(size)
    else if c in "fFeEgGaA" then
      if size == "" || size == "l" then Some(Double) else if size == "L" then Some(LongDouble) else Option.None
    else if c == 'c' then if size == "" then Some(Char) else if size == "l" then Some(WideChar) else Option.None
    else if c == 's' then if size == "" then Some(String) else if size == "l" then Some(WideString) else Option.None
    else if size != "" then Option.None
    else if c == 'p' then Some(Pointer)
    else if c == '%' then Some(TypeNone)
    else Option.None
  }

  /**
   * The directives by their form: the flag "'" is not in the standard, and "%%" is complete as it is. That some flags,
   * widths and precisions have no defined effect with some conversions is not a matter of form.
   */
  predicate IsStandard(p: Spec) {
    && (p.position == "" || IsPosition(p.position)) && (forall i :: 0 <= i < |p.flags| ==> p.flags[i] in "-+ #0")
    && IsWidth(p.width) && IsPrecision(p.precision)
    && StandardType(p.size, p.conversion).Some?
    && (p.conversion == '%' ==> p == Spec("", "", "", "", "", '%'))
  }

  /** The characters that the parser takes for flags, size letters, and conversions. */
  lemma Alphabet(c: char)
    ensures IsFlag(c) <==> c in "-+ #0'"
    ensures IsSize(c) <==> c in "hljztLZ"
    ensures Known(c) <==> c in "diouxXfFeEgGaAcspn%CS"
  {
  }

  /** What the parser keeps of a run of size letters: how many make long, whether there is "L", how many "h". */
  datatype Letters = Letters(longs: nat, big: bool, halves: nat)

  function Counted(n: Letters, x: string): Letters
    decreases |x|
  {
    if x == "" then n
    else Counted(Letters(
      n.longs + (if x[0] != 'h' && x[0] != 'L' then 1 else 0), n.big || x[0] == 'L',
      n.halves + if x[0] == 'h' then 1 else 0), x[1..])
  }

  function Packed(n: Letters): nat {
    8 * n.longs + (if n.big then 4 else 0) + if n.halves == 0 then 0 else if n.halves == 1 then 1 else 3
  }

  lemma PackedBits(n: Letters)
    ensures Packed(n) % 2 == 1 <==> n.halves > 0
    ensures Packed(n) / 2 % 2 == 1 <==> n.halves > 1
    ensures Packed(n) / 4 % 2 == 1 <==> n.big
    ensures Packed(n) >= 8 <==> n.longs > 0
    ensures Packed(n) >= 16 <==> n.longs > 1
  {
    var r := if n.halves == 0 then 0 else if n.halves == 1 then 1 else 3;
    var b := if n.big then 1 else 0;
    assert Packed(n) == 2 * (4 * n.longs + 2 * b + r / 2) + r % 2;
    assert Packed(n) / 2 == 2 * (2 * n.longs + b) + r / 2;
    assert Packed(n) / 4 == 2 * n.longs + b;
  }

  function OneLetter(c: char): Letters {
    Letters(if c != 'h' && c != 'L' then 1 else 0, c == 'L', if c == 'h' then 1 else 0)
  }

  /** Only these counts matter, not the order of the letters. */
  lemma {:induction false} SizeLetters(n: Letters, x: string)
    requires forall i :: 0 <= i < |x| ==> IsSize(x[i])
    ensures SizeFlags(Packed(n), x) == Packed(Counted(n, x))
    decreases |x|
  {
    if x != "" {
      PackedBits(n);
      SizeLetters(Letters(
        n.longs + (if x[0] != 'h' && x[0] != 'L' then 1 else 0), n.big || x[0] == 'L',
        n.halves + if x[0] == 'h' then 1 else 0), x[1..]);
    }
  }

  const NO_LETTERS := Letters(0, false, 0)

  /** The modifier of the standard that a run of size letters amounts to in front of a conversion. */
  function Canonical(n: Letters, c: char): string {
    if IsSigned(c) || IsUnsigned(c) || c == 'n' then
      if n.big || n.longs > 1 then "ll" else if n.longs == 1 then "l"
      else if n.halves > 1 then "hh" else if n.halves == 1 then "h" else ""
    else if IsFloat(c) then if n.big || n.longs > 1 then "L" else ""
    else if c == 'c' || c == 's' then if n.longs > 0 then "l" else ""
    else if c == 'C' || c == 'S' then "l"
    else ""
  }

  /** The conversions the parser knows. */
  predicate Known(c: char) {
    IsSigned(c) || IsUnsigned(c) || IsFloat(c) || c == 'n' || c == 'c' || c == 'C' || c == 's' || c == 'S' || c == 'p'
    || c == '%'
  }

  /** Every directive the parser reads has the type of one that the standard has. */
  lemma ReadLikeStandard(p: Spec)
    requires HasParts(p)
    ensures IsSpec(p) <==> Known(p.conversion)
    ensures
      var size := Canonical(Counted(NO_LETTERS, p.size), p.conversion);
      IsSpec(p) ==> TypeOf(p.conversion, SizeFlags(0, p.size)) == StandardType(size, Recorded(p.conversion))
  {
    var n := Counted(NO_LETTERS, p.size);
    SizeLetters(NO_LETTERS, p.size);
    PackedBits(n);
    TypeIs(n, p.conversion, Packed(n));
  }

  lemma TypeIs(n: Letters, c: char, flags: nat)
    requires flags / 2 % 2 == 1 <==> n.halves > 1
    requires flags % 2 == 1 <==> n.halves > 0
    requires flags / 4 % 2 == 1 <==> n.big
    requires flags >= 8 <==> n.longs > 0
    requires flags >= 16 <==> n.longs > 1
    ensures TypeOf(c, flags).Some? <==> Known(c)
    ensures Known(c) ==> TypeOf(c, flags) == StandardType(Canonical(n, c), Recorded(c))
  {
  }

  lemma LettersOf(x: string)
    ensures |x| == 1 ==> Counted(NO_LETTERS, x) == OneLetter(x[0])
    ensures x == "hh" ==> Counted(NO_LETTERS, x) == Letters(0, false, 2)
    ensures x == "ll" ==> Counted(NO_LETTERS, x) == Letters(2, false, 0)
  {
    if |x| == 1 {
      assert x[1..] == "";
    }
    if |x| == 2 {
      var y := x[1..];
      assert y[0] == x[1] && y[1..] == "";
      assert x == "hh" ==> Counted(NO_LETTERS, x) == Counted(Letters(0, false, 1), y) == Letters(0, false, 2);
      assert x == "ll" ==> Counted(NO_LETTERS, x) == Counted(Letters(1, false, 0), y) == Letters(2, false, 0);
    }
  }

  /** The modifiers of the standard amount to themselves, or to one with the same type. */
  lemma StandardModifier(x: string, c: char)
    requires StandardType(x, c).Some?
    ensures Known(c) && Recorded(c) == c
    ensures StandardType(Canonical(Counted(NO_LETTERS, x), c), c) == StandardType(x, c)
  {
    LettersOf(x);
  }

  /** Every directive of the standard is read, with the type it has there. */
  lemma StandardIsSpec(p: Spec)
    requires IsStandard(p)
    ensures IsSpec(p) && TypeOf(p.conversion, SizeFlags(0, p.size)) == StandardType(p.size, p.conversion)
  {
    StandardParts(p);
    StandardModifier(p.size, p.conversion);
    ReadLikeStandard(p);
  }

  lemma StandardParts(p: Spec)
    requires IsStandard(p)
    ensures HasParts(p)
  {
    assert forall c :: c in "-+ #0" ==> IsFlag(c);
    ModifierLetters(p.size, p.conversion);
  }

  lemma ModifierLetters(x: string, c: char)
    requires StandardType(x, c).Some?
    ensures forall i :: 0 <= i < |x| ==> IsSize(x[i])
  {
  }

  /** The modifiers that the standard has for a conversion. */
  function Modifiers(c: char): set<string> {
    if IsSigned(c) || IsUnsigned(c) || c == 'n' then {"", "hh", "h", "l", "ll", "j", "z", "t"}
    else if IsFloat(c) then {"", "l", "L"}
    else if c == 'c' || c == 's' then {"", "l"}
    else {""}
  }

  /**
   * What makes a directive that is read one beyond the standard: the flag "'", the conversions C and S, letters that
   * are no modifier of its conversion, or parts in front of a percent sign.
   */
  predicate Beyond(p: Spec) {
    || '\'' in p.flags || p.conversion == 'C' || p.conversion == 'S' || p.size !in Modifiers(p.conversion)
    || (p.conversion == '%' && (p.position != "" || p.flags != "" || p.width != "" || p.precision != ""))
  }

  /** Just these. */
  lemma BeyondStandard(p: Spec)
    requires IsSpec(p)
    ensures IsStandard(p) <==> !Beyond(p)
  {
    ReadLikeStandard(p);
    ModifiersAre(p.size, p.conversion);
  }

  lemma ModifiersAre(x: string, c: char)
    requires Known(c)
    ensures StandardType(x, c).Some? <==> x in Modifiers(c) && c != 'C' && c != 'S'
  {
  }

  /** There are such directives, as a run of letters none of which is understood, in front of f. */
  lemma ReadBeyondStandard(p: Spec)
    requires p == Spec("", "", "", "", "hh", 'f')
    ensures IsSpec(p) && !IsStandard(p)
  {
    ReadLikeStandard(p);
    ModifiersAre(p.size, p.conversion);
  }

  /** In a format: a directive of the standard is read where it stands, and registers its argument with its type. */
  lemma StandardIsRead(s: string, start: nat, posn: nat, p: Spec)
    requires IsStandard(p) && Spells(s, start, p)
    ensures DirectiveAt(s, start, posn).Some? && CutsAt(s, start, posn).Some? && Cut(s, start, posn) == p
    ensures Registers(DirectiveAt(s, start, posn).value, StandardType(p.size, p.conversion).value)
  {
    StandardIsSpec(p);
    GrammaticalIsRead(s, start, p, posn);
    ReadAtCuts(s, start, posn);
    SpelledType(s, start, p, posn);
    LastUse(s, start, posn, StandardType(p.size, p.conversion).value);
  }

  /** The argument of the directive is the last one registered, with type x; there is none without a type. */
  predicate Registers(r: Reading, x: ArgType) {
    if x == TypeNone then r.d.argIndex == Option.None
    else r.d.argIndex.Some? && r.uses != [] && r.uses[|r.uses| - 1] == Use(r.d.argIndex.value, x)
  }

  lemma SpelledType(s: string, start: nat, p: Spec, posn: nat)
    requires IsSpec(p) && Spells(s, start, p)
    ensures CutsAt(s, start, posn).Some?
    ensures
      var c := CutsAt(s, start, posn).value;
      At(s, c.z) == p.conversion && SizeFlags(0, s[c.h..]) == SizeFlags(0, p.size)
  {
    ConversionIsInert(p.conversion, SizeFlags(0, p.size));
    CutsHere(s, start, p, posn);
    EndsHere(s, start, p);
    BehindPrecision(s, start, p);
  }

  lemma LastUse(s: string, start: nat, posn: nat, x: ArgType)
    requires start < |s| && DirectiveAt(s, start, posn).Some? && CutsAt(s, start, posn).Some?
    requires
      var c := CutsAt(s, start, posn).value;
      TypeOf(At(s, c.z), SizeFlags(0, s[c.h..])) == Some(x)
    ensures Registers(DirectiveAt(s, start, posn).value, x)
  {
  }
}
