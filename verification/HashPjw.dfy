/**
 * The hash function of the message index, hashpjw.  The operations on words have names of their own, so that proofs
 * can use what is known about them without looking at bits again.
 */
module HashPjw {
  function Byte(c: char): bv64 {
    (c as int % 256) as bv64
  }

  function Shift(hval: bv64, b: bv64): bv64 {
    (hval << 4) + b
  }

  function Xor(x: bv64, y: bv64): bv64 {
    x ^ y
  }

  /** Bits 28 to 31. */
  function Top(h: bv64): bv64 {
    h & 0xf000_0000
  }

  function Down(g: bv64): bv64 {
    g >> 24
  }

  /** Bits 28 to 31 are folded into bits 4 to 7, and cleared. */
  function Fold(h: bv64): bv64 {
    if Top(h) != 0 then Xor(Xor(h, Down(Top(h))), Top(h)) else h
  }

  /** One character, in an unsigned long of 64 bits. */
  function HashStep(hval: bv64, b: bv64): bv64 {
    Fold(Shift(hval, b))
  }

  function HashFrom(hval: bv64, s: string): bv64
    decreases |s|
  {
    if s == "" then hval else HashFrom(HashStep(hval, Byte(s[0])), s[1..])
  }

  /** The conversion from unsigned long to nls_uint32. */
  function Low(hval: bv64): bv64 {
    hval & 0xffff_ffff
  }

  function Truncate(hval: bv64): nat {
    Low(hval) as nat
  }

  /** The hash value as the users of the table keep it, in 32 bits. */
  function Hash(s: string): nat {
    Truncate(HashFrom(0, s))
  }

  /** The loop over the characters. */
  method HashString(s: string) returns (hval: bv64)
    ensures hval == HashFrom(0, s)
  {
    hval := 0;
    var i := 0;
    while i < |s|
      invariant i <= |s| && HashFrom(hval, s[i..]) == HashFrom(0, s)
    {
      assert s[i..][1..] == s[i + 1..];
      hval := Shift(hval, Byte(s[i]));
      var g := Top(hval);
      if g != 0 {
        hval := Xor(hval, Down(g));
        hval := Xor(hval, g);
      }
      i := i + 1;
    }
  }

  lemma ShiftLow(x: bv64, y: bv64, b: bv64)
    requires Low(x) == Low(y)
    ensures Low(Shift(x, b)) == Low(Shift(y, b))
  {
  }

  lemma XorLow(x: bv64, y: bv64, k: bv64)
    requires Low(x) == Low(y)
    ensures Low(Xor(x, k)) == Low(Xor(y, k))
  {
  }

  lemma TopLow(x: bv64, y: bv64)
    requires Low(x) == Low(y)
    ensures Top(x) == Top(y)
  {
  }

  lemma LowTwice(x: bv64)
    ensures Low(Low(x)) == Low(x)
  {
  }

  /** Folding works on the low 32 bits alone. */
  lemma FoldLow(x: bv64, y: bv64)
    requires Low(x) == Low(y)
    ensures Low(Fold(x)) == Low(Fold(y))
  {
    var g := Top(x);
    TopLow(x, y);
    XorLow(x, y, Down(g));
    XorLow(Xor(x, Down(g)), Xor(y, Down(g)), g);
  }

  /** The same where unsigned long has 32 bits: what an operation shifts or carries out at the top is lost. */
  function NarrowStep(hval: bv64, b: bv64): bv64 {
    Low(Fold(Low(Shift(hval, b))))
  }

  function NarrowHashFrom(hval: bv64, s: string): bv64
    decreases |s|
  {
    if s == "" then hval else NarrowHashFrom(NarrowStep(hval, Byte(s[0])), s[1..])
  }

  lemma StepLow(x: bv64, y: bv64, b: bv64)
    requires Low(x) == y
    ensures Low(HashStep(x, b)) == NarrowStep(y, b)
  {
    LowTwice(x);
    ShiftLow(x, y, b);
    LowTwice(Shift(y, b));
    FoldLow(Shift(x, b), Low(Shift(y, b)));
  }

  /**
   * The message index is portable between hosts with 32 and with 64 bits in an unsigned long: the part of the hash
   * value that is kept is the value computed where there are no more bits than these.
   */
  lemma {:induction false} HashIsPortable(x: bv64, y: bv64, s: string)
    requires Low(x) == y
    ensures Low(HashFrom(x, s)) == NarrowHashFrom(y, s)
    decreases |s|
  {
    if s != "" {
      StepLow(x, y, Byte(s[0]));
      HashIsPortable(HashStep(x, Byte(s[0])), NarrowStep(y, Byte(s[0])), s[1..]);
    }
  }

  /** In particular for whole strings. */
  lemma HashOnNarrowHost(s: string)
    ensures Hash(s) == NarrowHashFrom(0, s) as nat
  {
    HashIsPortable(0, 0, s);
  }

  /** What is kept of a word are its last 32 bits. */
  lemma LowIs(h: bv64)
    ensures Low(h) <= 0xffff_ffff && Low(h + 0x1_0000_0000) == Low(h)
    ensures h <= 0xffff_ffff ==> Low(h) == h
  {
  }

  /** Shifting a character in appends a digit to a number to base 16. */
  lemma ShiftAdds(h: bv64, b: bv64)
    ensures Shift(h, b) == 16 * h + b
  {
  }

  /** Folding moves the top half byte of the 32 bits into the second one from the right, by exclusive or. */
  lemma FoldMoves(h: bv64)
    ensures Fold(h) & 0xf000_0000 == 0
    ensures Fold(h) & 0x0000_00f0 == (h & 0x0000_00f0) ^ ((h & 0xf000_0000) >> 24)
  {
  }

  /** The bits that are not among those two half bytes. */
  function Others(h: bv64): bv64 {
    h & 0xffff_ffff_0fff_ff0f
  }

  lemma TopBits(h: bv64)
    ensures Others(Top(h)) == 0 && Others(Down(Top(h))) == 0
  {
  }

  lemma XorKeeps(h: bv64, k: bv64)
    requires Others(k) == 0
    ensures Others(Xor(h, k)) == Others(h)
  {
  }

  /** They stay. */
  lemma FoldKeeps(h: bv64)
    ensures Others(Fold(h)) == Others(h)
  {
    var g := Top(h);
    TopBits(h);
    XorKeeps(h, Down(g));
    XorKeeps(Xor(h, Down(g)), g);
  }

  predicate Ascii(b: bv64) {
    b <= 0x7f
  }

  /** At most the number whose k digits all are the last character of ASCII. */
  predicate Small(h: bv64, k: nat) {
    h <= if k == 0 then 0 else if k == 1 then 0x7f else if k == 2 then 0x86f else if k == 3 then 0x876f
      else if k == 4 then 0x8_776f else if k == 5 then 0x87_776f else 0x877_776f
  }

  lemma NothingOnTop(h: bv64, b: bv64)
    requires Small(h, 5) && Ascii(b)
    ensures Top(Shift(h, b)) == 0
  {
  }

  lemma ShiftGrows(h: bv64, b: bv64, bound: bv64)
    requires h <= bound <= 0x87_776f && Ascii(b)
    ensures Shift(h, b) <= Shift(bound, 0x7f)
  {
  }

  lemma SmallStep(h: bv64, b: bv64, k: nat)
    requires Small(h, k) && Ascii(b) && k < 6
    ensures HashStep(h, b) == Shift(h, b) && Small(Shift(h, b), k + 1)
  {
    NothingOnTop(h, b);
    ShiftGrows(h, b, if k == 0 then 0 else if k == 1 then 0x7f else if k == 2 then 0x86f else if k == 3 then 0x876f
      else if k == 4 then 0x8_776f else 0x87_776f);
  }

  lemma {:induction false} HashSnoc(hval: bv64, s: string, c: char)
    ensures HashFrom(hval, s + [c]) == HashStep(HashFrom(hval, s), Byte(c))
    decreases |s|
  {
    if s == "" {
      assert (s + [c])[1..] == "";
    } else {
      assert (s + [c])[1..] == s[1..] + [c];
      HashSnoc(HashStep(hval, Byte(s[0])), s[1..], c);
    }
  }

  /** The characters as digits of a number. */
  function Digits(s: string): bv64 {
    if s == "" then 0 else Shift(Digits(s[..|s| - 1]), Byte(s[|s| - 1]))
  }

  /** Short strings of ASCII are hashed to the number with their characters as digits: nothing is folded. */
  lemma {:induction false} ShortHash(s: string)
    requires |s| <= 6 && forall i :: 0 <= i < |s| ==> Ascii(Byte(s[i]))
    ensures HashFrom(0, s) == Digits(s) && Small(Digits(s), |s|)
  {
    if s != "" {
      var t, c := s[..|s| - 1], s[|s| - 1];
      ShortHash(t);
      assert s == t + [c];
      HashSnoc(0, t, c);
      SmallStep(Digits(t), Byte(c), |t|);
    }
  }
}
