/** C strings: a text stands for the characters up to, and not including, the NUL at its end. */
module CStrings {
  /** The character at position i, which is the final NUL at the end of the text. */
  function At(s: string, i: nat): char {
    if i < |s| then s[i] else '\0'
  }

  predicate Digit(c: char) {
    '0' <= c <= '9'
  }

  function DigitValue(c: char): nat
    requires Digit(c)
  {
    c as int - '0' as int
  }

  lemma DigitIs(c: char)
    ensures Digit(c) <==> c in "0123456789"
    ensures Digit(c) ==> c == "0123456789"[DigitValue(c)]
  {
    if Digit(c) {
      assert c == "0123456789"[DigitValue(c)];
    }
  }

  /** Length of the run of digits at the start. */
  function DigitRun(s: string): (k: nat)
    ensures k <= |s| && (forall i :: 0 <= i < k ==> Digit(s[i])) && !Digit(At(s, k))
  {
    if Digit(At(s, 0)) then 1 + DigitRun(s[1..]) else 0
  }

  lemma {:induction false} DigitRunIs(s: string, k: nat)
    requires k <= |s| && (forall i :: 0 <= i < k ==> Digit(s[i])) && !Digit(At(s, k))
    ensures DigitRun(s) == k
  {
    if k > 0 {
      assert At(s[1..], k - 1) == At(s, k);
      DigitRunIs(s[1..], k - 1);
    }
  }

  /** The number a string of digits denotes. */
  function Decimal(s: string): nat
    requires forall i :: 0 <= i < |s| ==> Digit(s[i])
  {
    if s == "" then 0 else 10 * Decimal(s[..|s| - 1]) + DigitValue(s[|s| - 1])
  }

  lemma DecimalSnoc(s: string, c: char)
    requires forall i :: 0 <= i < |s| ==> Digit(s[i])
    requires Digit(c)
    ensures Decimal(s + [c]) == 10 * Decimal(s) + DigitValue(c)
  {
    assert (s + [c])[..|s|] == s;
  }
}
