/** Conversion of bignums to decimal digits, and exact scaling by powers of ten (vasnprintf.c). */
module Decimal {
  import opened Arith
  import opened Limbs
  import opened Bignum

  /** b^n */
  function Exp(b: nat, n: nat): nat {
    if n == 0 then 1 else b * Exp(b, n - 1)
  }

  lemma {:induction false} ExpAdd(b: nat, m: nat, n: nat)
    ensures Exp(b, m + n) == Exp(b, m) * Exp(b, n)
  {
    if m > 0 {
      ExpAdd(b, m - 1, n);
      MulAssoc(b, Exp(b, m - 1), Exp(b, n));
    }
  }

  lemma {:induction false} ExpPositive(b: nat, n: nat)
    requires b > 0
    ensures Exp(b, n) > 0
  {
    if n > 0 {
      ExpPositive(b, n - 1);
      MulLe(1, b, Exp(b, n - 1));
    }
  }

  predicate IsDigits(s: string) {
    forall i :: 0 <= i < |s| ==> '0' <= s[i] <= '9'
  }

  /** The number written by decimal digits in low-to-high order. */
  function DecimalValue(s: string): nat
    requires IsDigits(s)
  {
    if s == [] then 0 else (s[0] - '0') as nat + 10 * DecimalValue(s[1..])
  }

  /** A decimal representation: at least one digit, and no leading zero except in "0" itself. */
  predicate IsDecimal(s: string) {
    && IsDigits(s) && s != []
    && (|s| > 1 ==> s[|s| - 1] != '0')
  }

  lemma {:induction false} DecimalConcat(s: string, t: string)
    requires IsDigits(s) && IsDigits(t)
    ensures IsDigits(s + t)
    ensures DecimalValue(s + t) == DecimalValue(s) + Exp(10, |s|) * DecimalValue(t)
  {
    if s == [] {
      assert s + t == t;
    } else {
      DecimalConcat(s[1..], t);
      assert (s + t)[1..] == s[1..] + t && (s + t)[0] == s[0];
      MulAssoc(10, Exp(10, |s| - 1), DecimalValue(t));
    }
  }

  lemma DecimalSnoc(s: string, c: char)
    requires IsDigits(s) && '0' <= c <= '9'
    ensures IsDigits(s + [c])
    ensures DecimalValue(s + [c]) == DecimalValue(s) + Exp(10, |s|) * (c - '0') as nat
  {
    DecimalConcat(s, [c]);
    assert [c][1..] == [];
    assert DecimalValue([c]) == (c - '0') as nat;
  }

  /** A number has only one decimal representation, so the digits below are determined by their value. */
  lemma {:induction false} DecimalUnique(s: string, t: string)
    requires IsDecimal(s) && IsDecimal(t)
    ensures s == t <==> DecimalValue(s) == DecimalValue(t)
  {
    if DecimalValue(s) == DecimalValue(t) {
      assert s[0] == t[0];
      if |s| > 1 && |t| > 1 {
        DecimalUnique(s[1..], t[1..]);
        assert s == [s[0]] + s[1..] && t == [t[0]] + t[1..];
      } else if |s| > 1 {
        DecimalPositive(s[1..]);
      } else if |t| > 1 {
        DecimalPositive(t[1..]);
      }
    }
  }

  lemma {:induction false} DecimalPositive(s: string)
    requires IsDigits(s) && s != [] && s[|s| - 1] != '0'
    ensures DecimalValue(s) > 0
  {
    if |s| > 1 { DecimalPositive(s[1..]); }
  }

  /** Writes a remainder below 10^9 as nine digits. */
  method NineDigits(remainder: Limb) returns (nine: string)
    requires remainder < 1000000000
    ensures |nine| == 9 && IsDigits(nine) && DecimalValue(nine) == remainder
  {
    nine := [];
    var rest: int := remainder;
    var count := 9;
    while count > 0
      invariant 0 <= count <= 9 && |nine| == 9 - count && IsDigits(nine)
      invariant 0 <= rest < Exp(10, count)
      invariant DecimalValue(nine) + Exp(10, 9 - count) * rest == remainder
    {
      var c := '0' + (rest % 10) as char;
      DigitStep(nine, c, Exp(10, 9 - count), rest);
      nine := nine + [c];
      rest := rest / 10;
      count := count - 1;
    }
  }

  lemma DigitStep(nine: string, c: char, p: nat, rest: nat)
    requires IsDigits(nine) && p == Exp(10, |nine|)
    requires '0' <= c <= '9' && (c - '0') as nat == rest % 10
    ensures IsDigits(nine + [c])
    ensures DecimalValue(nine + [c]) + Exp(10, |nine| + 1) * (rest / 10) == DecimalValue(nine) + p * rest
  {
    DecimalSnoc(nine, c);
    DigitIdentity(p, rest, rest / 10, rest % 10);
  }

  lemma DigitIdentity(p: int, x: int, h: int, l: int)
    requires x == 10 * h + l
    ensures p * l + (10 * p) * h == p * x
  {
    MulDist(p, l, 10 * h);
  }

  /** Removes leading zeroes (they are at the end), but keeps at least one. */
  method StripZeroes(s: string) returns (d: string)
    requires IsDigits(s)
    ensures IsDecimal(d) && DecimalValue(d) == DecimalValue(s)
  {
    d := s;
    while |d| > 0 && d[|d| - 1] == '0'
      invariant IsDigits(d) && DecimalValue(d) == DecimalValue(s)
      decreases |d|
    {
      DecimalSnoc(d[..|d| - 1], '0');
      assert d == d[..|d| - 1] + ['0'];
      d := d[..|d| - 1];
    }
    if d == [] {
      d := d + ['0'];
    }
  }

  /** The decimal digits of a * 10^extraZeroes, low to high. Destroys a. */
  method ConvertToDecimal(a: Mpn, extraZeroes: nat) returns (digits: string)
    requires a.Valid()
    modifies a.mem
    ensures IsDecimal(digits)
    ensures DecimalValue(digits) == old(a.Value()) * Exp(10, extraZeroes)
  {
    ghost var v := a.Value();
    var d := ZeroDigits(extraZeroes);
    var aLen := a.nlimbs;
    ghost var rest := v;
    while aLen > 0
      invariant 0 <= aLen <= a.nlimbs && IsDigits(d)
      invariant rest == Val(a.mem[a.off..a.off + aLen])
      invariant DecimalValue(d) + Exp(10, |d|) * rest == v * Exp(10, extraZeroes)
      decreases rest, aLen
    {
      ghost var before := rest;
      var remainder: Limb;
      remainder, aLen := DivideBlock(a.mem, a.off, aLen, rest);
      var nine := NineDigits(remainder);
      rest := before / 1000000000;
      BlockStep(d, nine, before, rest, remainder);
      d := d + nine;
    }
    digits := StripZeroes(d);
  }

  /** Divides a by 10^9 in place and drops a high limb that became zero. */
  method DivideBlock(mem: array<Limb>, off: nat, aLen: nat, ghost v: nat) returns (remainder: Limb, aLen': nat)
    requires 0 < aLen && off + aLen <= mem.Length && v == Val(mem[off..off + aLen])
    modifies mem
    ensures remainder == v % 1000000000
    ensures aLen' <= aLen && Val(mem[off..off + aLen']) == v / 1000000000
    ensures aLen' < aLen || v > 0
  {
    remainder := DivideByLimb(mem, off, mem, off, aLen, 1000000000);
    aLen' := aLen;
    ghost var s := mem[off..off + aLen];
    if mem[off + aLen - 1] == 0 {
      ValPrefix(s, aLen - 1);
      assert s[..aLen] == s && s[..aLen - 1] == mem[off..off + aLen - 1];
      aLen' := aLen - 1;
    } else {
      NormalisedLower(s);
      PowPositive(aLen - 1);
    }
  }

  lemma BlockStep(d: string, nine: string, rest: nat, q: nat, r: nat)
    requires IsDigits(d) && IsDigits(nine) && |nine| == 9 && DecimalValue(nine) == r
    requires rest == q * 1000000000 + r
    ensures IsDigits(d + nine)
    ensures DecimalValue(d + nine) + Exp(10, |d + nine|) * q == DecimalValue(d) + Exp(10, |d|) * rest
  {
    DecimalConcat(d, nine);
    ExpAdd(10, |d|, 9);
    assert Exp(10, 9) == 1000000000 by {
      assert Exp(10, 3) == 1000;
      ExpAdd(10, 3, 3);
      ExpAdd(10, 6, 3);
    }
    MulDist(Exp(10, |d|), r, q * 1000000000);
    MulAssoc(Exp(10, |d|), 1000000000, q);
  }

  method ZeroDigits(n: nat) returns (d: string)
    ensures |d| == n && IsDigits(d) && DecimalValue(d) == 0
  {
    d := [];
    var k := n;
    while k > 0
      invariant 0 <= k <= n && |d| == n - k && IsDigits(d) && DecimalValue(d) == 0
    {
      DecimalSnoc(d, '0');
      d := d + ['0'];
      k := k - 1;
    }
  }
}
