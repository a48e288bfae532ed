/** The arithmetic of scaling 2^e * m by 10^n with integers only. */
module ScaleMath {
  import opened Arith
  import opened Bignum
  import opened Decimal

  function Plus(x: int): nat { if x > 0 then x else 0 }

  function Minus(x: int): nat { if x < 0 then -x else 0 }

  /** m * 2^e * 10^n as a fraction: numerator and denominator. */
  function Numerator(m: nat, e: int, n: int): nat {
    m * (Pow2(Plus(e)) * Exp(10, Plus(n)))
  }

  function Denominator(e: int, n: int): (d: nat) {
    Pow2(Minus(e)) * Exp(10, Minus(n))
  }

  lemma DenominatorPositive(e: int, n: int)
    ensures Denominator(e, n) > 0
  {
    Pow2Positive(Minus(e));
    ExpPositive(10, Minus(n));
    MulLe(1, Pow2(Minus(e)), Exp(10, Minus(n)));
  }

  /** What the source computes: z = round(m * 2^s * 5^n), as the rounding of a fraction. */
  function ScaledRound(m: nat, s: int, n: int): nat {
    FivesDenominatorPositive(s, n);
    RoundHalfEven(m * (Pow2(Plus(s)) * Exp(5, Plus(n))), Pow2(Minus(s)) * Exp(5, Minus(n)))
  }

  lemma FivesDenominatorPositive(s: int, n: int)
    ensures Pow2(Minus(s)) * Exp(5, Minus(n)) > 0
  {
    Pow2Positive(Minus(s));
    ExpPositive(5, Minus(n));
    MulLe(1, Pow2(Minus(s)), Exp(5, Minus(n)));
  }

  lemma {:induction false} TenIsTwoTimesFive(n: nat)
    ensures Exp(10, n) == Pow2(n) * Exp(5, n)
  {
    if n > 0 {
      TenIsTwoTimesFive(n - 1);
      TenTimes(Pow2(n - 1), Exp(5, n - 1));
    }
  }

  lemma TenTimes(p: int, f: int)
    ensures (2 * p) * (5 * f) == 10 * (p * f)
  {
  }

  /** Rounding a/b is the same as rounding (a*c)/(b*c). */
  lemma RoundScaled(a: nat, b: nat, c: nat)
    requires 0 < b && 0 < c
    ensures 0 < b * c && RoundHalfEven(a * c, b * c) == RoundHalfEven(a, b)
  {
    ScaledDivision(a, b, c);
    ScaledComparison(a % b, b, c);
  }

  /** An integer needs no rounding. */
  lemma RoundExact(k: nat, b: nat)
    requires 0 < b
    ensures RoundHalfEven(k * b, b) == k
  {
    DivModUnique(k * b, b, k, 0);
  }

  lemma RoundWhole(k: nat)
    ensures RoundHalfEven(k, 1) == k
  {
    RoundExact(k, 1);
  }

  /** Without factoring: x = 2^s * 5^n * m where s = e + n. */
  lemma NoFactoring(m: nat, e: int, n: int)
    ensures Denominator(e, n) > 0
    ensures ScaledRound(m, e + n, n) == RoundHalfEven(Numerator(m, e, n), Denominator(e, n))
  {
    DenominatorPositive(e, n);
    FivesDenominatorPositive(e + n, n);
    var s := e + n;
    // 2^e 10^n and 2^s 5^n differ by a common power of two c/d
    var num, den := Pow2(Plus(s)) * Exp(5, Plus(n)), Pow2(Minus(s)) * Exp(5, Minus(n));
    var num', den' := Pow2(Plus(e)) * Exp(10, Plus(n)), Denominator(e, n);
    var c, d := Pow2(Plus(e) + Plus(n)), Pow2(Plus(s));
    Pow2Positive(Plus(e) + Plus(n));
    Pow2Positive(Plus(s));
    FractionsAgree(e, n);
    SameFraction(m, num, den, c, num', den', d);
  }

  lemma SameFraction(m: nat, num: nat, den: nat, c: nat, num': nat, den': nat, d: nat)
    requires 0 < den && 0 < den' && 0 < c && 0 < d
    requires num * c == num' * d && den * c == den' * d
    ensures RoundHalfEven(m * num, den) == RoundHalfEven(m * num', den')
  {
    MulLe(0, m, num);
    MulLe(0, m, num');
    MulAssoc(m, num, c);
    MulAssoc(m, num', d);
    RoundScaled(m * num, den, c);
    RoundScaled(m * num', den', d);
  }

  lemma FractionsAgree(e: int, n: int)
    ensures var s := e + n;
      var c, d := Pow2(Plus(e) + Plus(n)), Pow2(Plus(s));
      && (Pow2(Plus(s)) * Exp(5, Plus(n))) * c == (Pow2(Plus(e)) * Exp(10, Plus(n))) * d
      && (Pow2(Minus(s)) * Exp(5, Minus(n))) * c == Denominator(e, n) * d
  {
    var s := e + n;
    var c, d := Pow2(Plus(e) + Plus(n)), Pow2(Plus(s));
    var f, g := Exp(5, Plus(n)), Exp(5, Minus(n));
    TenIsTwoTimesFive(Plus(n));
    TenIsTwoTimesFive(Minus(n));
    Pow2Add(Plus(e), Plus(n));
    MulAssoc(Pow2(Plus(e)), Pow2(Plus(n)), f);
    MulSwap(d, f, c);
    MulSwap(c, f, d);
    assert d * c == c * d;
    assert Minus(s) + (Plus(e) + Plus(n)) == (Minus(e) + Minus(n)) + Plus(s);
    Pow2Add(Minus(s), Plus(e) + Plus(n));
    Pow2Add(Minus(e) + Minus(n), Plus(s));
    Pow2Add(Minus(e), Minus(n));
    MulAssoc(Pow2(Minus(e)), Pow2(Minus(n)), g);
    MulSwap(Pow2(Minus(s)), g, c);
    MulSwap(Pow2(Minus(e)) * Pow2(Minus(n)), g, d);
  }

  /** With s and n not negative there is nothing to round. */
  lemma WholeScale(m: nat, s: nat, n: nat)
    ensures ScaledRound(m, s, n) == m * (Pow2(s) * Exp(5, n))
  {
    var num := Pow2(s) * Exp(5, n);
    assert Pow2(Minus(s)) * Exp(5, Minus(n)) == 1;
    RoundWhole(m * num);
  }

  /** Factoring out 10^k. */
  lemma Factoring(m: nat, s: nat, n: nat, k: nat)
    requires k <= s && k <= n
    ensures ScaledRound(m, s - k, n - k) * Exp(10, k) == ScaledRound(m, s, n)
  {
    WholeScale(m, s, n);
    WholeScale(m, s - k, n - k);
    Pow2Add(s - k, k);
    ExpAdd(5, n - k, k);
    TenIsTwoTimesFive(k);
    FactorIdentity(m, Pow2(s - k), Exp(5, n - k), Pow2(k), Exp(5, k));
  }

  lemma FactorIdentity(m: int, p: int, f: int, p': int, f': int)
    ensures (m * (p * f)) * (p' * f') == m * ((p * p') * (f * f'))
  {
    MulAssoc(m, p * f, p' * f');
    MulAssoc(p * f, p', f');
    MulSwap(p, f, p');
    MulAssoc(p * p', f, f');
  }

  /** The whole computation: the scaled rounding, times the factored power of ten, is the decimal scaling. */
  lemma ScalingIsExact(m: nat, e: int, n: int, s': int, n': int, k: nat)
    requires if e + n > 0 && n > 0 then k == (if e + n < n then e + n else n) else k == 0
    requires s' == e + n - k && n' == n - k
    ensures Denominator(e, n) > 0
    ensures ScaledRound(m, s', n') * Exp(10, k) == RoundHalfEven(Numerator(m, e, n), Denominator(e, n))
  {
    NoFactoring(m, e, n);
    if e + n > 0 && n > 0 {
      Factoring(m, e + n, n, k);
    }
  }
}
