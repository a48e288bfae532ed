/** Small facts of nonlinear arithmetic, each stated once so that the other proofs stay linear. */
module Arith {

  lemma MulLe(a: int, b: int, c: int)
    requires a <= b && 0 <= c
    ensures a * c <= b * c
  {
    assert (b - a) * c >= 0;
    assert (b - a) * c == b * c - a * c;
  }

  /** Factors one apart make products one multiplicand apart. */
  lemma MulGap(a: int, b: int, c: int)
    requires a < b && 0 <= c
    ensures a * c + c <= b * c
  {
    MulLe(a + 1, b, c);
    assert (a + 1) * c == a * c + c;
  }

  lemma MulLt(a: int, b: int, c: int)
    requires a < b && 0 < c
    ensures a * c < b * c
  {
    MulGap(a, b, c);
  }

  /** Cancelling a positive factor. */
  lemma MulCancelLt(a: int, b: int, c: int)
    requires 0 < c && a * c < b * c
    ensures a < b
  {
    if b <= a { MulLe(b, a, c); }
  }

  /** Quotient and remainder are determined by the division equation. */
  lemma DivModUnique(a: int, b: int, q: int, r: int)
    requires 0 < b && a == q * b + r && 0 <= r < b
    ensures a / b == q && a % b == r
  {
    var q', r' := a / b, a % b;
    assert a == q' * b + r';
    if q' < q {
      MulGap(q', q, b);
    } else if q < q' {
      MulGap(q, q', b);
    }
  }

  /** Two numbers of the same interval [0, p) that differ by a multiple of p are equal. */
  lemma SameResidue(x: int, y: int, k: int, p: int)
    requires 0 <= x < p && 0 <= y < p && x == y + k * p
    ensures x == y && k == 0
  {
    if k >= 1 { MulLe(1, k, p); }
    if k <= -1 { MulLe(k, -1, p); }
  }

  lemma MulAssoc(a: int, b: int, c: int)
    ensures a * (b * c) == (a * b) * c
  {
  }

  lemma MulDist(a: int, b: int, c: int)
    ensures a * (b + c) == a * b + a * c
  {
  }

  lemma QuotientFits(a: int, b: int, c: int)
    requires 0 < b && 0 <= a < b * c
    ensures 0 <= a / b < c
  {
    MulCancelLt(a / b, c, b);
  }

  lemma DivFacts(a: int, b: int)
    requires 0 < b
    ensures a / b * b <= a < a / b * b + b
    ensures a == a / b * b + a % b && 0 <= a % b < b
  {
    assert a == a / b * b + a % b;
  }

  lemma MulSwap(a: int, b: int, c: int)
    ensures (a * b) * c == (a * c) * b
  {
  }

  /** 2^n */
  function Pow2(n: nat): nat {
    if n == 0 then 1 else 2 * Pow2(n - 1)
  }

  lemma {:induction false} Pow2Positive(n: nat)
    ensures Pow2(n) >= 1
  {
    if n > 0 { Pow2Positive(n - 1); }
  }

  lemma {:induction false} Pow2Add(m: nat, n: nat)
    ensures Pow2(m + n) == Pow2(m) * Pow2(n)
  {
    if m > 0 {
      Pow2Add(m - 1, n);
      assert Pow2(m + n) == 2 * (Pow2(m - 1) * Pow2(n));
    }
  }
}
