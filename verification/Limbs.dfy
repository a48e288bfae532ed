/** Limb sequences: the values that the bignum code of vasnprintf.c keeps in memory.
  * A bignum is a little-endian sequence of 32-bit limbs, the base is beta = 2^32.
  */
module Limbs {
  import opened Arith

  /** One 32-bit limb (mp_limb_t). */
  type Limb = x: int | 0 <= x < 0x1_0000_0000

  /** A 64-bit intermediate (mp_twolimb_t): assigning to it proves that nothing overflows. */
  type TwoLimb = x: int | 0 <= x < 0x1_0000_0000_0000_0000

  /** beta^n */
  function Pow(n: nat): nat {
    if n == 0 then 1 else 0x1_0000_0000 * Pow(n - 1)
  }

  /** The number that a limb sequence stands for. */
  function Val(s: seq<Limb>): nat {
    if s == [] then 0 else s[0] + 0x1_0000_0000 * Val(s[1..])
  }

  /** No superfluous high zero limb. */
  predicate Normalised(s: seq<Limb>) {
    s != [] ==> s[|s| - 1] != 0
  }

  /** A limb product, plus a carry no larger than one factor, plus one more limb fits 64 bits,
    * and its high half is again no larger than that factor.
    */
  lemma ProductFits(q: Limb, x: Limb, carry: int, d: int)
    requires 0 <= carry <= q && 0 <= d < 0x1_0000_0000
    ensures 0 <= q * x <= 0xFFFF_FFFF * q
    ensures 0 <= carry + q * x + d < 0x1_0000_0000_0000_0000
    ensures (carry + q * x + d) / 0x1_0000_0000 <= q
  {
    MulLe(0, x, q);
    MulLe(x, 0xFFFF_FFFF, q);
    assert q * x == x * q;
  }

  lemma {:induction false} PowPositive(n: nat)
    ensures Pow(n) >= 1
  {
    if n > 0 { PowPositive(n - 1); }
  }

  lemma {:induction false} PowAdd(m: nat, n: nat)
    ensures Pow(m + n) == Pow(m) * Pow(n)
  {
    if m > 0 {
      PowAdd(m - 1, n);
      assert Pow(m + n) == 0x1_0000_0000 * (Pow(m - 1) * Pow(n));
    }
  }

  lemma {:induction false} PowMonotone(m: nat, n: nat)
    requires m <= n
    ensures Pow(m) <= Pow(n)
  {
    if m < n { PowMonotone(m, n - 1); PowPositive(n - 1); }
  }

  lemma Pow2At32()
    ensures Pow2(32) == 0x1_0000_0000
    ensures Pow2(31) == 0x8000_0000
  {
    assert Pow2(8) == 256;
    Pow2Add(8, 8);
    Pow2Add(16, 8);
    Pow2Add(24, 7);
    assert Pow2(7) == 128;
    Pow2Add(31, 1);
  }

  lemma {:induction false} Pow2OfLimbs(k: nat)
    ensures Pow2(32 * k) == Pow(k)
  {
    if k > 0 {
      Pow2OfLimbs(k - 1);
      Pow2Add(32, 32 * (k - 1));
      Pow2At32();
    }
  }

  lemma {:induction false} ValBound(s: seq<Limb>)
    ensures Val(s) < Pow(|s|)
  {
    if s != [] { ValBound(s[1..]); }
  }

  lemma ValOne(x: Limb)
    ensures Val([x]) == x
  {
    assert [x][1..] == [];
  }

  lemma {:induction false} ValConcat(s: seq<Limb>, t: seq<Limb>)
    ensures Val(s + t) == Val(s) + Pow(|s|) * Val(t)
  {
    if s == [] {
      assert s + t == t;
    } else {
      ValConcat(s[1..], t);
      assert (s + t)[1..] == s[1..] + t;
      var p, v := Pow(|s| - 1), Val(t);
      assert (s + t)[0] == s[0];
      MulAssoc(0x1_0000_0000, p, v);
    }
  }

  /** Appending one limb at the high end. */
  lemma ValSnoc(s: seq<Limb>, x: Limb)
    ensures Val(s + [x]) == Val(s) + Pow(|s|) * x
  {
    ValConcat(s, [x]);
    ValOne(x);
  }

  /** Cutting a sequence at any point. */
  lemma ValSplit(s: seq<Limb>, k: nat)
    requires k <= |s|
    ensures Val(s) == Val(s[..k]) + Pow(k) * Val(s[k..])
  {
    assert s == s[..k] + s[k..];
    ValConcat(s[..k], s[k..]);
  }

  /** A prefix grows by its next limb. */
  lemma ValPrefix(s: seq<Limb>, k: nat)
    requires k < |s|
    ensures Val(s[..k + 1]) == Val(s[..k]) + Pow(k) * s[k]
  {
    ValSnoc(s[..k], s[k]);
    assert s[..k + 1] == s[..k] + [s[k]];
  }

  lemma {:induction false} ValZeros(s: seq<Limb>)
    requires forall i :: 0 <= i < |s| ==> s[i] == 0
    ensures Val(s) == 0
  {
    if s != [] { ValZeros(s[1..]); }
  }

  /** A normalised sequence of n > 0 limbs is at least beta^(n-1). */
  lemma NormalisedLower(s: seq<Limb>)
    requires Normalised(s) && s != []
    ensures Val(s) >= Pow(|s| - 1)
  {
    var n := |s| - 1;
    ValPrefix(s, n);
    assert s[..n + 1] == s;
    var x, p := s[n], Pow(n);
    MulLe(1, x, p);
    PowPositive(n);
  }
}
