/** The mathematics behind the multi-limb division loop of vasnprintf.c:
  * how far the estimated quotient digit can be from the true one.
  */
module DivisionMath {
  import opened Arith

  /** The number with the limbs [hi,lo]. */
  function Two(hi: int, lo: int): int {
    hi * 0x1_0000_0000 + lo
  }

  /** The number with the limbs [hi,mid,lo]. */
  function Three(hi: int, mid: int, lo: int): int {
    (hi * 0x1_0000_0000 + mid) * 0x1_0000_0000 + lo
  }

  /** The digit estimated from the top three limbs [u2,u1,u0] of the remainder and the top two
    * limbs [v1,v0] of the divisor: the three-by-two quotient, capped at beta - 1.
    */
  predicate IsEstimate(u2: int, u1: int, u0: int, v1: int, v0: int, q: int) {
    && 0 <= q < 0x1_0000_0000
    && q * Two(v1, v0) <= Three(u2, u1, u0)
    && (q == 0xFFFF_FFFF ||
        Three(u2, u1, u0) < (q + 1) * Two(v1, v0))
  }

  /** The estimate is the true quotient digit or one more.
    * w is the window of the remainder, v the divisor, p = beta^(n-2).
    */
  lemma EstimateIsExactOrOneTooBig(u2: int, u1: int, u0: int, wl: int, v1: int, v0: int, vl: int,
                                   p: int, w: int, v: int, q: int)
    requires 0 < p && 0 <= wl < p && 0 <= vl < p
    requires 0 <= u2 && 0 <= u1 && 0 <= u0 && 0x8000_0000 <= v1 && 0 <= v0
    requires w == Three(u2, u1, u0) * p + wl
    requires v == Two(v1, v0) * p + vl
    requires w < v * 0x1_0000_0000
    requires IsEstimate(u2, u1, u0, v1, v0, q)
    ensures 0 < v
    ensures w / v <= q <= w / v + 1
  {
    var u := Three(u2, u1, u0);
    var d := Two(v1, v0);
    BelowByDigits(u, wl, d, vl, p, w, v, q);
    var t := w / v;
    QuotientBounds(w, v, q, t, u < (q + 1) * d);
  }

  /** What the digit estimate q says about the whole numbers w = u*p + wl and v = d*p + vl. */
  lemma BelowByDigits(u: int, wl: int, d: int, vl: int, p: int, w: int, v: int, q: int)
    requires 0 < p && 0 <= wl < p && 0 <= vl < p && 0 <= q < 0x1_0000_0000
    requires 0x1_0000_0000 <= d
    requires w == u * p + wl && v == d * p + vl
    ensures 0 < v
    ensures u < (q + 1) * d ==> w < (q + 1) * v
    ensures q * d <= u ==> q * v < w + v
  {
    MulLe(0x1_0000_0000, d, p);
    if u < (q + 1) * d {
      // w < (u+1)p <= (q+1)dp <= (q+1)v
      MulLe(u + 1, (q + 1) * d, p);
      MulLe(d * p, v, q + 1);
      assert ((q + 1) * d) * p == (d * p) * (q + 1);
      assert (u + 1) * p == u * p + p;
    }
    if q * d <= u {
      // qv = qdp + q vl <= up + qp < w + v
      MulLe(q * d, u, p);
      MulLe(vl, p, q);
      MulLe(q, 0xFFFF_FFFF, p);
      assert q * v == (q * d) * p + vl * q;
    }
  }

  lemma QuotientBounds(w: int, v: int, q: int, t: int, exactAbove: bool)
    requires 0 < v && 0 <= q < 0x1_0000_0000 && t == w / v && w < v * 0x1_0000_0000
    requires exactAbove || q == 0xFFFF_FFFF
    requires exactAbove ==> w < (q + 1) * v
    requires q * v < w + v
    ensures t <= q <= t + 1
  {
    assert t * v <= w < t * v + v;
    if exactAbove {
      MulCancelLt(t, q + 1, v);
    } else {
      MulCancelLt(t, 0x1_0000_0000, v);
    }
    assert (t + 2) * v == t * v + 2 * v;
    MulCancelLt(q, t + 2, v);
  }
}
