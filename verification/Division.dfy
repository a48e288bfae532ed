/** The loops of `divide` in vasnprintf.c, on limb arrays in place. */
module DivisionLoops {
  import opened Arith
  import opened Limbs
  import opened DivisionMath

  /** Estimates one quotient digit from the top limbs, as the division loop does:
    * trial quotient, overflow case, and at most two corrections.
    */
  method EstimateDigit(u2: Limb, u1: Limb, u0: Limb, v1: Limb, v0: Limb) returns (qStar: Limb)
    requires 0x8000_0000 <= v1
    requires Three(u2, u1, u0) < (Two(v1, v0) + 1) * 0x1_0000_0000
    ensures IsEstimate(u2, u1, u0, v1, v0, qStar)
  {
    var c1: Limb := 0;
    if u2 < v1 {
      var num: TwoLimb := u2 as int * 0x1_0000_0000 + u1;
      QuotientFits(num, v1, 0x1_0000_0000);
      qStar := num / v1;
      c1 := num % v1;
      assert num == qStar * v1 + c1;
      TrialIsHigh(u2, u1, u0, v1, v0, qStar, c1);
    } else {
      qStar := 0xFFFF_FFFF;
      var jump := u2 > v1;
      if !jump {
        c1 := (u1 as int + v1) % 0x1_0000_0000;
        jump := c1 < v1;
      }
      if jump {
        OverflowDigit(u2, u1, u0, v1, v0);
        return;
      }
    }
    qStar := CorrectDigit(u2, u1, u0, v1, v0, qStar, c1);
  }

  /** The correction test: lowers a digit that is at most two too big. */
  method CorrectDigit(u2: Limb, u1: Limb, u0: Limb, v1: Limb, v0: Limb, trial: Limb, c1: Limb) returns (qStar: Limb)
    requires 0x8000_0000 <= v1
    requires trial * v1 + c1 == Two(u2, u1)
    requires trial == 0xFFFF_FFFF || Three(u2, u1, u0) < (trial + 1) * Two(v1, v0)
    ensures IsEstimate(u2, u1, u0, v1, v0, qStar)
  {
    qStar := trial;
    var c2: TwoLimb := c1 as int * 0x1_0000_0000 + u0;
    ProductFits(v0, qStar, 0, 0);
    var c3: TwoLimb := v0 * qStar;
    var msdd: TwoLimb := v1 as int * 0x1_0000_0000 + v0;
    TestDifference(u2, u1, u0, v1, v0, qStar, c1);
    if c3 > c2 {
      CorrectionRoom(u2, u1, u0, v1, v0, qStar, c1);
      qStar := qStar - 1;
      if c3 - c2 > msdd {
        qStar := qStar - 1;
      }
    }
  }

  /** When [u2,u1] - (beta-1) v1 >= beta the digit beta-1 is not too big. */
  lemma OverflowDigit(u2: Limb, u1: Limb, u0: Limb, v1: Limb, v0: Limb)
    requires u2 > v1 || (u2 == v1 && u1 as int + v1 >= 0x1_0000_0000)
    ensures IsEstimate(u2, u1, u0, v1, v0, 0xFFFF_FFFF)
  {
  }

  /** c2 - c3 is what the digit q leaves of the top three limbs. */
  lemma TestDifference(u2: Limb, u1: Limb, u0: Limb, v1: Limb, v0: Limb, q: Limb, c1: Limb)
    requires q * v1 + c1 == Two(u2, u1)
    ensures Three(u2, u1, u0) - q * Two(v1, v0)
         == Two(c1, u0) - v0 * q
  {
    assert q * Two(v1, v0) == (q * v1) * 0x1_0000_0000 + v0 * q;
  }

  /** The trial quotient is never too small. */
  lemma TrialIsHigh(u2: Limb, u1: Limb, u0: Limb, v1: Limb, v0: Limb, q: Limb, c1: Limb)
    requires q * v1 + c1 == Two(u2, u1) && c1 < v1
    ensures Three(u2, u1, u0) < (q + 1) * Two(v1, v0)
  {
    var num := Two(u2, u1);
    assert (q + 1) * Two(v1, v0) == (q * v1 + v1) * 0x1_0000_0000 + (q + 1) * v0;
    assert (q + 1) * v0 >= 0 by { MulLe(0, q + 1, v0); }
  }

  /** When the test fails the digit is positive, and two corrections always suffice. */
  lemma CorrectionRoom(u2: Limb, u1: Limb, u0: Limb, v1: Limb, v0: Limb, q: Limb, c1: Limb)
    requires 0x8000_0000 <= v1
    requires q * v1 + c1 == Two(u2, u1)
    requires v0 * q > Two(c1, u0)
    ensures q >= 1
    ensures var u, d := Three(u2, u1, u0), Two(v1, v0);
      && u < q * d && (q - 2) * d <= u
      && (q - 1) * d == q * d - d
      && ((q - 1) * d > u ==> q >= 2)
  {
    TestDifference(u2, u1, u0, v1, v0, q, c1);
    var d := Two(v1, v0);
    assert q != 0;
    assert (q - 1) * d == q * d - d;
    assert (q - 2) * d == q * d - 2 * d;
    MulLe(v0, 0xFFFF_FFFF, q);
    MulLe(q, 0xFFFF_FFFF, 0xFFFF_FFFF);
  }

  /** Subtracts q * [b] from the n limbs at r[j], by adding q * [b] to their complement.
    * Returns the carry to subtract from the limb above.
    */
  method SubtractProduct(r: array<Limb>, j: nat, b: array<Limb>, bo: nat, n: nat, q: Limb) returns (cr: Limb)
    requires r != b && j + n <= r.Length && bo + n <= b.Length
    modifies r
    ensures forall k :: 0 <= k < r.Length && !(j <= k < j + n) ==> r[k] == old(r[k])
    ensures Val(r[j..j + n]) + q * Val(b[bo..bo + n]) == Val(old(r[j..j + n])) + Pow(n) * cr
  {
    var carry: TwoLimb := 0;
    var i := 0;
    ghost var was := old(r[j..j + n]);
    ghost var bs := b[bo..bo + n];
    ghost var done: seq<Limb> := [];
    while i < n
      invariant 0 <= i <= n && carry <= q && b[bo..bo + n] == bs
      invariant forall k :: 0 <= k < r.Length && !(j <= k < j + i) ==> r[k] == old(r[k])
      invariant r[j..j + i] == done
      invariant Val(done) + q * Val(bs[..i]) == Val(was[..i]) + Pow(i) * carry
    {
      ghost var c := carry;
      assert r[j + i] == was[i] && b[bo + i] == bs[i];
      var x;
      x, carry := SubtractLimb(q, b[bo + i], carry, r[j + i]);
      SubtractStep(done, bs, was, i, q, c, x, carry);
      r[j + i] := x;
      done := done + [x];
      i := i + 1;
    }
    assert bs[..n] == bs && was[..n] == was;
    cr := carry;
  }

  /** One limb of multiply-and-subtract: the complement of d takes the product and the carry. */
  method SubtractLimb(q: Limb, x: Limb, c: TwoLimb, d: Limb) returns (low: Limb, high: TwoLimb)
    requires c <= q
    ensures low + q * x == d + 0x1_0000_0000 * high - c && high <= q
  {
    ProductFits(q, x, c, 0xFFFF_FFFF - d);
    var carry: TwoLimb := c + q * x + (0xFFFF_FFFF - d);
    low := 0xFFFF_FFFF - carry % 0x1_0000_0000;
    high := carry / 0x1_0000_0000;
  }

  lemma SubtractStep(done: seq<Limb>, bs: seq<Limb>, was: seq<Limb>, i: nat, q: Limb, c: int, x: Limb, h: int)
    requires i < |bs| == |was| && |done| == i
    requires x + q * bs[i] == was[i] + 0x1_0000_0000 * h - c
    requires Val(done) + q * Val(bs[..i]) == Val(was[..i]) + Pow(i) * c
    ensures Val(done + [x]) + q * Val(bs[..i + 1]) == Val(was[..i + 1]) + Pow(i + 1) * h
  {
    ValSnoc(done, x);
    ValPrefix(bs, i);
    ValPrefix(was, i);
    MulSubIdentity(Val(done), Val(bs[..i]), Val(was[..i]), Pow(i), c, q, x, bs[i], was[i], h);
  }

  /** One limb of multiply-and-subtract, on numbers. */
  lemma MulSubIdentity(vd: int, vb: int, vw: int, p: int, c: int, q: int, x: int, bi: int, d: int, h: int)
    requires vd + q * vb == vw + p * c
    requires x + q * bi == d + 0x1_0000_0000 * h - c
    ensures (vd + p * x) + q * (vb + p * bi) == (vw + p * d) + (0x1_0000_0000 * p) * h
  {
    MulDist(q, vb, p * bi);
    MulAssoc(q, p, bi);
    MulAssoc(p, q, bi);
    MulDist(p, x, q * bi);
    MulDist(p, d, 0x1_0000_0000 * h - c);
    MulDist(p, 0x1_0000_0000 * h, -c);
  }

  /** Adds [b] to the n limbs at r[j]; the carry out is dropped, as the source does. */
  method AddBack(r: array<Limb>, j: nat, b: array<Limb>, bo: nat, n: nat) returns (ghost out: nat)
    requires r != b && j + n <= r.Length && bo + n <= b.Length
    modifies r
    ensures forall k :: 0 <= k < r.Length && !(j <= k < j + n) ==> r[k] == old(r[k])
    ensures Val(r[j..j + n]) + Pow(n) * out == Val(old(r[j..j + n])) + Val(b[bo..bo + n])
  {
    var carry := false;
    var i := 0;
    ghost var was := old(r[j..j + n]);
    ghost var bs := b[bo..bo + n];
    ghost var done: seq<Limb> := [];
    ghost var c := 0;
    while i < n
      invariant 0 <= i <= n && b[bo..bo + n] == bs
      invariant forall k :: 0 <= k < r.Length && !(j <= k < j + i) ==> r[k] == old(r[k])
      invariant r[j..j + i] == done && c == if carry then 1 else 0
      invariant Val(done) + Pow(i) * c == Val(was[..i]) + Val(bs[..i])
    {
      assert r[j + i] == was[i] && b[bo + i] == bs[i];
      var x;
      x, carry := AddLimb(b[bo + i], r[j + i], carry);
      AddStep(done, bs, was, i, c, x, if carry then 1 else 0);
      r[j + i] := x;
      done := done + [x];
      c := if carry then 1 else 0;
      i := i + 1;
    }
    assert bs[..n] == bs && was[..n] == was;
    out := c;
  }

  /** One limb of addition; the carry is found by comparing, without a wider type. */
  method AddLimb(source1: Limb, source2: Limb, carry: bool) returns (low: Limb, carry': bool)
    ensures low + (if carry' then 0x1_0000_0000 else 0) == source1 + source2 + if carry then 1 else 0
  {
    var sum: TwoLimb := source1 as int + source2 as int + (if carry then 1 else 0);
    low := sum % 0x1_0000_0000;
    carry' := if carry then source1 >= 0xFFFF_FFFF - source2 else source1 > 0xFFFF_FFFF - source2;
  }

  lemma AddStep(done: seq<Limb>, bs: seq<Limb>, was: seq<Limb>, i: nat, c: nat, x: Limb, h: nat)
    requires i < |bs| == |was| && |done| == i
    requires Val(done) + Pow(i) * c == Val(was[..i]) + Val(bs[..i])
    requires x + 0x1_0000_0000 * h == bs[i] + was[i] + c
    ensures Val(done + [x]) + Pow(i + 1) * h == Val(was[..i + 1]) + Val(bs[..i + 1])
  {
    ValSnoc(done, x);
    ValPrefix(bs, i);
    ValPrefix(was, i);
    AddIdentity(Val(done), Val(was[..i]), Val(bs[..i]), Pow(i), c, x, h, bs[i], was[i]);
  }

  /** One limb of addition, on numbers. */
  lemma AddIdentity(vd: int, vw: int, vb: int, p: int, c: int, x: int, h: int, bi: int, wi: int)
    requires vd + p * c == vw + vb
    requires x + 0x1_0000_0000 * h == bi + wi + c
    ensures (vd + p * x) + (0x1_0000_0000 * p) * h == (vw + p * wi) + (vb + p * bi)
  {
    MulDist(p, x, 0x1_0000_0000 * h);
    MulDist(p, bi + wi, c);
    MulDist(p, bi, wi);
  }

  /** One pass of the division loop: the window r[j..j+n] is divided by [b]. The digit takes the
    * place of the limb above the remainder, which is no longer needed.
    */
  method DivideWindow(r: array<Limb>, j: nat, b: array<Limb>, bo: nat, n: nat)
    requires r != b && 2 <= n && j + n < r.Length && bo + n <= b.Length
    requires b[bo + n - 1] >= 0x8000_0000
    requires Val(r[j..j + n + 1]) < Val(b[bo..bo + n]) * 0x1_0000_0000
    modifies r
    ensures forall k :: 0 <= k < r.Length && !(j <= k <= j + n) ==> r[k] == old(r[k])
    ensures Val(b[bo..bo + n]) > 0
    ensures r[j + n] == Val(old(r[j..j + n + 1])) / Val(b[bo..bo + n])
    ensures Val(r[j..j + n]) == Val(old(r[j..j + n + 1])) % Val(b[bo..bo + n])
  {
    ghost var w, bs := r[j..j + n + 1], b[bo..bo + n];
    WindowTop(w, bs, n);
    var qStar := EstimateDigit(r[j + n], r[j + n - 1], r[j + n - 2], b[bo + n - 1], b[bo + n - 2]);
    WindowEstimate(w, bs, n, qStar);
    ValSplit(w, n);
    assert r[j..j + n] == w[..n] && w[n..] == [r[j + n]];
    ValOne(r[j + n]);
    qStar := SubtractDigit(r, j, b, bo, n, qStar, Val(w));
    r[j + n] := qStar;
    assert r[j..j + n] == r[..j + n][j..];
  }

  /** Subtracts the estimated digit times [b] from the window and corrects the digit by the sign. */
  method SubtractDigit(r: array<Limb>, j: nat, b: array<Limb>, bo: nat, n: nat, estimate: Limb, ghost w: nat)
    returns (qStar: Limb)
    requires r != b && j + n < r.Length && bo + n <= b.Length
    requires Val(b[bo..bo + n]) > 0
    requires w == Val(r[j..j + n]) + Pow(n) * r[j + n]
    requires w / Val(b[bo..bo + n]) <= estimate <= w / Val(b[bo..bo + n]) + 1
    modifies r
    ensures forall k :: 0 <= k < r.Length && !(j <= k < j + n) ==> r[k] == old(r[k])
    ensures qStar == w / Val(b[bo..bo + n])
    ensures Val(r[j..j + n]) == w % Val(b[bo..bo + n])
  {
    qStar := estimate;
    ghost var v := Val(b[bo..bo + n]);
    ValBound(b[bo..bo + n]);
    if qStar > 0 {
      var cr := SubtractProduct(r, j, b, bo, n, qStar);
      ghost var d := Val(r[j..j + n]);
      ValBound(r[j..j + n]);
      SubtractOutcome(w, v, Pow(n), qStar, d, cr, r[j + n]);
      if cr > r[j + n] {
        qStar := qStar - 1;
        ghost var out := AddBack(r, j, b, bo, n);
        ValBound(r[j..j + n]);
        AddBackOutcome(w, v, Pow(n), qStar, d, cr, r[j + n], Val(r[j..j + n]), out);
      }
    } else {
      NoDigit(w, v, Pow(n), Val(r[j..j + n]), r[j + n]);
    }
  }

  /** The window and the divisor, seen through their top limbs. */
  lemma WindowTop(w: seq<Limb>, bs: seq<Limb>, n: nat)
    requires 2 <= n && |w| == n + 1 && |bs| == n
    requires bs[n - 1] >= 0x8000_0000
    requires Val(w) < Val(bs) * 0x1_0000_0000
    ensures Val(w) == Three(w[n], w[n - 1], w[n - 2]) * Pow(n - 2) + Val(w[..n - 2])
    ensures Val(bs) == Two(bs[n - 1], bs[n - 2]) * Pow(n - 2) + Val(bs[..n - 2])
    ensures Three(w[n], w[n - 1], w[n - 2])
          < (Two(bs[n - 1], bs[n - 2]) + 1) * 0x1_0000_0000
  {
    WindowSplit(w, n);
    DivisorSplit(bs, n);
    ValBound(bs[..n - 2]);
    PowPositive(n - 2);
    TopBelow(Three(w[n], w[n - 1], w[n - 2]), Val(w[..n - 2]), Two(bs[n - 1], bs[n - 2]), Val(bs[..n - 2]),
             Pow(n - 2), Val(w), Val(bs));
  }

  lemma WindowSplit(w: seq<Limb>, n: nat)
    requires 2 <= n && |w| == n + 1
    ensures Val(w) == Three(w[n], w[n - 1], w[n - 2]) * Pow(n - 2) + Val(w[..n - 2])
  {
    ValSplit(w, n - 2);
    var t := w[n - 2..];
    assert Val(t) == Three(w[n], w[n - 1], w[n - 2]) by {
      assert t[1..][1..] == [w[n]];
      ValOne(w[n]);
      assert Val(t[1..]) == w[n - 1] + 0x1_0000_0000 * Val([w[n]]);
    }
  }

  lemma DivisorSplit(bs: seq<Limb>, n: nat)
    requires 2 <= n && |bs| == n
    ensures Val(bs) == Two(bs[n - 1], bs[n - 2]) * Pow(n - 2) + Val(bs[..n - 2])
  {
    ValSplit(bs, n - 2);
    var t := bs[n - 2..];
    assert Val(t) == Two(bs[n - 1], bs[n - 2]) by {
      assert t[1..] == [bs[n - 1]];
      ValOne(bs[n - 1]);
    }
  }

  /** u p <= w < v beta < (d+1) p beta */
  lemma TopBelow(u: int, wl: int, d: int, vl: int, p: int, w: int, v: int)
    requires 0 < p && 0 <= wl && 0 <= vl < p
    requires w == u * p + wl && v == d * p + vl && w < v * 0x1_0000_0000
    ensures u < (d + 1) * 0x1_0000_0000
  {
    assert ((d + 1) * 0x1_0000_0000) * p == (d * p + p) * 0x1_0000_0000;
    MulCancelLt(u, (d + 1) * 0x1_0000_0000, p);
  }

  lemma WindowEstimate(w: seq<Limb>, bs: seq<Limb>, n: nat, q: Limb)
    requires 2 <= n && |w| == n + 1 && |bs| == n
    requires bs[n - 1] >= 0x8000_0000
    requires Val(w) < Val(bs) * 0x1_0000_0000
    requires IsEstimate(w[n], w[n - 1], w[n - 2], bs[n - 1], bs[n - 2], q)
    ensures 0 < Val(bs)
    ensures Val(w) / Val(bs) <= q <= Val(w) / Val(bs) + 1
  {
    WindowTop(w, bs, n);
    PowPositive(n - 2);
    ValBound(w[..n - 2]);
    ValBound(bs[..n - 2]);
    EstimateIsExactOrOneTooBig(w[n], w[n - 1], w[n - 2], Val(w[..n - 2]), bs[n - 1], bs[n - 2], Val(bs[..n - 2]),
                               Pow(n - 2), Val(w), Val(bs), q);
  }

  /** After subtracting q*v, a carry beyond the top limb tells that q was one too big. */
  lemma SubtractOutcome(w: int, v: int, p: int, q: int, d: int, cr: int, top: int)
    requires 0 < v < p && 0 <= d < p && 0 <= w && w / v <= q <= w / v + 1
    requires d + q * v == w - p * top + p * cr
    ensures cr <= top ==> q == w / v && d == w % v
    ensures cr > top ==> q - 1 == w / v
  {
    var t := w / v;
    assert w == t * v + w % v;
    assert (t + 1) * v == t * v + v;
    if cr <= top {
      MulLe(cr, top, p);
      if q == t + 1 { assert false; }
      // d == w % v - p * (top - cr), both in [0, p)
      assert d == w % v + (cr - top) * p;
      SameResidue(d, w % v, cr - top, p);
    } else {
      MulGap(top, cr, p);
    }
  }

  lemma AddBackOutcome(w: int, v: int, p: int, q: int, d: int, cr: int, top: int, d': int, out: int)
    requires 0 < v < p && 0 <= d' < p && 0 <= w && q == w / v
    requires d + (q + 1) * v == w - p * top + p * cr
    requires d' + p * out == d + v
    ensures d' == w % v
  {
    assert w == q * v + w % v;
    assert (q + 1) * v == q * v + v;
    assert d' == w % v + (cr - top - out) * p by {
      assert (cr - top - out) * p == p * cr - p * top - p * out;
    }
    SameResidue(d', w % v, cr - top - out, p);
  }

  lemma NoDigit(w: int, v: int, p: int, low: int, top: int)
    requires 0 < v < p && 0 <= low && 0 <= top && w == low + p * top
    requires w / v <= 0
    ensures w / v == 0 && low == w % v
  {
    if top >= 1 { MulLe(1, top, p); }
  }

  /** The division loop: [r[m],...,r[0]] is divided by [b] in place. At the end the remainder is in
    * r[..n] and the quotient in r[n..m+1].
    */
  method DivideLoop(r: array<Limb>, m: nat, b: array<Limb>, bo: nat, n: nat)
    requires r != b && 2 <= n <= m < r.Length && bo + n <= b.Length
    requires b[bo + n - 1] >= 0x8000_0000
    requires Val(r[..m + 1]) < Val(b[bo..bo + n]) * Pow(m - n + 1)
    modifies r
    ensures forall k :: m < k < r.Length ==> r[k] == old(r[k])
    ensures Val(b[bo..bo + n]) > 0
    ensures Val(r[n..m + 1]) == Val(old(r[..m + 1])) / Val(b[bo..bo + n])
    ensures Val(r[..n]) == Val(old(r[..m + 1])) % Val(b[bo..bo + n])
  {
    ghost var a, v := Val(r[..m + 1]), Val(b[bo..bo + n]);
    var j := m - n;
    assert r[m + 1..m + 1] == [];
    while true
      invariant 0 <= j <= m - n
      invariant forall k :: m < k < r.Length ==> r[k] == old(r[k])
      invariant b[bo..bo + n] == old(b[bo..bo + n])
      invariant DivisionState(a, v, Pow(j + 1), Val(r[j + n + 1..m + 1]), Val(r[..j + n + 1]))
      decreases j
    {
      DivisionPass(r, j, m, b, bo, n, a);
      if j == 0 {
        break;
      }
      j := j - 1;
    }
    LoopEnd(a, v, Val(r[n..m + 1]), Val(r[..n]));
  }

  /** One pass of the division loop, seen from the whole number. */
  method DivisionPass(r: array<Limb>, j: nat, m: nat, b: array<Limb>, bo: nat, n: nat, ghost a: nat)
    requires r != b && 2 <= n && j + n <= m < r.Length && bo + n <= b.Length
    requires b[bo + n - 1] >= 0x8000_0000
    requires DivisionState(a, Val(b[bo..bo + n]), Pow(j + 1), Val(r[j + n + 1..m + 1]), Val(r[..j + n + 1]))
    modifies r
    ensures forall k :: m < k < r.Length ==> r[k] == old(r[k])
    ensures Val(b[bo..bo + n]) > 0
    ensures DivisionState(a, Val(b[bo..bo + n]), Pow(j), Val(r[j + n..m + 1]), Val(r[..j + n]))
  {
    ghost var v := Val(b[bo..bo + n]);
    ghost var low, window, digits := r[..j], r[j..j + n + 1], r[j + n + 1..m + 1];
    assert r[..j + n + 1] == low + window;
    PassBefore(low, window, digits, a, v);
    DivideWindow(r, j, b, bo, n);
    ghost var rest := r[j..j + n];
    assert r[..j + n] == low + rest;
    assert r[j + n..m + 1] == [r[j + n]] + digits;
    PassDigit(low, Val(window), digits, rest, r[j + n], a, v);
  }

  /** Before a pass: the window is small enough for one digit. */
  lemma PassBefore(low: seq<Limb>, window: seq<Limb>, digits: seq<Limb>, a: nat, v: nat)
    requires DivisionState(a, v, Pow(|low| + 1), Val(digits), Val(low + window))
    ensures Val(window) < v * 0x1_0000_0000
    ensures DivisionState(a, v, 0x1_0000_0000 * Pow(|low|), Val(digits), Val(low) + Pow(|low|) * Val(window))
  {
    SplitLow(low + window, low, window);
    LoopWindow(Val(low), Val(window), v, Pow(|low|), Val(low + window));
  }

  /** After it: the quotient of the window is the next digit, its remainder takes the window's place. */
  lemma PassAfter(low: seq<Limb>, w: nat, digits: seq<Limb>, rest: seq<Limb>, q: Limb, a: nat, v: nat, r: nat)
    requires DivisionState(a, v, 0x1_0000_0000 * Pow(|low|), Val(digits), Val(low) + Pow(|low|) * w)
    requires w == q * v + r && r == Val(rest) < v
    ensures DivisionState(a, v, Pow(|low|), Val([q] + digits), Val(low + rest))
  {
    SplitLow(low + rest, low, rest);
    ValCons([q] + digits, q, digits);
    LoopStep(Val(low), w, v, Pow(|low|), Val(digits), a, q, r);
  }

  lemma PassDigit(low: seq<Limb>, w: nat, digits: seq<Limb>, rest: seq<Limb>, q: Limb, a: nat, v: nat)
    requires DivisionState(a, v, 0x1_0000_0000 * Pow(|low|), Val(digits), Val(low) + Pow(|low|) * w)
    requires 0 < v && q == w / v && Val(rest) == w % v
    ensures DivisionState(a, v, Pow(|low|), Val([q] + digits), Val(low + rest))
  {
    DivFacts(w, v);
    PassAfter(low, w, digits, rest, q, a, v, w % v);
  }

  lemma ValCons(s: seq<Limb>, x: Limb, t: seq<Limb>)
    requires s == [x] + t
    ensures Val(s) == x + 0x1_0000_0000 * Val(t)
  {
    assert s[1..] == t;
  }

  /** What the division loop keeps: the digits found so far, at their place, times v, plus the rest. */
  predicate DivisionState(a: int, v: int, p: int, digits: int, rest: int) {
    && a == (digits * p) * v + rest
    && 0 <= rest < v * p
  }

  lemma LoopEnd(a: int, v: int, digits: int, rest: int)
    requires 0 < v && DivisionState(a, v, 1, digits, rest)
    ensures digits == a / v && rest == a % v
  {
    DivModUnique(a, v, digits, rest);
  }

  lemma SplitLow(s: seq<Limb>, low: seq<Limb>, high: seq<Limb>)
    requires s == low + high
    ensures Val(s) == Val(low) + Pow(|low|) * Val(high)
    ensures Val(low) < Pow(|low|)
  {
    ValConcat(low, high);
    ValBound(low);
  }

  lemma LoopWindow(low: int, w: int, v: int, p: int, rest: int)
    requires 0 < p && 0 <= low && rest == low + p * w && rest < v * (0x1_0000_0000 * p)
    ensures w < v * 0x1_0000_0000
  {
    assert v * (0x1_0000_0000 * p) == (v * 0x1_0000_0000) * p;
    MulCancelLt(w, v * 0x1_0000_0000, p);
  }

  lemma LoopStep(low: int, w: int, v: int, p: int, digits: int, a: int, q: int, w': int)
    requires 0 < p && 0 <= low < p && w == q * v + w' && 0 <= w' < v
    requires DivisionState(a, v, 0x1_0000_0000 * p, digits, low + p * w)
    ensures DivisionState(a, v, p, q + 0x1_0000_0000 * digits, low + p * w')
  {
    MulDist(p, q * v, w');
    assert p * (q * v) == (q * p) * v;
    assert (q + 0x1_0000_0000 * digits) * p == q * p + digits * (0x1_0000_0000 * p);
    MulDist(v, q * p, digits * (0x1_0000_0000 * p));
    MulGap(w', v, p);
    MulLe(0, w', p);
  }
}
