/** Loops of vasnprintf.c that move limbs: bit shifts, normalisation, comparison with twice the
  * remainder, increment.
  */
module LimbLoops {
  import opened Arith
  import opened Limbs

  /** Shifts len limbs left by s bits, in place or into another array; returns the bits shifted out. */
  method ShiftLeft(src: array<Limb>, so: nat, dst: array<Limb>, d: nat, len: nat, s: nat) returns (accu: TwoLimb)
    requires so + len <= src.Length && d + len <= dst.Length && s < 32
    requires src != dst || so == d
    modifies dst
    ensures forall k :: 0 <= k < dst.Length && !(d <= k < d + len) ==> dst[k] == old(dst[k])
    ensures accu < Pow2(s)
    ensures Val(dst[d..d + len]) + Pow(len) * accu == Val(old(src[so..so + len])) * Pow2(s)
  {
    accu := 0;
    var i := 0;
    ghost var was := src[so..so + len];
    ghost var done: seq<Limb> := [];
    Pow2Positive(s);
    while i < len
      invariant 0 <= i <= len && accu < Pow2(s)
      invariant forall k :: 0 <= k < dst.Length && !(d <= k < d + i) ==> dst[k] == old(dst[k])
      invariant forall k :: i <= k < len ==> src[so + k] == was[k]
      invariant dst[d..d + i] == done
      invariant Val(done) + Pow(i) * accu == Val(was[..i]) * Pow2(s)
    {
      var x := src[so + i];
      assert x == was[i];
      ShiftStep(done, was, i, s, accu, x);
      accu := accu + x * Pow2(s);
      dst[d + i] := accu % 0x1_0000_0000;
      done := done + [accu % 0x1_0000_0000];
      accu := accu / 0x1_0000_0000;
      i := i + 1;
    }
    assert was[..len] == was;
  }

  lemma ShiftStep(done: seq<Limb>, was: seq<Limb>, i: nat, s: nat, accu: nat, x: Limb)
    requires i < |was| && |done| == i && x == was[i] && s < 32 && accu < Pow2(s)
    requires Val(done) + Pow(i) * accu == Val(was[..i]) * Pow2(s)
    ensures var t := accu + x * Pow2(s);
      && 0 <= t < 0x1_0000_0000_0000_0000
      && t / 0x1_0000_0000 < Pow2(s)
      && Val(done + [t % 0x1_0000_0000]) + Pow(i + 1) * (t / 0x1_0000_0000) == Val(was[..i + 1]) * Pow2(s)
  {
    var e := Pow2(s);
    var t := accu + x * e;
    Pow2Below(s);
    MulLe(0, x, e);
    MulGap(x, 0x1_0000_0000, e);
    QuotientFits(t, 0x1_0000_0000, e);
    ValSnoc(done, t % 0x1_0000_0000);
    ValPrefix(was, i);
    ShiftIdentity(Val(done), Val(was[..i]), Pow(i), accu, x, e, t / 0x1_0000_0000, t % 0x1_0000_0000);
  }

  lemma ShiftIdentity(vd: int, vw: int, p: int, accu: int, x: int, e: int, h: int, l: int)
    requires vd + p * accu == vw * e && accu + x * e == h * 0x1_0000_0000 + l
    ensures (vd + p * l) + (0x1_0000_0000 * p) * h == (vw + p * x) * e
  {
    MulDist(p, accu, x * e);
    MulDist(p, h * 0x1_0000_0000, l);
    MulAssoc(p, x, e);
    MulDist(e, vw, p * x);
  }

  lemma {:induction false} Pow2Below(s: nat)
    requires s < 32
    ensures Pow2(s) <= 0x8000_0000
    decreases 32 - s
  {
    if s == 31 { Pow2At32(); } else { Pow2Below(s + 1); }
  }

  /** Position of the highest bit of a nonzero limb, counted from the top: five halving steps. */
  method LeadingZeros(limb: Limb) returns (s: nat)
    requires limb != 0
    ensures s < 32
    ensures Pow2(31 - s) <= limb < Pow2(32 - s)
  {
    var msd := limb;
    s := 31;
    msd, s := HalvingStep(limb, msd, s, 16, 0x10000);
    msd, s := HalvingStep(limb, msd, s, 8, 0x100);
    msd, s := HalvingStep(limb, msd, s, 4, 0x10);
    msd, s := HalvingStep(limb, msd, s, 2, 0x4);
    msd, s := HalvingStep(limb, msd, s, 1, 0x2);
    TopBit(limb, 31 - s);
  }

  /** "If the upper half of the 2w bits is not empty, continue with it, else with the lower half." */
  method HalvingStep(ghost limb: Limb, msd: Limb, s: nat, w: nat, f: Limb) returns (msd': Limb, s': nat)
    requires (w, f) in {(16, 0x10000), (8, 0x100), (4, 0x10), (2, 0x4), (1, 0x2)}
    requires 2 * w - 1 <= s <= 31 && 0 < msd < f * f && msd == ShiftRight(limb, 31 - s)
    ensures w - 1 <= s' <= 31 && 0 < msd' < f && msd' == ShiftRight(limb, 31 - s')
  {
    msd', s' := msd, s;
    if msd >= f {
      ShiftRightAdd(limb, 31 - s, w);
      msd' := msd / f;
      s' := s - w;
    }
  }

  /** x >> k, one bit at a time. */
  function ShiftRight(x: nat, k: nat): (y: nat)
    ensures x > 0 && k == 0 ==> y > 0
  {
    if k == 0 then x else ShiftRight(x, k - 1) / 2
  }

  /** A further shift by 1, 2, 4, 8 or 16 bits is one division. */
  lemma ShiftRightAdd(x: nat, k: nat, w: nat)
    requires w in {1, 2, 4, 8, 16}
    decreases w
    ensures w == 1 ==> ShiftRight(x, k + w) == ShiftRight(x, k) / 0x2
    ensures w == 2 ==> ShiftRight(x, k + w) == ShiftRight(x, k) / 0x4
    ensures w == 4 ==> ShiftRight(x, k + w) == ShiftRight(x, k) / 0x10
    ensures w == 8 ==> ShiftRight(x, k + w) == ShiftRight(x, k) / 0x100
    ensures w == 16 ==> ShiftRight(x, k + w) == ShiftRight(x, k) / 0x10000
  {
    if w > 1 {
      ShiftRightAdd(x, k, w / 2);
      ShiftRightAdd(x, k + w / 2, w / 2);
    }
  }

  lemma {:induction false} TopBit(x: nat, k: nat)
    requires ShiftRight(x, k) >= 1
    ensures Pow2(k) * ShiftRight(x, k) <= x < Pow2(k) * (ShiftRight(x, k) + 1)
    ensures ShiftRight(x, k) == 1 ==> Pow2(k) <= x < Pow2(k + 1)
  {
    if k > 0 {
      TopBit(x, k - 1);
      Pow2Positive(k - 1);
      TopBitStep(x, Pow2(k - 1), ShiftRight(x, k - 1));
    }
  }

  lemma TopBitStep(x: int, p: int, y: int)
    requires p >= 1 && p * y <= x < p * (y + 1)
    ensures (2 * p) * (y / 2) <= x < (2 * p) * (y / 2 + 1)
  {
    var h := y / 2;
    assert (2 * p) * h == p * (2 * h);
    assert (2 * p) * (h + 1) == p * (2 * h + 2);
    MulLe(2 * h, y, p);
    MulLe(y + 1, 2 * h + 2, p);
    assert p * (2 * h) == 2 * h * p && p * (2 * h + 2) == (2 * h + 2) * p;
    assert p * y == y * p && p * (y + 1) == (y + 1) * p;
  }

  /** Drops high zero limbs. */
  method Normalise(mem: array<Limb>, off: nat, len: nat) returns (len': nat)
    requires off + len <= mem.Length
    ensures len' <= len && Normalised(mem[off..off + len'])
    ensures Val(mem[off..off + len']) == Val(mem[off..off + len])
  {
    len' := len;
    while len' > 0 && mem[off + len' - 1] == 0
      invariant len' <= len
      invariant Val(mem[off..off + len']) == Val(mem[off..off + len])
    {
      ghost var s := mem[off..off + len'];
      ValPrefix(s, len' - 1);
      assert s[..len' - 1] == mem[off..off + len' - 1] && s[..len'] == s;
      len' := len' - 1;
    }
  }

  /** Limb i of 2 * r. Its two parts share no bit. */
  function TwiceLimb(r: seq<Limb>, i: nat): Limb {
    (if 0 < i <= |r| then r[i - 1] / 0x8000_0000 else 0)
    + (if i < |r| then r[i] as int * 2 % 0x1_0000_0000 else 0)
  }

  function Twice(r: seq<Limb>, k: nat): (t: seq<Limb>)
    ensures |t| == k && forall i :: 0 <= i < k ==> t[i] == TwiceLimb(r, i)
  {
    if k == 0 then [] else Twice(r, k - 1) + [TwiceLimb(r, k - 1)]
  }

  /** The bit that limb k - 1 of r sends to limb k of 2 * r. */
  function TwiceCarry(r: seq<Limb>, k: nat): nat
    requires k <= |r|
  {
    if k == 0 then 0 else r[k - 1] / 0x8000_0000
  }

  lemma {:induction false} TwiceVal(r: seq<Limb>, k: nat)
    requires k <= |r|
    ensures Val(Twice(r, k)) + Pow(k) * TwiceCarry(r, k) == 2 * Val(r[..k])
  {
    if k > 0 {
      TwiceVal(r, k - 1);
      TwiceStep(r, k - 1, Twice(r, k - 1));
    }
  }

  lemma TwiceStep(r: seq<Limb>, k: nat, t: seq<Limb>)
    requires k < |r| && |t| == k
    requires Val(t) + Pow(k) * TwiceCarry(r, k) == 2 * Val(r[..k])
    ensures Val(t + [TwiceLimb(r, k)]) + Pow(k + 1) * TwiceCarry(r, k + 1) == 2 * Val(r[..k + 1])
  {
    ValPrefix(r, k);
    ValSnoc(t, TwiceLimb(r, k));
    TwiceIdentity(Val(t), Pow(k), TwiceCarry(r, k), r[k], Val(r[..k]),
                  r[k] / 0x8000_0000, r[k] as int * 2 % 0x1_0000_0000);
  }

  lemma TwiceIdentity(vt: int, p: int, c: int, x: int, v: int, h: int, l: int)
    requires vt + p * c == 2 * v && 2 * x == h * 0x1_0000_0000 + l
    ensures (vt + p * (c + l)) + (0x1_0000_0000 * p) * h == 2 * (v + p * x)
  {
    MulDist(p, c, l);
    assert (0x1_0000_0000 * p) * h == p * (h * 0x1_0000_0000);
    MulDist(p, h * 0x1_0000_0000, l);
    assert p * (2 * x) == 2 * (p * x);
  }

  lemma {:induction false} TwiceWhole(r: seq<Limb>, k: nat)
    requires |r| < k
    ensures Val(Twice(r, k)) == 2 * Val(r)
    decreases k
  {
    ValSnoc(Twice(r, k - 1), TwiceLimb(r, k - 1));
    if k == |r| + 1 {
      TwiceVal(r, |r|);
      assert r[..|r|] == r;
    } else {
      TwiceWhole(r, k - 1);
    }
  }

  /** The highest differing limb decides. */
  lemma CompareAt(x: seq<Limb>, y: seq<Limb>, i: nat)
    requires i < |x| == |y| && x[i] < y[i] && x[i + 1..] == y[i + 1..]
    ensures Val(x) < Val(y)
  {
    ValSplit(x, i + 1);
    ValSplit(y, i + 1);
    ValPrefix(x, i);
    ValPrefix(y, i);
    ValBound(x[..i]);
    CompareNumbers(Val(x[..i]), Val(y[..i]), Pow(i), x[i], y[i]);
  }

  lemma CompareNumbers(a: int, b: int, p: int, x: int, y: int)
    requires 0 <= a < p && 0 <= b && x < y
    ensures a + p * x < b + p * y
  {
    MulGap(x, y, p);
  }

  lemma SameTail(x: seq<Limb>, y: seq<Limb>, i: nat)
    requires i < |x| == |y| && x[i] == y[i] && x[i + 1..] == y[i + 1..]
    ensures x[i..] == y[i..] && (i == 0 ==> x == y)
  {
    assert x[i..] == [x[i]] + x[i + 1..] && y[i..] == [y[i]] + y[i + 1..];
    assert x[0..] == x && y[0..] == y;
  }

  lemma ValAppendZero(s: seq<Limb>)
    ensures Val(s + [0]) == Val(s)
  {
    ValSnoc(s, 0);
  }

  lemma LongerIsBigger(x: seq<Limb>, y: seq<Limb>)
    requires |x| > |y| && Normalised(x)
    ensures Val(x) > Val(y)
  {
    NormalisedLower(x);
    PowMonotone(|y|, |x| - 1);
    ValBound(y);
  }

  /** The three outcomes of comparing twice the remainder with the divisor. */
  datatype Verdict = Below | Half | Above

  /** Limb i of r << 1, read from two neighbouring limbs of r. */
  method ReadTwice(r: array<Limb>, ro: nat, rLen: nat, i: nat) returns (ri: Limb)
    requires ro + rLen <= r.Length
    ensures ri == TwiceLimb(r[ro..ro + rLen], i)
  {
    var hi: Limb := if i <= rLen && i > 0 then r[ro + i - 1] / 0x8000_0000 else 0;
    var lo: Limb := if i < rLen then r[ro + i] as int * 2 % 0x1_0000_0000 else 0;
    ri := hi as int + lo;
  }

  /** Compares r << 1 with b, from the highest limb down. */
  method CompareTwice(r: array<Limb>, ro: nat, rLen: nat, b: array<Limb>, bo: nat, bLen: nat) returns (v: Verdict)
    requires ro + rLen <= r.Length && bo + bLen <= b.Length
    requires Normalised(r[ro..ro + rLen])
    ensures v.Below? <==> 2 * Val(r[ro..ro + rLen]) < Val(b[bo..bo + bLen])
    ensures v.Above? <==> 2 * Val(r[ro..ro + rLen]) > Val(b[bo..bo + bLen])
  {
    ghost var rs, bs := r[ro..ro + rLen], b[bo..bo + bLen];
    if rLen > bLen {
      LongerIsBigger(rs, bs);
      return Above;
    }
    ghost var x, y := Twice(rs, bLen + 1), bs + [0];
    TwiceWhole(rs, bLen + 1);
    ValAppendZero(bs);
    var i := bLen;
    while true
      invariant 0 <= i <= bLen && x[i + 1..] == y[i + 1..]
      decreases i
    {
      var ri := ReadTwice(r, ro, rLen, i);
      var bi: Limb := if i < bLen then b[bo + i] else 0;
      assert ri == x[i] && bi == y[i];
      if ri > bi {
        CompareAt(y, x, i);
        return Above;
      }
      if ri < bi {
        CompareAt(x, y, i);
        return Below;
      }
      SameTail(x, y, i);
      if i == 0 {
        return Half;
      }
      i := i - 1;
    }
  }

  /** Adds one to the number in place; a carry out of the top becomes a new limb. */
  method Increment(mem: array<Limb>, off: nat, len: nat) returns (len': nat)
    requires off + len < mem.Length
    requires Normalised(mem[off..off + len])
    modifies mem
    ensures len <= len' <= len + 1
    ensures forall k :: 0 <= k < mem.Length && !(off <= k < off + len') ==> mem[k] == old(mem[k])
    ensures Val(mem[off..off + len']) == Val(old(mem[off..off + len])) + 1
    ensures Normalised(mem[off..off + len'])
  {
    ghost var was := mem[off..off + len];
    var i := 0;
    while i < len
      invariant 0 <= i <= len
      invariant forall k :: 0 <= k < mem.Length && !(off <= k < off + i) ==> mem[k] == old(mem[k])
      invariant forall k :: off <= k < off + i ==> mem[k] == 0
      invariant forall k :: 0 <= k < i ==> was[k] == 0xFFFF_FFFF
    {
      mem[off + i] := (mem[off + i] as int + 1) % 0x1_0000_0000;
      if mem[off + i] != 0 {
        IncrementStops(was, mem[off..off + len], i);
        return len;
      }
      i := i + 1;
    }
    mem[off + len] := 1;
    len' := len + 1;
    IncrementOverflows(was, mem[off..off + len']);
  }

  lemma {:induction false} AllOnes(s: seq<Limb>, i: nat)
    requires i <= |s| && forall k :: 0 <= k < i ==> s[k] == 0xFFFF_FFFF
    ensures Val(s[..i]) + 1 == Pow(i)
  {
    if i > 0 {
      AllOnes(s, i - 1);
      ValPrefix(s, i - 1);
      assert Pow(i) == Pow(i - 1) * 0xFFFF_FFFF + Pow(i - 1);
    }
  }

  lemma IncrementStops(was: seq<Limb>, now: seq<Limb>, i: nat)
    requires i < |was| == |now| && now[i] == was[i] as int + 1
    requires forall k :: i < k < |was| ==> now[k] == was[k]
    requires forall k :: 0 <= k < i ==> now[k] == 0
    requires forall k :: 0 <= k < i ==> was[k] == 0xFFFF_FFFF
    ensures Val(now) == Val(was) + 1
  {
    assert now[i + 1..] == was[i + 1..];
    AllOnes(was, i);
    ValZeros(now[..i]);
    ValAround(was, i);
    ValAround(now, i);
    MulDist(Pow(i), was[i], 1);
  }

  lemma ValAround(s: seq<Limb>, i: nat)
    requires i < |s|
    ensures Val(s) == Val(s[..i]) + Pow(i) * s[i] + Pow(i + 1) * Val(s[i + 1..])
  {
    ValSplit(s, i + 1);
    ValPrefix(s, i);
  }

  lemma IncrementOverflows(was: seq<Limb>, now: seq<Limb>)
    requires |now| == |was| + 1 && now[|was|] == 1
    requires forall k :: 0 <= k < |was| ==> now[k] == 0
    requires forall k :: 0 <= k < |was| ==> was[k] == 0xFFFF_FFFF
    ensures Val(now) == Val(was) + 1
  {
    AllOnes(was, |was|);
    assert was[..|was|] == was;
    ValPrefix(now, |was|);
    ValZeros(now[..|was|]);
    assert now[..|was| + 1] == now;
  }
}
