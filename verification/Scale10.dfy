/** `scale10_round_decimal_decoded` of vasnprintf.c: the decimal digits of round(m * 2^e * 10^n). */
module Scale10 {
  import opened Arith
  import opened Limbs
  import opened LimbLoops
  import opened Bignum
  import opened Decimal
  import opened ScaleMath

  const SMALL_POW5: seq<Limb> :=
    [1, 5, 25, 125, 625, 3125, 15625, 78125, 390625, 1953125, 9765625, 48828125, 244140625, 1220703125]

  /** Limbs reserved for 5^k: 2.322 is slightly larger than log(5)/log(2). */
  function FiveLimbs(k: nat): nat {
    k * 2322 / 32000 + 1
  }

  lemma {:induction false} ExpExp(b: nat, m: nat, n: nat)
    ensures Exp(Exp(b, m), n) == Exp(b, m * n)
  {
    if n > 0 {
      ExpExp(b, m, n - 1);
      ExpAdd(b, m, m * (n - 1));
      assert m + m * (n - 1) == m * n;
    }
  }

  lemma {:induction false} ExpMonotone(a: nat, b: nat, n: nat)
    requires a <= b
    ensures Exp(a, n) <= Exp(b, n)
  {
    if n > 0 {
      ExpMonotone(a, b, n - 1);
      MulLe(a, b, Exp(a, n - 1));
      MulLe(Exp(a, n - 1), Exp(b, n - 1), b);
    }
  }

  lemma {:induction false} Pow2IsExp(n: nat)
    ensures Pow2(n) == Exp(2, n)
  {
    if n > 0 { Pow2IsExp(n - 1); }
  }

  lemma {:induction false} Exp2Strict(m: nat, n: nat)
    requires m < n
    ensures Exp(2, m) < Exp(2, n)
  {
    ExpPositive(2, m);
    if m < n - 1 { Exp2Strict(m, n - 1); }
  }

  /** b^(2n) and b^(2n+1) from b^n. */
  lemma Doubling(b: nat, n: nat, v: nat)
    requires Exp(b, n) == v
    ensures Exp(b, 2 * n) == v * v && Exp(b, 2 * n + 1) == b * (v * v)
  {
    ExpAdd(b, n, n);
  }

  lemma FiveTo205(b: nat, n: nat)
    requires b == 5 && n == 205
    ensures Exp(b, n) == 194469227433160678348252001680628882518445380272536472909409894212178088563605732536998275722678550529905205923597577566397376358509063720703125
  {
    assert Exp(b, 1) == b * Exp(b, 0);
    Doubling(b, 1, 5);
    Doubling(b, 3, 125);
    Doubling(b, 6, 15625);
    Doubling(b, 12, 244140625);
    Doubling(b, 25, 298023223876953125);
    Doubling(b, 51, 444089209850062616169452667236328125);
    Doubling(b, 102, 197215226305252951352932141320696557418301608777255751192569732666015625);
  }

  lemma TwoTo476(b: nat, n: nat)
    requires b == 2 && n == 476
    ensures Exp(b, n) == 195109284394749514461349826862072894109287383916560696928697309976585733676235351257519131441468248197489183195087913930965498479955517831643136
  {
    assert Exp(b, 1) == b * Exp(b, 0);
    Doubling(b, 1, 2);
    Doubling(b, 3, 8);
    Doubling(b, 7, 128);
    Doubling(b, 14, 16384);
    Doubling(b, 29, 536870912);
    Doubling(b, 59, 576460752303423488);
    Doubling(b, 119, 664613997892457936451903530140172288);
    Doubling(b, 238, 441711766194596082395824375185729628956870974218904739530401550323154944);
  }

  lemma ExpBounds(five: nat, two: nat, m: nat, n: nat)
    requires five == 5 && two == 2 && m == 205 && n == 476
    ensures Exp(five, m) <= Exp(two, n)
  {
    FiveTo205(five, m);
    TwoTo476(two, n);
  }

  /** 476/205 is above log(5)/log(2) and below 2.322, so the reserved limbs always suffice for 5^k. */
  lemma FivesFit(k: nat)
    ensures Exp(5, k) < Pow(FiveLimbs(k))
  {
    var t := 32 * FiveLimbs(k);
    Pow2OfLimbs(FiveLimbs(k));
    Pow2IsExp(t);
    if Exp(5, k) >= Exp(2, t) {
      ExpBounds(5, 2, 205, 476);
      FivesBelow(5, 205, 476, k, t);
    }
  }

  lemma FivesBelow(five: nat, m: nat, n: nat, k: nat, t: nat)
    requires Exp(five, m) <= Exp(2, n) && n * k < t * m
    ensures Exp(five, k) < Exp(2, t)
  {
    if Exp(2, t) <= Exp(five, k) {
      // (2^t)^m <= (5^k)^m = (5^m)^k <= (2^n)^k < 2^(m t)
      PowersBelow(five, m, n, k, t);
      ExpExp(2, t, m);
      MulLe(0, n, k);
      Exp2Strict(n * k, t * m);
    }
  }

  lemma PowersBelow(five: nat, m: nat, n: nat, k: nat, t: nat)
    requires Exp(five, m) <= Exp(2, n) && Exp(2, t) <= Exp(five, k)
    ensures Exp(Exp(2, t), m) <= Exp(2, n * k)
  {
    ExpMonotone(Exp(2, t), Exp(five, k), m);
    ExpExp(five, k, m);
    ExpExp(five, m, k);
    assert k * m == m * k;
    ExpMonotone(Exp(five, m), Exp(2, n), k);
    ExpExp(2, n, k);
  }

  /** Multiplies len limbs in place by one limb. */
  method MultiplyByLimb(mem: array<Limb>, len: nat, digit1: Limb) returns (carry: Limb)
    requires len <= mem.Length
    modifies mem
    ensures forall k :: len <= k < mem.Length ==> mem[k] == old(mem[k])
    ensures Val(mem[..len]) + Pow(len) * carry == digit1 * Val(old(mem[..len]))
  {
    var acc: TwoLimb := 0;
    var j := 0;
    ghost var was := mem[..len];
    ghost var done: seq<Limb> := [];
    while j < len
      invariant 0 <= j <= len && acc <= digit1
      invariant forall k :: j <= k < mem.Length ==> mem[k] == old(mem[k])
      invariant mem[..j] == done
      invariant Val(done) + Pow(j) * acc == digit1 * Val(was[..j])
    {
      var digit2 := mem[j];
      ProductFits(digit1, digit2, acc, 0);
      ghost var c := acc;
      acc := acc + digit1 * digit2;
      ScaleStep(done, was, j, digit1, c, acc);
      mem[j] := acc % 0x1_0000_0000;
      done := done + [acc % 0x1_0000_0000];
      acc := acc / 0x1_0000_0000;
      j := j + 1;
    }
    assert was[..len] == was;
    carry := acc;
  }

  lemma ScaleStep(done: seq<Limb>, was: seq<Limb>, j: nat, x: Limb, c: int, t: TwoLimb)
    requires j < |was| && |done| == j && t == c + x * was[j]
    requires Val(done) + Pow(j) * c == x * Val(was[..j])
    ensures Val(done + [t % 0x1_0000_0000]) + Pow(j + 1) * (t / 0x1_0000_0000) == x * Val(was[..j + 1])
  {
    ValSnoc(done, t % 0x1_0000_0000);
    ValPrefix(was, j);
    RowIdentity(Val(done), 0, Val(was[..j]), Pow(j), c, x, was[j], 0, t / 0x1_0000_0000, t % 0x1_0000_0000);
  }

  /** The table entry for one block of the loop is a power of five. */
  lemma SmallPow5IsExp(k: nat)
    requires k <= 13
    ensures SMALL_POW5[k] == Exp(5, k)
  {
    if k > 0 { SmallPow5IsExp(k - 1); }
  }

  /** One block: multiplies by 5^k and lengthens the number when there is a carry. */
  method MultiplyBlock(pow5: array<Limb>, len: nat, ghost done: nat, k: nat) returns (len': nat)
    requires k <= 13 && 1 <= len <= FiveLimbs(done) && FiveLimbs(done + k) <= pow5.Length
    requires Normalised(pow5[..len]) && Val(pow5[..len]) == Exp(5, done)
    modifies pow5
    ensures 1 <= len' <= FiveLimbs(done + k)
    ensures Normalised(pow5[..len']) && Val(pow5[..len']) == Exp(5, done + k)
  {
    ghost var before := Val(pow5[..len]);
    NormalisedLower(pow5[..len]);
    SmallPow5IsExp(k);
    ExpAdd(5, k, done);
    ExpPositive(5, k);
    FivesFit(done + k);
    var carry := MultiplyByLimb(pow5, len, SMALL_POW5[k]);
    len' := len;
    MulLe(1, SMALL_POW5[k], before);
    ghost var low := pow5[..len];
    if carry > 0 {
      CarryFits(low, carry, len, FiveLimbs(done + k));
      pow5[len] := carry;
      len' := len + 1;
      ValSnoc(low, carry);
      assert pow5[..len'] == low + [carry];
    } else {
      TopNonzero(low);
    }
  }

  lemma CarryFits(low: seq<Limb>, carry: Limb, len: nat, cap: nat)
    requires carry > 0 && Val(low) + Pow(len) * carry < Pow(cap)
    ensures len < cap
  {
    MulLe(1, carry, Pow(len));
    if cap <= len { PowMonotone(cap, len); }
  }

  lemma TopNonzero(s: seq<Limb>)
    requires s != [] && Val(s) >= Pow(|s| - 1)
    ensures Normalised(s)
  {
    ValPrefix(s, |s| - 1);
    assert s[..|s|] == s;
    ValBound(s[..|s| - 1]);
  }

  /** 5^absN, in blocks of 5^13. */
  method PowerOfFive(pow5: array<Limb>, absN: nat) returns (len: nat)
    requires FiveLimbs(absN) <= pow5.Length
    modifies pow5
    ensures 1 <= len <= FiveLimbs(absN)
    ensures Normalised(pow5[..len]) && Val(pow5[..len]) == Exp(5, absN)
  {
    pow5[0] := 1;
    len := 1;
    assert pow5[..1] == [1];
    ValOne(1);
    if absN > 0 {
      var n13 := 0;
      while n13 <= absN
        invariant 1 <= len <= FiveLimbs(if n13 <= absN then n13 else absN)
        invariant Normalised(pow5[..len])
        invariant Val(pow5[..len]) == Exp(5, if n13 <= absN then n13 else absN)
        decreases absN + 13 - n13
      {
        len := MultiplyBlock(pow5, len, n13, if n13 + 13 <= absN then 13 else absN - n13);
        n13 := n13 + 13;
      }
    }
  }

  /** v * 2^(bits + 32 * limbs), split as the source splits |s|. */
  lemma ShiftSplit(v: nat, bits: nat, limbs: nat)
    ensures Pow2(bits + 32 * limbs) == Pow2(bits) * Pow(limbs)
    ensures (v * Pow2(bits)) * Pow(limbs) == v * Pow2(bits + 32 * limbs)
  {
    Pow2Add(bits, 32 * limbs);
    Pow2OfLimbs(limbs);
    MulAssoc(v, Pow2(bits), Pow(limbs));
  }

  /** Shifts the number at the start of mem left by bits, in place. */
  method ShiftBits(mem: array<Limb>, len: nat, bits: nat) returns (len': nat)
    requires len < mem.Length && bits < 32
    modifies mem
    ensures len <= len' <= len + 1
    ensures Val(mem[..len']) == Val(old(mem[..len])) * Pow2(bits)
  {
    len' := len;
    if bits > 0 {
      var accu := ShiftLeft(mem, 0, mem, 0, len, bits);
      assert mem[0..len] == mem[..len] && old(mem[0..len]) == old(mem[..len]);
      ghost var low := mem[..len];
      if accu > 0 {
        Pow2Below(bits);
        mem[len] := accu;
        len' := len + 1;
        ValSnoc(low, accu);
        assert mem[..len'] == low + [mem[len]];
      }
    }
  }

  /** Moves the number up by k limbs, in place, filling with zeros. */
  method ShiftLimbs(mem: array<Limb>, len: nat, k: nat)
    requires len + k <= mem.Length
    modifies mem
    ensures Val(mem[..len + k]) == Val(old(mem[..len])) * Pow(k)
  {
    ghost var was := mem[..len];
    if k > 0 {
      var count := len;
      while count > 0
        invariant 0 <= count <= len
        invariant forall i :: 0 <= i < count ==> mem[i] == was[i]
        invariant forall i :: count + k <= i < len + k ==> mem[i] == was[i - k]
      {
        count := count - 1;
        mem[k + count] := mem[count];
      }
      count := k;
      while count > 0
        invariant 0 <= count <= k
        invariant forall i :: count <= i < k ==> mem[i] == 0
        invariant forall i :: k <= i < len + k ==> mem[i] == was[i - k]
      {
        count := count - 1;
        mem[count] := 0;
      }
    }
    ZerosBelow(mem[..len + k], was, k);
  }

  lemma ZerosBelow(s: seq<Limb>, high: seq<Limb>, k: nat)
    requires |s| == |high| + k
    requires forall i :: 0 <= i < k ==> s[i] == 0
    requires forall i :: k <= i < |s| ==> s[i] == high[i - k]
    ensures Val(s) == Val(high) * Pow(k)
  {
    ZeroLow(s, k);
    assert s[k..] == high;
  }

  lemma ZeroLow(s: seq<Limb>, k: nat)
    requires k <= |s| && forall i :: 0 <= i < k ==> s[i] == 0
    ensures Val(s) == Val(s[k..]) * Pow(k)
  {
    ValSplit(s, k);
    ValZeros(s[..k]);
    MulCommutes(Pow(k), Val(s[k..]));
  }

  lemma MulCommutes(a: int, b: int)
    ensures a * b == b * a
  {
  }

  /** 2^(bits + 32 * limbs) at position off. */
  method PowerOfTwo(mem: array<Limb>, off: nat, limbs: nat, bits: nat)
    requires off + limbs + 1 <= mem.Length && bits < 32
    modifies mem
    ensures forall i :: 0 <= i < off ==> mem[i] == old(mem[i])
    ensures Val(mem[off..off + limbs + 1]) == Pow2(bits + 32 * limbs)
  {
    Pow2Below(bits);
    Pow2Positive(bits);
    forall i | 0 <= i < limbs { mem[off + i] := 0; }
    mem[off + limbs] := Pow2(bits);
    ZerosBelow(mem[off..off + limbs + 1], [mem[off + limbs]], limbs);
    ValOne(mem[off + limbs]);
    ShiftSplit(1, bits, limbs);
  }

  /** A copy of m, shifted left by bits + 32 * limbs. */
  method ShiftedCopy(m: Mpn, limbs: nat, bits: nat) returns (r: Mpn)
    requires m.Valid() && bits < 32
    ensures r.Valid() && fresh(r.mem)
    ensures r.Value() == m.Value() * Pow2(bits + 32 * limbs)
  {
    var num := new Limb[m.nlimbs + limbs + 1];
    forall i | 0 <= i < limbs { num[i] := 0; }
    var len := CopyShifted(m, num, limbs, bits);
    ShiftSplit(m.Value(), bits, limbs);
    ZerosBelow(num[0..len], num[limbs..len], limbs);
    r := Mpn(num, 0, len);
  }

  method CopyShifted(m: Mpn, num: array<Limb>, d: nat, bits: nat) returns (len: nat)
    requires m.Valid() && bits < 32 && num != m.mem && d + m.nlimbs < num.Length
    modifies num
    ensures d <= len <= num.Length
    ensures forall i :: 0 <= i < d ==> num[i] == old(num[i])
    ensures Val(num[d..len]) == m.Value() * Pow2(bits)
  {
    len := d + m.nlimbs;
    if bits == 0 {
      forall i | 0 <= i < m.nlimbs { num[d + i] := m.mem[m.off + i]; }
      assert num[d..len] == m.Limbs();
      return;
    }
    var accu := ShiftLeft(m.mem, m.off, num, d, m.nlimbs, bits);
    ghost var body := num[d..len];
    if accu > 0 {
      Pow2Below(bits);
      ValSnoc(body, accu);
      num[len] := accu;
      len := len + 1;
      assert num[d..len] == body + [accu];
    }
  }

  /** The decimal digits, low to high, of m * 2^e * 10^n rounded to nearest with ties to even. */
  method ScaleRoundDecimal(e: int, m: Mpn, n: int) returns (digits: string)
    requires m.Valid()
    ensures IsDecimal(digits)
    ensures Denominator(e, n) > 0
    ensures IsNearestEven(Numerator(m.Value(), e, n), Denominator(e, n), DecimalValue(digits))
  {
    var s, n', extraZeroes := e + n, n, 0;
    if s > 0 && n' > 0 {
      extraZeroes := if s < n' then s else n';
      s := s - extraZeroes;
      n' := n' - extraZeroes;
    }
    ScalingIsExact(m.Value(), e, n, s, n', extraZeroes);
    RoundHalfEvenIsNearest(Numerator(m.Value(), e, n), Denominator(e, n),
                           RoundHalfEven(Numerator(m.Value(), e, n), Denominator(e, n)));
    var z := RoundScaledMantissa(m, s, n', m.Value());
    digits := ConvertToDecimal(z, extraZeroes);
  }

  /** z = round(m * 2^s * 5^n): the four sign cases. */
  method RoundScaledMantissa(m: Mpn, s: int, n: int, ghost mv: nat) returns (z: Mpn)
    requires m.Valid() && mv == m.Value()
    ensures z.Valid() && fresh(z.mem)
    ensures z.Value() == ScaledRound(mv, s, n)
  {
    var absN, absS := if n >= 0 then n else -n, if s >= 0 then s else -s;
    var pow5 := new Limb[FiveLimbs(absN) + absS / 32 + 1];
    var len := PowerOfFive(pow5, absN);
    var limbs, bits := absS / 32, absS % 32;
    ghost var five := Exp(5, absN);
    if if n >= 0 then s >= 0 else s <= 0 {
      SameSign(mv, s, n, absS, absN);
      var p := ShiftPower(pow5, len, limbs, bits, five);
      if n >= 0 {
        z := Multiply(m, p);
      } else {
        z := Divide(m, p);
      }
    } else {
      OppositeSign(mv, s, n, absS, absN);
      z := ScaleOpposite(m, pow5, len, limbs, bits, n >= 0, five, mv);
    }
  }

  /** 5^|n| shifted by |s| bits in its own memory. */
  method ShiftPower(pow5: array<Limb>, len: nat, limbs: nat, bits: nat, ghost five: nat) returns (p: Mpn)
    requires len + limbs + 1 <= pow5.Length && bits < 32 && five == Val(pow5[..len])
    modifies pow5
    ensures p.Valid() && p.mem == pow5
    ensures p.Value() == five * Pow2(bits + 32 * limbs)
  {
    var len' := ShiftBits(pow5, len, bits);
    ShiftLimbs(pow5, len', limbs);
    ShiftSplit(five, bits, limbs);
    p := Mpn(pow5, 0, len' + limbs);
    assert pow5[0..len' + limbs] == pow5[..len' + limbs];
  }

  /** n and s of different sign: one of 5^|n| and 2^|s| multiplies, the other divides. */
  method ScaleOpposite(m: Mpn, pow5: array<Limb>, len: nat, limbs: nat, bits: nat, fivesUp: bool,
                       ghost five: nat, ghost mv: nat) returns (z: Mpn)
    requires m.Valid() && m.mem != pow5 && mv == m.Value()
    requires len + limbs + 1 <= pow5.Length && bits < 32 && five == Val(pow5[..len]) > 0
    modifies pow5
    ensures z.Valid() && fresh(z.mem)
    ensures Pow2(bits + 32 * limbs) > 0
    ensures fivesUp ==> z.Value() == RoundHalfEven(mv * five, Pow2(bits + 32 * limbs))
    ensures !fivesUp ==> z.Value() == RoundHalfEven(mv * Pow2(bits + 32 * limbs), five)
  {
    Pow2Positive(bits + 32 * limbs);
    var p := Mpn(pow5, 0, len);
    assert pow5[0..len] == pow5[..len];
    if fivesUp {
      var numerator := Multiply(m, p);
      PowerOfTwo(pow5, len, limbs, bits);
      var denominator := Mpn(pow5, len, limbs + 1);
      z := Divide(numerator, denominator);
    } else {
      var numerator := ShiftedCopy(m, limbs, bits);
      z := Divide(numerator, p);
    }
  }

  lemma SameSign(m: nat, s: int, n: int, absS: nat, absN: nat)
    requires absN == (if n >= 0 then n else -n) && absS == (if s >= 0 then s else -s)
    requires if n >= 0 then s >= 0 else s <= 0
    ensures Exp(5, absN) * Pow2(absS) > 0
    ensures n >= 0 ==> ScaledRound(m, s, n) == m * (Exp(5, absN) * Pow2(absS))
    ensures n < 0 ==> ScaledRound(m, s, n) == RoundHalfEven(m, Exp(5, absN) * Pow2(absS))
  {
    Pow2Positive(absS);
    ExpPositive(5, absN);
    MulLe(1, Exp(5, absN), Pow2(absS));
    assert Exp(5, absN) * Pow2(absS) == Pow2(absS) * Exp(5, absN);
    if n >= 0 {
      WholeScale(m, s, n);
    } else {
      assert m * (Pow2(0) * Exp(5, 0)) == m;
    }
  }

  lemma OppositeSign(m: nat, s: int, n: int, absS: nat, absN: nat)
    requires absN == (if n >= 0 then n else -n) && absS == (if s >= 0 then s else -s)
    requires !(if n >= 0 then s >= 0 else s <= 0)
    ensures Exp(5, absN) > 0 && Pow2(absS) > 0
    ensures n >= 0 ==> ScaledRound(m, s, n) == RoundHalfEven(m * Exp(5, absN), Pow2(absS))
    ensures n < 0 ==> ScaledRound(m, s, n) == RoundHalfEven(m * Pow2(absS), Exp(5, absN))
  {
    Pow2Positive(absS);
    ExpPositive(5, absN);
    if n >= 0 {
      assert m * (Pow2(0) * Exp(5, absN)) == m * Exp(5, absN) && Pow2(absS) * Exp(5, 0) == Pow2(absS);
    } else {
      assert m * (Pow2(absS) * Exp(5, 0)) == m * Pow2(absS) && Pow2(0) * Exp(5, absN) == Exp(5, absN);
    }
  }
}
