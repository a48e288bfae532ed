/** Bignum arithmetic of vasnprintf.c: schoolbook multiplication and rounding division. */
module Bignum {
  import opened Arith
  import opened Limbs
  import opened LimbLoops
  import opened DivisionLoops

  /** A bignum >= 0 (mpn_t): nlimbs limbs, little-endian, at a position inside allocated memory. */
  datatype Mpn = Mpn(mem: array<Limb>, off: nat, nlimbs: nat) {
    ghost predicate Valid() {
      off + nlimbs <= mem.Length
    }

    function Limbs(): seq<Limb>
      requires Valid()
      reads mem
    {
      mem[off..off + nlimbs]
    }

    function Value(): nat
      requires Valid()
      reads mem
    {
      Val(Limbs())
    }
  }

  /** q is a/b rounded to the nearest integer, ties to even: no integer z is nearer to a/b, and one
    * that is equally near is odd.
    */
  ghost predicate IsNearestEven(a: nat, b: nat, q: int) {
    forall z: int :: z != q ==>
      || Distance(q, a, b) < Distance(z, a, b)
      || (Distance(q, a, b) == Distance(z, a, b) && q % 2 == 0)
  }

  /** |z * b - a|: how far z is from a/b, in units of 1/b. */
  function Distance(z: int, a: int, b: int): nat {
    var d := z * b - a;
    if d < 0 then -d else d
  }

  /** Round-half-even of a/b by quotient and remainder. */
  function RoundHalfEven(a: nat, b: nat): nat
    requires b > 0
  {
    var q, r := a / b, a % b;
    if 2 * r > b || (2 * r == b && q % 2 == 1) then q + 1 else q
  }

  /** The rule of the source is the nearest integer with ties to even, and only that integer is. */
  lemma RoundHalfEvenIsNearest(a: nat, b: nat, q: int)
    requires b > 0
    ensures q == RoundHalfEven(a, b) <==> IsNearestEven(a, b, q)
  {
    var e := RoundHalfEven(a, b);
    forall z: int | z != e
      ensures
        || Distance(e, a, b) < Distance(z, a, b)
        || (Distance(e, a, b) == Distance(z, a, b) && e % 2 == 0 && z % 2 == 1)
    {
      NearestStep(a, b, z);
    }
    if q != e {
      NearestStep(a, b, q);
      assert Distance(e, a, b) >= 0;
    }
  }

  lemma NearestStep(a: nat, b: nat, z: int)
    requires b > 0 && z != RoundHalfEven(a, b)
    ensures var e := RoundHalfEven(a, b);
      || Distance(e, a, b) < Distance(z, a, b)
      || (Distance(e, a, b) == Distance(z, a, b) && e % 2 == 0 && z % 2 == 1)
  {
    var q, r := a / b, a % b;
    DivFacts(a, b);
    assert a == q * b + r;
    assert (q + 1) * b == q * b + b;
    if z < q {
      MulGap(z, q, b);
      if z < q - 1 { MulGap(z, q - 1, b); assert (q - 1) * b == q * b - b; }
    } else if z > q + 1 {
      MulGap(q + 1, z, b);
    }
  }

  /** The low bit of a limb sequence is the parity of its value. */
  lemma Parity(s: seq<Limb>)
    requires s != []
    ensures Val(s) % 2 == s[0] % 2
  {
    EvenTail(s[0], Val(s[1..]));
  }

  lemma EvenTail(x: int, v: int)
    ensures (x + 0x1_0000_0000 * v) % 2 == x % 2
  {
    var k := 0x8000_0000 * v;
    assert x + 0x1_0000_0000 * v == x + 2 * k;
  }

  /** Multiplying both numbers by c multiplies the remainder by c and keeps the quotient. */
  lemma ScaledDivision(a: nat, b: nat, c: nat)
    requires 0 < b && 0 < c
    ensures 0 < b * c
    ensures (a * c) / (b * c) == a / b
    ensures (a * c) % (b * c) == a % b * c
  {
    var q, r := a / b, a % b;
    assert a == q * b + r;
    MulLe(1, b, c);
    MulLt(r, b, c);
    MulLe(0, r, c);
    assert (q * b) * c == q * (b * c);
    assert a * c == (q * b) * c + r * c by { MulDist(c, q * b, r); }
    DivModUnique(a * c, b * c, q, r * c);
  }

  /** Rounding is decided by comparing 2r with b; a common factor does not matter. */
  lemma ScaledComparison(r: nat, b: nat, c: nat)
    requires 0 < c
    ensures 2 * (r * c) > b * c <==> 2 * r > b
    ensures 2 * (r * c) < b * c <==> 2 * r < b
  {
    assert 2 * (r * c) == (2 * r) * c;
    if 2 * r > b { MulLt(b, 2 * r, c); }
    if 2 * r < b { MulLt(2 * r, b, c); }
  }

  /** A quotient of m by n limbs has m-n+1 limbs of which at most the highest is zero. */
  lemma QuotientTop(q: seq<Limb>, a: nat, b: nat, m: nat, n: nat)
    requires 1 <= n <= m && |q| == m - n + 1
    requires Pow(m - 1) <= a && 0 < b < Pow(n) && Val(q) == a / b
    ensures q[m - n] == 0 ==> Normalised(q[..m - n]) && Val(q[..m - n]) == Val(q)
  {
    if q[m - n] == 0 {
      ValPrefix(q, m - n);
      assert q[..m - n + 1] == q;
      if m > n && q[m - n - 1] == 0 {
        ValPrefix(q, m - n - 1);
        ValBound(q[..m - n - 1]);
        PowAdd(m - n - 1, n);
        PowPositive(m - n - 1);
        QuotientLower(a, b, Pow(m - n - 1), Pow(n));
      }
    }
  }

  lemma QuotientLower(a: int, b: int, p: int, pn: int)
    requires 0 < b < pn && 1 <= p && p * pn <= a
    ensures p <= a / b
  {
    DivFacts(a, b);
    MulLt(b, pn, p);
    assert p * b == b * p && p * pn == pn * p;
    assert (a / b + 1) * b == a / b * b + b;
    MulCancelLt(p, a / b + 1, b);
  }

  /** n = 1: single precision division of len limbs at src[so] into dst[d]. */
  method DivideByLimb(src: array<Limb>, so: nat, dst: array<Limb>, d: nat, len: nat, den: Limb)
    returns (remainder: Limb)
    requires so + len <= src.Length && d + len <= dst.Length
    requires src != dst || so == d
    requires den > 0
    modifies dst
    ensures forall k :: 0 <= k < dst.Length && !(d <= k < d + len) ==> dst[k] == old(dst[k])
    ensures Val(dst[d..d + len]) == Val(old(src[so..so + len])) / den
    ensures remainder == Val(old(src[so..so + len])) % den
  {
    remainder := 0;
    var count := len;
    ghost var was := src[so..so + len];
    ghost var done: seq<Limb> := [];
    assert was[len..] == [];
    while count > 0
      invariant 0 <= count <= len && remainder < den
      invariant forall k :: 0 <= k < dst.Length && !(d + count <= k < d + len) ==> dst[k] == old(dst[k])
      invariant forall k :: 0 <= k < count ==> src[so + k] == was[k]
      invariant dst[d + count..d + len] == done
      invariant Val(was[count..]) == Val(done) * den + remainder
    {
      count := count - 1;
      var x := src[so + count];
      var num: TwoLimb := remainder as int * 0x1_0000_0000 + x;
      LimbStep(was[count..], x, was[count + 1..], done, den, remainder, num);
      dst[d + count] := num / den;
      done := [num / den] + done;
      remainder := num % den;
    }
    assert was[0..] == was;
    DivModUnique(Val(was), den, Val(done), remainder);
  }

  lemma LimbStep(s: seq<Limb>, x: Limb, t: seq<Limb>, done: seq<Limb>, den: Limb, remainder: Limb, num: int)
    requires s == [x] + t && 0 < den && remainder < den
    requires Val(t) == Val(done) * den + remainder
    requires num == remainder as int * 0x1_0000_0000 + x
    ensures 0 <= num / den < 0x1_0000_0000
    ensures Val(s) == Val([num / den] + done) * den + num % den
  {
    ValCons(s, x, t);
    MulGap(remainder, den, 0x1_0000_0000);
    QuotientFits(num, den, 0x1_0000_0000);
    ValCons([num / den] + done, num / den, done);
    DivFacts(num, den);
    LimbIdentity(x, Val(t), Val(done), den, remainder, num / den, num % den);
  }

  lemma LimbIdentity(x: int, vt: int, vd: int, den: int, rem: int, h: int, l: int)
    requires vt == vd * den + rem && rem * 0x1_0000_0000 + x == h * den + l
    ensures x + 0x1_0000_0000 * vt == (h + 0x1_0000_0000 * vd) * den + l
  {
    MulDist(den, h, 0x1_0000_0000 * vd);
    assert den * (0x1_0000_0000 * vd) == 0x1_0000_0000 * (vd * den);
  }

  function Quo(a: nat, b: nat): nat
    requires 0 < b
  {
    a / b
  }

  function Rem(a: nat, b: nat): nat
    requires 0 < b
  {
    a % b
  }

  /** The state before rounding: the quotient quo in room[qo..], with room for one more limb, and the
    * remainder in room[..rLen] and the divisor in bp, both perhaps shifted: rounding only asks how
    * twice the remainder compares with the divisor.
    */
  ghost predicate Divided(quo: nat, rem: nat, b: nat, room: array<Limb>, rLen: nat, qo: nat, qLen: nat,
                          bp: array<Limb>, bo: nat, bLen: nat)
    reads room, bp
  {
    && room != bp
    && rLen <= room.Length && qo + qLen < room.Length && bo + bLen <= bp.Length
    && Normalised(room[..rLen])
    && Normalised(room[qo..qo + qLen]) && Val(room[qo..qo + qLen]) == quo
    && (2 * Val(room[..rLen]) > Val(bp[bo..bo + bLen]) <==> 2 * rem > b)
    && (2 * Val(room[..rLen]) < Val(bp[bo..bo + bLen]) <==> 2 * rem < b)
  }

  /** The divisor shifted left by s bits; a copy unless s is zero. The shift loses no bit, so the
    * abort() of the source is not reached.
    */
  method ShiftDivisor(den: array<Limb>, bo: nat, n: nat, s: nat) returns (bp: array<Limb>, bo': nat)
    requires 1 <= n && bo + n <= den.Length && s < 32
    requires Pow2(31 - s) <= den[bo + n - 1] < Pow2(32 - s)
    ensures bp == den || fresh(bp)
    ensures bo' + n <= bp.Length && Val(bp[bo'..bo' + n]) == Val(den[bo..bo + n]) * Pow2(s)
    ensures bp[bo' + n - 1] >= 0x8000_0000
  {
    ghost var ds := den[bo..bo + n];
    if s == 0 {
      Pow2At32();
      return den, bo;
    }
    bp, bo' := new Limb[n], 0;
    var accu := ShiftLeft(den, bo, bp, 0, n, s);
    ShiftKeepsLength(ds, bp[0..n], n, s, accu);
    assert accu == 0;
  }

  /** Shifting the top bit to position 31 keeps the number of limbs. */
  lemma ShiftKeepsLength(ds: seq<Limb>, r: seq<Limb>, n: nat, s: nat, accu: nat)
    requires 1 <= n && |ds| == n && |r| == n && s < 32
    requires Pow2(31 - s) <= ds[n - 1] < Pow2(32 - s)
    requires Val(r) + Pow(n) * accu == Val(ds) * Pow2(s)
    ensures accu == 0 && r[n - 1] >= 0x8000_0000
  {
    var e, lo, hi := Pow2(s), Pow2(31 - s), Pow2(32 - s);
    ValPrefix(ds, n - 1);
    ValPrefix(r, n - 1);
    assert ds[..n] == ds && r[..n] == r;
    ValBound(ds[..n - 1]);
    ValBound(r[..n - 1]);
    assert lo * e == 0x8000_0000 && hi * e == 0x1_0000_0000 && 0 < e by {
      Pow2At32();
      Pow2Add(31 - s, s);
      Pow2Add(32 - s, s);
      Pow2Positive(s);
    }
    assert Pow(n) == 0x1_0000_0000 * Pow(n - 1);
    assert Val(ds) == Val(ds[..n - 1]) + Pow(n - 1) * ds[n - 1] as int;
    assert Val(r) == Val(r[..n - 1]) + Pow(n - 1) * r[n - 1] as int;
    TopLimb(Val(ds[..n - 1]), ds[n - 1], Pow(n - 1), e, lo, hi, Val(r[..n - 1]), r[n - 1], accu);
  }

  lemma TopLimb(vl: int, x: int, p: int, e: int, lo: int, hi: int, rl: int, y: int, accu: int)
    requires 0 <= vl < p && 0 < e && lo <= x < hi && lo * e == 0x8000_0000 && hi * e == 0x1_0000_0000
    requires 0 <= rl < p && 0 <= y && 0 <= accu
    requires rl + p * y + (0x1_0000_0000 * p) * accu == (vl + p * x) * e
    ensures accu == 0 && y >= 0x8000_0000
  {
    var t := (vl + p * x) * e;
    // 2^31 p <= t < 2^32 p
    assert t < 0x1_0000_0000 * p by {
      MulGap(x, hi, p);
      MulLt(vl + p * x, hi * p, e);
      assert (hi * p) * e == (hi * e) * p;
    }
    assert t >= 0x8000_0000 * p by {
      MulLe(lo, x, p);
      MulLe(lo * p, vl + p * x, e);
      assert (lo * p) * e == (lo * e) * p;
    }
    MulLe(0, y, p);
    if accu >= 1 { MulLe(1, accu, 0x1_0000_0000 * p); assert false; }
    assert 0x8000_0000 * p < (y + 1) * p by { assert (y + 1) * p == p * y + p; }
    MulCancelLt(0x8000_0000, y + 1, p);
  }

  /** The dividend shifted left by s bits, with one more limb. */
  method ShiftDividend(src: array<Limb>, so: nat, room: array<Limb>, m: nat, s: nat)
    requires so + m <= src.Length && m < room.Length && s < 32 && src != room
    modifies room
    ensures Val(room[..m + 1]) == Val(old(src[so..so + m])) * Pow2(s)
  {
    if s == 0 {
      forall i | 0 <= i < m { room[i] := src[so + i]; }
      room[m] := 0;
      assert room[..m] == old(src[so..so + m]);
    } else {
      var accu := ShiftLeft(src, so, room, 0, m, s);
      Pow2Below(s);
      room[m] := accu;
      assert room[0..m] == room[..m];
    }
    ValSnoc(room[..m], room[m]);
    assert room[..m + 1] == room[..m] + [room[m]];
  }

  /** m >= n > 1: both numbers are shifted so that the top bit of the divisor is set, then divided. */
  method DivideLong(src: array<Limb>, so: nat, m: nat, den: array<Limb>, bo: nat, n: nat, room: array<Limb>,
                    ghost a: nat, ghost b: nat)
    returns (rLen: nat, qLen: nat, bp: array<Limb>, bo': nat)
    requires 2 <= n <= m && so + m <= src.Length && bo + n <= den.Length && m + 2 <= room.Length
    requires room != src && room != den
    requires src[so + m - 1] != 0 && den[bo + n - 1] != 0
    requires a == Val(src[so..so + m]) && b == Val(den[bo..bo + n]) && 0 < b
    modifies room
    ensures bp == den || fresh(bp)
    ensures Divided(Quo(a, b), Rem(a, b), b, room, rLen, n, qLen, bp, bo', n)
  {
    ghost var c;
    bp, bo', c := ShiftOperands(src, so, m, den, bo, n, room, a, b);
    DivideLoop(room, m, bp, bo', n);
    ScaledDivision(a, b, c);
    ScaledComparison(a % b, b, c);
    rLen, qLen := TrimResults(room, m, n, a, b);
  }

  /** Both numbers shifted by the same amount c = 2^s. */
  method ShiftOperands(src: array<Limb>, so: nat, m: nat, den: array<Limb>, bo: nat, n: nat, room: array<Limb>,
                       ghost a: nat, ghost b: nat)
    returns (bp: array<Limb>, bo': nat, ghost c: nat)
    requires 2 <= n <= m && so + m <= src.Length && bo + n <= den.Length && m + 2 <= room.Length
    requires room != src && room != den
    requires src[so + m - 1] != 0 && den[bo + n - 1] != 0
    requires a == Val(src[so..so + m]) && b == Val(den[bo..bo + n]) && 0 < b
    modifies room
    ensures bp == den || fresh(bp)
    ensures 0 < c && bo' + n <= bp.Length && bp[bo' + n - 1] >= 0x8000_0000
    ensures Val(bp[bo'..bo' + n]) == b * c && Val(room[..m + 1]) == a * c
    ensures a * c < (b * c) * Pow(m - n + 1)
    ensures Pow(m - 1) <= a && b < Pow(n)
  {
    ghost var as_, bs := src[so..so + m], den[bo..bo + n];
    var s := LeadingZeros(den[bo + n - 1]);
    c := Pow2(s);
    Pow2Positive(s);
    LongBounds(as_, bs, m, n, c);
    bp, bo' := ShiftDivisor(den, bo, n, s);
    ShiftDividend(src, so, room, m, s);
  }

  /** Normalises quotient and remainder after the division loop. */
  method TrimResults(room: array<Limb>, m: nat, n: nat, ghost a: nat, ghost b: nat) returns (rLen: nat, qLen: nat)
    requires 1 <= n <= m < room.Length
    requires Pow(m - 1) <= a && 0 < b < Pow(n) && Val(room[n..m + 1]) == a / b
    ensures rLen <= n && qLen <= m - n + 1
    ensures Normalised(room[..rLen]) && Val(room[..rLen]) == Val(room[..n])
    ensures Normalised(room[n..n + qLen]) && Val(room[n..n + qLen]) == a / b
  {
    QuotientTop(room[n..m + 1], a, b, m, n);
    qLen := m - n + 1;
    if room[n + qLen - 1] == 0 {
      assert room[n..m + 1][..m - n] == room[n..m];
      qLen := qLen - 1;
    }
    rLen := Normalise(room, 0, n);
    assert room[0..n] == room[..n] && room[0..rLen] == room[..rLen];
  }

  lemma LongBounds(as_: seq<Limb>, bs: seq<Limb>, m: nat, n: nat, c: nat)
    requires 1 <= n <= m && |as_| == m && |bs| == n && as_[m - 1] != 0 && bs[n - 1] != 0 && 0 < c
    ensures Val(as_) * c < (Val(bs) * c) * Pow(m - n + 1)
    ensures Pow(m - 1) <= Val(as_) && 0 < Val(bs) < Pow(n)
  {
    NormalisedLower(as_);
    NormalisedLower(bs);
    ValBound(as_);
    ValBound(bs);
    PowPositive(n - 1);
    PowPositive(m - n + 1);
    PowAdd(n - 1, m - n + 1);
    LongNumbers(Val(as_), Val(bs), Pow(n - 1), Pow(m - n + 1), c);
  }

  lemma LongNumbers(a: int, b: int, p: int, q: int, c: int)
    requires a < p * q && p <= b && 0 < q && 0 < c
    ensures a * c < (b * c) * q
  {
    MulLe(p, b, q);
    MulLt(a, b * q, c);
    assert (b * q) * c == (b * c) * q;
  }

  /** `divide` up to the final rounding: normalisation and the three cases m<n, n=1, m>=n>1. */
  method DivideExact(a: Mpn, b: Mpn, ghost av: nat, ghost bv: nat)
    returns (room: array<Limb>, rLen: nat, qo: nat, qLen: nat, bp: array<Limb>, bo: nat, bLen: nat)
    requires a.Valid() && b.Valid() && av == a.Value() && bv == b.Value() && bv > 0
    ensures fresh(room) && (bp == b.mem || fresh(bp))
    ensures Divided(Quo(av, bv), Rem(av, bv), bv, room, rLen, qo, qLen, bp, bo, bLen)
  {
    room := new Limb[a.nlimbs + 2];
    var aLen := Normalise(a.mem, a.off, a.nlimbs);
    bLen := Normalise(b.mem, b.off, b.nlimbs);
    rLen, qo, qLen, bp, bo := DivideNormalised(a.mem, a.off, aLen, b.mem, b.off, bLen, room, av, bv);
  }

  method DivideNormalised(src: array<Limb>, so: nat, m: nat, den: array<Limb>, bo: nat, n: nat, room: array<Limb>,
                          ghost a: nat, ghost b: nat)
    returns (rLen: nat, qo: nat, qLen: nat, bp: array<Limb>, bo': nat)
    requires so + m <= src.Length && bo + n <= den.Length && m + 2 <= room.Length
    requires room != src && room != den
    requires Normalised(src[so..so + m]) && Normalised(den[bo..bo + n])
    requires a == Val(src[so..so + m]) && b == Val(den[bo..bo + n]) && 0 < b
    modifies room
    ensures bp == den || fresh(bp)
    ensures Divided(Quo(a, b), Rem(a, b), b, room, rLen, qo, qLen, bp, bo', n)
  {
    bp, bo' := den, bo;
    assert n >= 1 && den[bo + n - 1] != 0;
    if m < n {
      rLen, qo, qLen := DivideTrivial(src, so, m, den, bo, n, room, a, b);
      return;
    }
    assert src[so + m - 1] != 0;
    if n == 1 {
      qo := 1;
      rLen, qLen := DivideSingle(src, so, m, den, bo, room, a, b);
    } else {
      qo := n;
      rLen, qLen, bp, bo' := DivideLong(src, so, m, den, bo, n, room, a, b);
    }
  }

  lemma SmallDividend(a: nat, b: nat)
    requires a < b
    ensures a / b == 0 && a % b == a
  {
    DivModUnique(a, b, 0, a);
  }

  /** m < n: quotient zero, the remainder is a copy of a. */
  method DivideTrivial(src: array<Limb>, so: nat, m: nat, den: array<Limb>, bo: nat, n: nat, room: array<Limb>,
                       ghost a: nat, ghost b: nat)
    returns (rLen: nat, qo: nat, qLen: nat)
    requires m < n && so + m <= src.Length && bo + n <= den.Length && m + 2 <= room.Length
    requires room != src && room != den
    requires Normalised(src[so..so + m]) && Normalised(den[bo..bo + n])
    requires a == Val(src[so..so + m]) && b == Val(den[bo..bo + n])
    modifies room
    ensures a < b
    ensures Divided(Quo(a, b), Rem(a, b), b, room, rLen, qo, qLen, den, bo, n)
  {
    ghost var as_, bs := src[so..so + m], den[bo..bo + n];
    LongerIsBigger(bs, as_);
    SmallDividend(a, b);
    forall i | 0 <= i < m { room[i] := src[so + i]; }
    rLen, qo, qLen := m, m, 0;
    assert room[..m] == as_ && room[m..m + 0] == [];
    assert den[bo..bo + n] == bs;
  }

  /** n = 1. */
  method DivideSingle(src: array<Limb>, so: nat, m: nat, den: array<Limb>, bo: nat, room: array<Limb>,
                      ghost a: nat, ghost b: nat)
    returns (rLen: nat, qLen: nat)
    requires 1 <= m && so + m <= src.Length && bo + 1 <= den.Length && m + 2 <= room.Length
    requires room != src && room != den
    requires src[so + m - 1] != 0 && den[bo] != 0
    requires a == Val(src[so..so + m]) && b == Val(den[bo..bo + 1]) && 0 < b
    modifies room
    ensures Divided(Quo(a, b), Rem(a, b), b, room, rLen, 1, qLen, den, bo, 1)
  {
    ghost var as_, bs := src[so..so + m], den[bo..bo + 1];
    assert bs == [den[bo]];
    ValOne(den[bo]);
    var remainder := DivideByLimb(src, so, room, 1, m, den[bo]);
    ghost var qs := room[1..1 + m];
    SingleTop(qs, as_, bs);
    qLen := m;
    if room[1 + qLen - 1] == 0 {
      assert qs[..m - 1] == room[1..m];
      qLen := qLen - 1;
    }
    ghost var trimmed := room[1..1 + qLen];
    rLen := 0;
    if remainder > 0 {
      room[0] := remainder;
      rLen := 1;
      ValOne(remainder);
    }
    assert room[..rLen] == if remainder > 0 then [remainder] else [];
    assert room[1..1 + qLen] == trimmed && den[bo..bo + 1] == bs;
  }

  lemma SingleTop(q: seq<Limb>, as_: seq<Limb>, bs: seq<Limb>)
    requires |bs| == 1 && bs[0] != 0 && |q| == |as_| >= 1 && Normalised(as_)
    requires Val(bs) > 0 && Val(q) == Val(as_) / Val(bs)
    ensures q[|q| - 1] == 0 ==> Normalised(q[..|q| - 1]) && Val(q[..|q| - 1]) == Val(q)
  {
    NormalisedLower(as_);
    ValBound(bs);
    QuotientTop(q, Val(as_), Val(bs), |as_|, 1);
  }

  /** The quotient of two bignums, rounded to nearest with ties to even. */
  method Divide(a: Mpn, b: Mpn) returns (q: Mpn)
    requires a.Valid() && b.Valid() && b.Value() > 0
    ensures q.Valid() && fresh(q.mem)
    ensures Normalised(q.Limbs())
    ensures q.Value() == RoundHalfEven(a.Value(), b.Value())
    ensures IsNearestEven(a.Value(), b.Value(), q.Value())
  {
    ghost var av, bv := a.Value(), b.Value();
    var room, rLen, qo, qLen, bp, bo, bLen := DivideExact(a, b, av, bv);
    q := RoundQuotient(room, rLen, qo, qLen, bp, bo, bLen, Quo(av, bv), Rem(av, bv), bv);
    RoundHalfEvenIsNearest(av, bv, q.Value());
  }

  /** Round-to-even: the quotient is incremented when the remainder is more than half of the divisor, or
    * exactly half and the quotient odd.
    */
  method RoundQuotient(room: array<Limb>, rLen: nat, qo: nat, qLen: nat, bp: array<Limb>, bo: nat, bLen: nat,
                       ghost quo: nat, ghost rem: nat, ghost b: nat) returns (q: Mpn)
    requires Divided(quo, rem, b, room, rLen, qo, qLen, bp, bo, bLen)
    modifies room
    ensures q.Valid() && q.mem == room && Normalised(q.Limbs())
    ensures q.Value() == if 2 * rem > b || (2 * rem == b && quo % 2 == 1) then quo + 1 else quo
  {
    assert room[0..rLen] == room[..rLen];
    var verdict := CompareTwice(room, 0, rLen, bp, bo, bLen);
    if qLen > 0 {
      Parity(room[qo..qo + qLen]);
    }
    var qLen' := qLen;
    if verdict == Above || (verdict == Half && qLen > 0 && room[qo] % 2 != 0) {
      qLen' := Increment(room, qo, qLen);
    }
    q := Mpn(room, qo, qLen');
  }

  /** Adds digit1 * [p2] into dp at position i, one row of the schoolbook product. */
  method MultiplyRow(dp: array<Limb>, i: nat, digit1: Limb, p2: array<Limb>, po: nat, len2: nat)
    requires dp != p2 && i + len2 < dp.Length && po + len2 <= p2.Length
    modifies dp
    ensures forall k :: 0 <= k < dp.Length && !(i <= k <= i + len2) ==> dp[k] == old(dp[k])
    ensures Val(dp[i..i + len2 + 1]) == Val(old(dp[i..i + len2])) + digit1 * Val(p2[po..po + len2])
  {
    var carry: TwoLimb := 0;
    var j := 0;
    ghost var was, ps := dp[i..i + len2], p2[po..po + len2];
    ghost var done: seq<Limb> := [];
    while j < len2
      invariant 0 <= j <= len2 && carry <= digit1
      invariant forall k :: 0 <= k < dp.Length && !(i <= k < i + j) ==> dp[k] == old(dp[k])
      invariant dp[i..i + j] == done
      invariant Val(done) + Pow(j) * carry == Val(was[..j]) + digit1 * Val(ps[..j])
    {
      var digit2 := p2[po + j];
      assert digit2 == ps[j] && dp[i + j] == was[j];
      ProductFits(digit1, digit2, carry, dp[i + j]);
      ghost var c := carry;
      carry := carry + digit1 * digit2 + dp[i + j];
      RowStep(done, was, ps, j, digit1, c, carry);
      dp[i + j] := carry % 0x1_0000_0000;
      done := done + [carry % 0x1_0000_0000];
      carry := carry / 0x1_0000_0000;
      j := j + 1;
    }
    dp[i + len2] := carry;
    assert was[..len2] == was && ps[..len2] == ps;
    ValSnoc(done, carry);
    assert dp[i..i + len2 + 1] == done + [dp[i + len2]];
  }

  lemma RowStep(done: seq<Limb>, was: seq<Limb>, ps: seq<Limb>, j: nat, x: Limb, c: int, t: TwoLimb)
    requires j < |was| == |ps| && |done| == j
    requires t == c + x * ps[j] + was[j]
    requires Val(done) + Pow(j) * c == Val(was[..j]) + x * Val(ps[..j])
    ensures Val(done + [t % 0x1_0000_0000]) + Pow(j + 1) * (t / 0x1_0000_0000)
         == Val(was[..j + 1]) + x * Val(ps[..j + 1])
  {
    ValSnoc(done, t % 0x1_0000_0000);
    ValPrefix(was, j);
    ValPrefix(ps, j);
    RowIdentity(Val(done), Val(was[..j]), Val(ps[..j]), Pow(j), c, x, ps[j], was[j], t / 0x1_0000_0000,
        t % 0x1_0000_0000);
  }

  lemma RowIdentity(vd: int, vw: int, vp: int, p: int, c: int, x: int, y: int, w: int, h: int, l: int)
    requires vd + p * c == vw + x * vp && c + x * y + w == h * 0x1_0000_0000 + l
    ensures (vd + p * l) + (0x1_0000_0000 * p) * h == (vw + p * w) + x * (vp + p * y)
  {
    MulDist(p, h * 0x1_0000_0000, l);
    MulDist(p, c, x * y + w);
    MulDist(p, x * y, w);
    MulDist(x, vp, p * y);
    assert x * (p * y) == p * (x * y);
  }

  /** The product of two bignums, normalised. */
  method Multiply(src1: Mpn, src2: Mpn) returns (dest: Mpn)
    requires src1.Valid() && src2.Valid()
    ensures dest.Valid() && fresh(dest.mem)
    ensures Normalised(dest.Limbs())
    ensures dest.Value() == src1.Value() * src2.Value()
  {
    if src1.nlimbs <= src2.nlimbs {
      dest := MultiplyOrdered(src1, src2);
    } else {
      dest := MultiplyOrdered(src2, src1);
    }
  }

  method MultiplyOrdered(p1: Mpn, p2: Mpn) returns (dest: Mpn)
    requires p1.Valid() && p2.Valid() && p1.nlimbs <= p2.nlimbs
    ensures dest.Valid() && fresh(dest.mem)
    ensures Normalised(dest.Limbs())
    ensures dest.Value() == p1.Value() * p2.Value()
  {
    var len1, len2 := p1.nlimbs, p2.nlimbs;
    if len1 == 0 {
      var none := new Limb[1];
      dest := Mpn(none, 0, 0);
      assert p1.Value() == 0 && dest.Value() == 0;
    } else {
      var dp := new Limb[len1 + len2];
      forall k | 0 <= k < len2 { dp[k] := 0; }
      MultiplyRows(p1, p2, dp);
      var dlen := Normalise(dp, 0, len1 + len2);
      dest := Mpn(dp, 0, dlen);
    }
  }

  method MultiplyRows(p1: Mpn, p2: Mpn, dp: array<Limb>)
    requires p1.Valid() && p2.Valid() && dp != p1.mem && dp != p2.mem
    requires dp.Length == p1.nlimbs + p2.nlimbs
    requires forall k :: 0 <= k < p2.nlimbs ==> dp[k] == 0
    modifies dp
    ensures Val(dp[0..p1.nlimbs + p2.nlimbs]) == p1.Value() * p2.Value()
  {
    var len1, len2 := p1.nlimbs, p2.nlimbs;
    ghost var xs, v := p1.Limbs(), p2.Value();
    ValZeros(dp[..len2]);
    var i := 0;
    while i < len1
      invariant 0 <= i <= len1
      invariant p1.Limbs() == xs && p2.Value() == v
      invariant Val(dp[..i + len2]) == Val(xs[..i]) * v
    {
      MultiplyStep(dp, i, p1.mem[p1.off + i], p2.mem, p2.off, len2, xs, v);
      i := i + 1;
    }
    assert xs[..len1] == xs && dp[..len1 + len2] == dp[0..len1 + len2];
  }

  method MultiplyStep(dp: array<Limb>, i: nat, digit1: Limb, p2: array<Limb>, po: nat, len2: nat,
                      ghost xs: seq<Limb>, ghost v: nat)
    requires dp != p2 && i + len2 < dp.Length && po + len2 <= p2.Length
    requires i < |xs| && xs[i] == digit1 && v == Val(p2[po..po + len2])
    requires Val(dp[..i + len2]) == Val(xs[..i]) * v
    modifies dp
    ensures Val(dp[..i + 1 + len2]) == Val(xs[..i + 1]) * v
  {
    ghost var low, mid := dp[..i], dp[i..i + len2];
    SplitLow(dp[..i + len2], low, mid);
    MultiplyRow(dp, i, digit1, p2, po, len2);
    SplitLow(dp[..i + 1 + len2], low, dp[i..i + len2 + 1]);
    ValPrefix(xs, i);
    ProductIdentity(Val(low), Val(mid), Pow(i), xs[i], v, Val(xs[..i]));
  }

  lemma ProductIdentity(low: int, mid: int, p: int, x: int, v: int, w: int)
    requires low + p * mid == w * v
    ensures low + p * (mid + x * v) == (w + p * x) * v
  {
    MulDist(p, mid, x * v);
    MulAssoc(p, x, v);
    MulDist(v, w, p * x);
  }
}
