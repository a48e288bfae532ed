/** The bit masks that say which parts of a locale name are present, and how many masks one dominates. */
module LocaleMasks {
  import opened Arith

  const XPG_NORM_CODESET := 1
  const XPG_CODESET := 2
  const XPG_TERRITORY := 4
  const XPG_MODIFIER := 8

  /** A set of the four parts. */
  type Mask = m: int | 0 <= m < 16 witness 0

  /** cnt & ~mask == 0 */
  predicate Dominated(cnt: nat, mask: nat) {
    cnt == 0 || (cnt % 2 <= mask % 2 && Dominated(cnt / 2, mask / 2))
  }

  function BitCount(mask: nat): nat {
    if mask == 0 then 0 else mask % 2 + BitCount(mask / 2)
  }

  /** How many of the numbers below k are dominated. */
  function DominatedBelow(mask: nat, k: nat): nat {
    if k == 0 then 0 else DominatedBelow(mask, k - 1) + if Dominated(k - 1, mask) then 1 else 0
  }

  /** Numbers come in pairs that differ in the last bit. */
  lemma {:induction false} PairsDominated(mask: nat, k: nat)
    ensures DominatedBelow(mask, 2 * k) == (1 + mask % 2) * DominatedBelow(mask / 2, k)
  {
    if k > 0 {
      PairsDominated(mask, k - 1);
      PairDominated(mask, k - 1);
      assert DominatedBelow(mask, 2 * k) ==
        DominatedBelow(mask, 2 * (k - 1)) + (if Dominated(2 * (k - 1), mask) then 1 else 0)
        + if Dominated(2 * (k - 1) + 1, mask) then 1 else 0;
      MulDist(1 + mask % 2, DominatedBelow(mask / 2, k - 1), if Dominated(k - 1, mask / 2) then 1 else 0);
    }
  }

  lemma PairDominated(mask: nat, i: nat)
    ensures Dominated(2 * i, mask) <==> Dominated(i, mask / 2)
    ensures Dominated(2 * i + 1, mask) <==> mask % 2 == 1 && Dominated(i, mask / 2)
  {
    assert (2 * i) % 2 == 0 && 2 * i / 2 == i;
    assert (2 * i + 1) % 2 == 1 && (2 * i + 1) / 2 == i;
    if i == 0 {
      assert Dominated(0, mask / 2);
    }
  }

  lemma {:induction false} NoneAbove(mask: nat, cnt: nat)
    requires cnt > mask
    ensures !Dominated(cnt, mask)
  {
    if cnt % 2 <= mask % 2 {
      NoneAbove(mask / 2, cnt / 2);
    }
  }

  lemma {:induction false} MoreDominated(mask: nat, j: nat, k: nat)
    requires j <= k
    ensures DominatedBelow(mask, j) <= DominatedBelow(mask, k)
    ensures mask < j ==> DominatedBelow(mask, j) == DominatedBelow(mask, k)
  {
    if j < k {
      MoreDominated(mask, j, k - 1);
      if mask < j {
        NoneAbove(mask, k - 1);
      }
    }
  }

  /** A mask dominates two to the number of its bits masks, itself included. */
  lemma {:induction false} SubmaskCount(mask: nat)
    ensures DominatedBelow(mask, mask + 1) == Pow2(BitCount(mask))
  {
    if mask == 0 {
      assert DominatedBelow(0, 1) == 1;
    } else {
      var half := mask / 2;
      SubmaskCount(half);
      PairsDominated(mask, half + 1);
      MoreDominated(mask, mask + 1, 2 * (half + 1));
      BitsDouble(mask, DominatedBelow(half, half + 1));
    }
  }

  lemma BitsDouble(mask: nat, n: nat)
    requires mask > 0 && n == Pow2(BitCount(mask / 2))
    ensures (1 + mask % 2) * n == Pow2(BitCount(mask))
  {
    if mask % 2 == 1 {
      assert BitCount(mask) == 1 + BitCount(mask / 2);
    } else {
      assert BitCount(mask) == BitCount(mask / 2);
    }
  }

  /** The bits two numbers have in common: x & y. */
  function And(x: nat, y: nat): nat {
    if x == 0 || y == 0 then 0 else (if x % 2 == 1 && y % 2 == 1 then 1 else 0) + 2 * And(x / 2, y / 2)
  }

  /** pop: the number of bits, added up in pairs, then in fours, and so on. */
  function Pop(x: nat): nat {
    InBytes(InFours(InPairs(x)))
  }

  function InPairs(x: nat): nat {
    And(x, 0xaaaa) / 2 + And(x, 0x5555)
  }

  function InFours(a: nat): nat {
    And(a, 0xcccc) / 4 + And(a, 0x3333)
  }

  function InBytes(b: nat): nat {
    var c := And(b / 16 + b, 0x0f0f);
    And(c / 256 + c, 0x00ff)
  }

  type Bit = b: int | 0 <= b < 2

  datatype Nibble = Nibble(b0: Bit, b1: Bit, b2: Bit, b3: Bit)

  function Value(n: Nibble): nat {
    n.b0 + 2 * n.b1 + 4 * n.b2 + 8 * n.b3
  }

  /** The bits of n where m has ones. */
  function Masked(n: Nibble, m: Nibble): nat {
    (if m.b0 == 1 then n.b0 else 0) + (if m.b1 == 1 then 2 * n.b1 else 0)
    + (if m.b2 == 1 then 4 * n.b2 else 0) + (if m.b3 == 1 then 8 * n.b3 else 0)
  }

  lemma NibbleOf(d: nat) returns (n: Nibble)
    requires d < 16
    ensures Value(n) == d
  {
    var q := d / 2;
    var r := q / 2;
    var s := r / 2;
    n := Nibble(d % 2, q % 2, r % 2, s);
  }

  lemma AndCons(b: Bit, x: nat, c: Bit, y: nat, u: nat, v: nat)
    requires u == b + 2 * x && v == c + 2 * y
    ensures And(u, v) == (if c == 1 then b else 0) + 2 * And(x, y)
  {
    assert u % 2 == b && u / 2 == x && v % 2 == c && v / 2 == y;
  }

  lemma CountCons(b: Bit, x: nat, u: nat)
    requires u == b + 2 * x
    ensures BitCount(u) == b + BitCount(x)
  {
    assert u % 2 == b && u / 2 == x;
  }

  lemma AndNibble(n: Nibble, x: nat, m: Nibble, y: nat, u: nat, v: nat)
    requires u == Value(n) + 16 * x && v == Value(m) + 16 * y
    ensures And(u, v) == Masked(n, m) + 16 * And(x, y)
  {
    var x1, y1 := n.b3 + 2 * x, m.b3 + 2 * y;
    var x2, y2 := n.b2 + 2 * x1, m.b2 + 2 * y1;
    var x3, y3 := n.b1 + 2 * x2, m.b1 + 2 * y2;
    AndCons(n.b3, x, m.b3, y, x1, y1);
    AndCons(n.b2, x1, m.b2, y1, x2, y2);
    AndCons(n.b1, x2, m.b1, y2, x3, y3);
    AndCons(n.b0, x3, m.b0, y3, u, v);
  }

  lemma CountNibble(n: Nibble, x: nat, u: nat)
    requires u == Value(n) + 16 * x
    ensures BitCount(u) == Ones(n) + BitCount(x)
  {
    var x1 := n.b3 + 2 * x;
    var x2 := n.b2 + 2 * x1;
    var x3 := n.b1 + 2 * x2;
    CountCons(n.b3, x, x1);
    CountCons(n.b2, x1, x2);
    CountCons(n.b1, x2, x3);
    CountCons(n.b0, x3, u);
  }

  function Ones(n: Nibble): (c: nat)
    ensures c <= 4
  {
    n.b0 + n.b1 + (n.b2 + n.b3)
  }

  /** Sixteen bits, four at a time. */
  function Word(d0: nat, d1: nat, d2: nat, d3: nat): nat {
    d0 + 16 * (d1 + 16 * (d2 + 16 * d3))
  }

  /** Four nibbles, the lowest first. */
  datatype Four = Four(n0: Nibble, n1: Nibble, n2: Nibble, n3: Nibble)

  function WordOf(f: Four): nat {
    Word(Value(f.n0), Value(f.n1), Value(f.n2), Value(f.n3))
  }

  lemma AndWord(f: Four, g: Four, u: nat, v: nat)
    requires u == WordOf(f) && v == WordOf(g)
    ensures And(u, v) ==
      Word(Masked(f.n0, g.n0), Masked(f.n1, g.n1), Masked(f.n2, g.n2), Masked(f.n3, g.n3))
  {
    var x1, y1 := Value(f.n3), Value(g.n3);
    var x2, y2 := Value(f.n2) + 16 * x1, Value(g.n2) + 16 * y1;
    var x3, y3 := Value(f.n1) + 16 * x2, Value(g.n1) + 16 * y2;
    AndNibble(f.n3, 0, g.n3, 0, x1, y1);
    AndNibble(f.n2, x1, g.n2, y1, x2, y2);
    AndNibble(f.n1, x2, g.n1, y2, x3, y3);
    AndNibble(f.n0, x3, g.n0, y3, u, v);
  }

  /** The first step leaves the sums of two bits each, two to a nibble. */
  function Pairs(n: Nibble): (d: nat)
    ensures d < 16
  {
    (n.b0 + n.b1) + 4 * (n.b2 + n.b3)
  }

  lemma FirstStep(f: Four)
    ensures InPairs(WordOf(f)) == Word(Pairs(f.n0), Pairs(f.n1), Pairs(f.n2), Pairs(f.n3))
  {
    var odd, even := Nibble(0, 1, 0, 1), Nibble(1, 0, 1, 0);
    AndWord(f, Four(odd, odd, odd, odd), WordOf(f), 0xaaaa);
    AndWord(f, Four(even, even, even, even), WordOf(f), 0x5555);
  }

  function Halves(n: Nibble): nat {
    n.b2 + 2 * n.b3 + (n.b0 + 2 * n.b1)
  }

  lemma SecondStep(f: Four)
    ensures InFours(WordOf(f)) == Word(Halves(f.n0), Halves(f.n1), Halves(f.n2), Halves(f.n3))
  {
    var high, low := Nibble(0, 0, 1, 1), Nibble(1, 1, 0, 0);
    AndWord(f, Four(high, high, high, high), WordOf(f), 0xcccc);
    AndWord(f, Four(low, low, low, low), WordOf(f), 0x3333);
  }

  /** The nibble after the first step, which the second step makes the number of ones. */
  lemma SumNibble(n: Nibble) returns (s: Nibble)
    ensures Value(s) == Pairs(n) && Halves(s) == Ones(n)
  {
    var u0, u1 := SumBits(n.b0, n.b1);
    var v0, v1 := SumBits(n.b2, n.b3);
    s := Nibble(u0, u1, v0, v1);
  }

  lemma SumBits(a: Bit, b: Bit) returns (u0: Bit, u1: Bit)
    ensures u0 + 2 * u1 == a + b
  {
    u0, u1 := (if a == b then 0 else 1), if a == b then a else 0;
  }

  /** A mask that keeps all of a nibble, and one that keeps nothing. */
  predicate Keeps(n: Nibble, all: Nibble) {
    Value(all) == 15 && Masked(n, all) == Value(n)
  }

  predicate Clears(n: Nibble, none: Nibble) {
    Value(none) == 0 && Masked(n, none) == 0
  }

  lemma KeepingMask(n: Nibble, all: Nibble)
    requires all.b0 == 1 && all.b1 == 1 && all.b2 == 1 && all.b3 == 1
    ensures Keeps(n, all)
  {
  }

  lemma ClearingMask(n: Nibble, none: Nibble)
    requires none.b0 == 0 && none.b1 == 0 && none.b2 == 0 && none.b3 == 0
    ensures Clears(n, none)
  {
    assert Masked(n, none) == 0 + 0 + 0 + 0;
    var two, four, eight := 2 * none.b1, 4 * none.b2, 8 * none.b3;
    assert two == 0 && four == 0 && eight == 0;
  }

  lemma MasksOf(f: Four) returns (all: Nibble, none: Nibble)
    ensures Keeps(f.n0, all) && Keeps(f.n1, all) && Keeps(f.n2, all) && Keeps(f.n3, all)
    ensures Clears(f.n0, none) && Clears(f.n1, none) && Clears(f.n2, none) && Clears(f.n3, none)
  {
    all, none := Nibble(1, 1, 1, 1), Nibble(0, 0, 0, 0);
    KeepingMask(f.n0, all);
    KeepingMask(f.n1, all);
    KeepingMask(f.n2, all);
    KeepingMask(f.n3, all);
    ClearingMask(f.n0, none);
    ClearingMask(f.n1, none);
    ClearingMask(f.n2, none);
    ClearingMask(f.n3, none);
  }

  lemma ThirdStep(f: Four, b: nat, all: Nibble, none: Nibble)
    requires b == WordOf(f)
    requires Keeps(f.n0, all) && Clears(f.n1, none) && Keeps(f.n2, all) && Clears(f.n3, none)
    ensures And(b, 0x0f0f) == Word(Value(f.n0), 0, Value(f.n2), 0)
  {
    AndWord(f, Four(all, none, all, none), b, 0x0f0f);
  }

  lemma FourthStep(f: Four, c: nat, all: Nibble, none: Nibble)
    requires c == WordOf(f)
    requires Keeps(f.n0, all) && Keeps(f.n1, all) && Clears(f.n2, none) && Clears(f.n3, none)
    ensures And(c, 0x00ff) == Word(Value(f.n0), Value(f.n1), 0, 0)
  {
    AndWord(f, Four(all, all, none, none), c, 0x00ff);
  }

  /** Adding up neighbours. */
  lemma Neighbours(p0: nat, p1: nat, p2: nat, p3: nat)
    requires p0 <= 4 && p1 <= 4 && p2 <= 4 && p3 <= 4
    ensures Word(p0, p1, p2, p3) / 16 + Word(p0, p1, p2, p3) == Word(p0 + p1, p1 + p2, p2 + p3, p3)
  {
    assert Word(p0, p1, p2, p3) / 16 == p1 + 16 * (p2 + 16 * p3);
  }

  lemma Bytes(p: nat, q: nat, carry: nat)
    requires p <= 8 && q <= 8 && carry == if p + q == 16 then 1 else 0
    ensures Word(p, 0, q, 0) / 256 + Word(p, 0, q, 0) == Word(p + q - 16 * carry, carry, q, 0)
  {
    assert Word(p, 0, q, 0) / 256 == q;
  }

  lemma LastSteps(p0: nat, p1: nat, p2: nat, p3: nat, b: nat)
    requires p0 <= 4 && p1 <= 4 && p2 <= 4 && p3 <= 4 && b == Word(p0, p1, p2, p3)
    ensures InBytes(b) == p0 + p1 + p2 + p3
  {
    Neighbours(p0, p1, p2, p3);
    ThirdWord(p0 + p1, p1 + p2, p2 + p3, p3, b / 16 + b);
    AddBytes(p0 + p1, p2 + p3, And(b / 16 + b, 0x0f0f));
  }

  lemma ThirdWord(d0: nat, d1: nat, d2: nat, d3: nat, b: nat)
    requires d0 < 16 && d1 < 16 && d2 < 16 && d3 < 16 && b == Word(d0, d1, d2, d3)
    ensures And(b, 0x0f0f) == Word(d0, 0, d2, 0)
  {
    var n0 := NibbleOf(d0);
    var n1 := NibbleOf(d1);
    var n2 := NibbleOf(d2);
    var n3 := NibbleOf(d3);
    var all, none := MasksOf(Four(n0, n1, n2, n3));
    ThirdStep(Four(n0, n1, n2, n3), b, all, none);
  }

  lemma AddBytes(p: nat, q: nat, c: nat)
    requires p <= 8 && q <= 8 && c == Word(p, 0, q, 0)
    ensures And(c / 256 + c, 0x00ff) == p + q
  {
    var carry := if p + q == 16 then 1 else 0;
    Bytes(p, q, carry);
    var n0 := NibbleOf(p + q - 16 * carry);
    var n1 := NibbleOf(carry);
    var n2 := NibbleOf(q);
    var n3 := NibbleOf(0);
    var all, none := MasksOf(Four(n0, n1, n2, n3));
    FourthStep(Four(n0, n1, n2, n3), c / 256 + c, all, none);
  }

  lemma BitsOfWord(f: Four)
    ensures BitCount(WordOf(f)) == Ones(f.n0) + Ones(f.n1) + Ones(f.n2) + Ones(f.n3)
  {
    var x1 := Value(f.n3);
    var x2 := Value(f.n2) + 16 * x1;
    var x3 := Value(f.n1) + 16 * x2;
    CountNibble(f.n3, 0, x1);
    CountNibble(f.n2, x1, x2);
    CountNibble(f.n1, x2, x3);
    CountNibble(f.n0, x3, WordOf(f));
  }

  lemma SecondOf(f: Four, a: nat)
    requires a == Word(Pairs(f.n0), Pairs(f.n1), Pairs(f.n2), Pairs(f.n3))
    ensures InFours(a) == Word(Ones(f.n0), Ones(f.n1), Ones(f.n2), Ones(f.n3))
  {
    var s0 := SumNibble(f.n0);
    var s1 := SumNibble(f.n1);
    var s2 := SumNibble(f.n2);
    var s3 := SumNibble(f.n3);
    SecondStep(Four(s0, s1, s2, s3));
  }

  lemma PopWord(f: Four)
    ensures Pop(WordOf(f)) == BitCount(WordOf(f))
  {
    FirstStep(f);
    var a := Word(Pairs(f.n0), Pairs(f.n1), Pairs(f.n2), Pairs(f.n3));
    SecondOf(f, a);
    LastSteps(Ones(f.n0), Ones(f.n1), Ones(f.n2), Ones(f.n3), InFours(a));
    BitsOfWord(f);
  }

  /** pop counts the bits of every number of 16 bits. */
  lemma PopCounts(x: nat)
    requires x < 0x1_0000
    ensures Pop(x) == BitCount(x)
  {
    var q := x / 16;
    var r := q / 16;
    var n0 := NibbleOf(x % 16);
    var n1 := NibbleOf(q % 16);
    var n2 := NibbleOf(r % 16);
    var n3 := NibbleOf(r / 16);
    assert x == WordOf(Four(n0, n1, n2, n3));
    PopWord(Four(n0, n1, n2, n3));
  }
}
