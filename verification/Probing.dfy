/**
 * Double hashing: the sequence of slots a probe visits, and why it visits every slot of a table of prime size
 * before it repeats one.
 */
module Probing {
  import opened Arith

  predicate Divides(d: int, n: int)
    requires d > 0
  {
    n % d == 0
  }

  predicate Prime(p: int) {
    p > 1 && forall d :: 1 < d < p ==> !Divides(d, p)
  }

  /** A prime divides no product of two smaller numbers. */
  lemma {:induction false} PrimeSplitsNoProduct(p: int, k: int, b: int, m: int)
    requires Prime(p) && 0 < k < p && 0 < b < p
    ensures k * b != m * p
    decreases b
  {
    if b == 1 {
      if k == m * p {
        SameResidue(k, 0, m, p);
      }
    } else {
      var q, r := p / b, p % b;
      DivFacts(p, b);
      assert !Divides(b, p);
      if k * b == m * p {
        Remainder(p, k, b, m, q, r);
        PrimeSplitsNoProduct(p, k, r, k - q * m);
      }
    }
  }

  lemma Remainder(p: int, k: int, b: int, m: int, q: int, r: int)
    requires k * b == m * p && p == q * b + r
    ensures k * r == (k - q * m) * p
  {
    assert k * r == k * (p - q * b);
    assert k * (p - q * b) == k * p - k * (q * b) by { MulDist(k, p, -(q * b)); }
    assert k * (q * b) == q * (k * b) by { MulAssoc(k, q, b); MulAssoc(q, k, b); }
    assert q * (m * p) == (q * m) * p by { MulAssoc(q, m, p); }
    assert (k - q * m) * p == k * p - (q * m) * p;
  }

  /** A slot number and the step of a probe sequence in a table of the given size. */
  datatype Walk = Walk(start: nat, incr: nat, size: nat)

  predicate Proper(w: Walk) {
    w.start < w.size && 0 < w.incr < w.size
  }

  /** The sequence a hash value gives. */
  function WalkOf(hash: nat, size: nat): (w: Walk)
    requires size > 2
    ensures Proper(w)
  {
    Walk(hash % size, 1 + hash % (size - 2), size)
  }

  /** The next slot, computed without leaving the range of slot numbers. */
  function Advance(w: Walk, idx: nat): (r: nat)
    requires Proper(w) && idx < w.size
    ensures r < w.size
  {
    if idx >= w.size - w.incr then idx - (w.size - w.incr) else idx + w.incr
  }

  /** The slot visited after k steps. */
  function Slot(w: Walk, k: nat): (r: nat)
    requires Proper(w)
    ensures r < w.size
  {
    if k == 0 then w.start else Advance(w, Slot(w, k - 1))
  }

  /** The steps wrap around the table. */
  lemma {:induction false} SlotIsMultiple(w: Walk, k: nat) returns (q: int)
    requires Proper(w)
    ensures Slot(w, k) == w.start + k * w.incr - q * w.size
  {
    if k == 0 {
      q := 0;
    } else {
      q := SlotIsMultiple(w, k - 1);
      assert k * w.incr == (k - 1) * w.incr + w.incr;
      if Slot(w, k - 1) >= w.size - w.incr {
        assert (q + 1) * w.size == q * w.size + w.size;
        q := q + 1;
      }
    }
  }

  /** Double hashing: where the probe for a hash value looks in its step number k. */
  lemma ProbeLooksAt(hash: nat, size: nat, k: nat)
    requires size > 2
    ensures Slot(WalkOf(hash, size), k) == (hash % size + k * (1 + hash % (size - 2))) % size
  {
    var w := WalkOf(hash, size);
    var q := SlotIsMultiple(w, k);
    DivModUnique(w.start + k * w.incr, size, q, Slot(w, k));
  }

  /** No slot comes up twice within as many steps as there are slots. */
  lemma SlotsDiffer(w: Walk, i: nat, j: nat)
    requires Proper(w) && Prime(w.size) && i < j < w.size
    ensures Slot(w, i) != Slot(w, j)
  {
    var qi := SlotIsMultiple(w, i);
    var qj := SlotIsMultiple(w, j);
    if Slot(w, i) == Slot(w, j) {
      assert (j - i) * w.incr == j * w.incr - i * w.incr;
      assert (qj - qi) * w.size == qj * w.size - qi * w.size;
      PrimeSplitsNoProduct(w.size, j - i, w.incr, qj - qi);
    }
  }

  /** The slots of the first k steps. */
  function Visited(w: Walk, k: nat): set<nat>
    requires Proper(w)
  {
    if k == 0 then {} else Visited(w, k - 1) + {Slot(w, k - 1)}
  }

  lemma {:induction false} VisitedSlots(w: Walk, k: nat, s: nat)
    requires Proper(w)
    ensures s in Visited(w, k) <==> exists i :: 0 <= i < k && Slot(w, i) == s
  {
    if k > 0 {
      VisitedSlots(w, k - 1, s);
      var last := k - 1;
      assert Slot(w, last) == s ==> exists i :: 0 <= i < k && Slot(w, i) == s;
      assert Visited(w, k) == Visited(w, last) + {Slot(w, last)};
    }
  }

  lemma {:induction false} VisitedCount(w: Walk, k: nat)
    requires Proper(w) && Prime(w.size) && k <= w.size
    ensures |Visited(w, k)| == k
  {
    if k > 0 {
      VisitedCount(w, k - 1);
      var s := Slot(w, k - 1);
      VisitedSlots(w, k - 1, s);
      forall i | 0 <= i < k - 1
        ensures Slot(w, i) != s
      {
        SlotsDiffer(w, i, k - 1);
      }
      assert s !in Visited(w, k - 1);
    }
  }

  function Range(n: nat): set<nat> {
    if n == 0 then {} else Range(n - 1) + {n - 1}
  }

  lemma {:induction false} RangeIs(n: nat)
    ensures |Range(n)| == n && forall i: nat :: i in Range(n) <==> i < n
  {
    if n > 0 {
      RangeIs(n - 1);
    }
  }

  lemma SubsetOfSameSize(a: set<nat>, b: set<nat>)
    requires a <= b && |a| == |b|
    ensures a == b
  {
    assert b == a + (b - a);
    assert |b| == |a| + |b - a|;
    assert b - a == {};
  }

  /** A probe in a table of prime size visits every slot, each exactly once, within size steps. */
  lemma ProbeVisitsEverySlot(w: Walk, s: nat) returns (k: nat)
    requires Proper(w) && Prime(w.size) && s < w.size
    ensures k < w.size && Slot(w, k) == s
    ensures forall j :: 0 <= j < w.size && Slot(w, j) == s ==> j == k
  {
    var all := Range(w.size);
    RangeIs(w.size);
    VisitedCount(w, w.size);
    forall x | x in Visited(w, w.size)
      ensures x in all
    {
      VisitedSlots(w, w.size, x);
    }
    SubsetOfSameSize(Visited(w, w.size), all);
    VisitedSlots(w, w.size, s);
    k :| 0 <= k < w.size && Slot(w, k) == s;
    forall j | 0 <= j < w.size && Slot(w, j) == s
      ensures j == k
    {
      if j < k {
        SlotsDiffer(w, j, k);
      } else if k < j {
        SlotsDiffer(w, k, j);
      }
    }
  }
}
