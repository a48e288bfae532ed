/** How many keys of a map have a value: threads by status, or by the place where they are. */
module Counting {
  function Having<K, V(==)>(m: map<K, V>, x: V): set<K> {
    set k | k in m && m[k] == x
  }

  /** When one key changes its value, the old one is had by one key less and the new one by one more. */
  lemma CountMoves<K, V>(m: map<K, V>, k: K, x: V)
    requires k in m && m[k] != x
    ensures |Having(m[k := x], x)| == |Having(m, x)| + 1
    ensures |Having(m[k := x], m[k])| == |Having(m, m[k])| - 1
    ensures forall y :: y != x && y != m[k] ==> Having(m[k := x], y) == Having(m, y)
    ensures m[k := x].Keys == m.Keys
  {
    assert Having(m[k := x], x) == Having(m, x) + {k};
    assert Having(m[k := x], m[k]) == Having(m, m[k]) - {k};
    forall y | y != x && y != m[k]
      ensures Having(m[k := x], y) == Having(m, y)
    {
      assert forall u :: u in Having(m[k := x], y) <==> u in Having(m, y);
    }
    assert m[k := x].Keys == m.Keys;
  }

  /** The value of a key is had by one at least. */
  lemma Counted<K, V>(m: map<K, V>, k: K)
    requires k in m
    ensures |Having(m, m[k])| > 0
  {
    assert k in Having(m, m[k]);
  }

  lemma Nobody<K, V>(m: map<K, V>, x: V)
    ensures |Having(m, x)| == 0 <==> forall k :: k in m ==> m[k] != x
  {
    if |Having(m, x)| == 0 {
      assert Having(m, x) == {};
      assert forall k :: k in m ==> k !in Having(m, x);
    } else {
      var k :| k in Having(m, x);
    }
  }

  lemma SubsetSize<K>(a: set<K>, b: set<K>)
    requires a <= b
    ensures |a| <= |b|
  {
    assert b == a + (b - a);
  }
}
