/** What unchaining a node makes of a tree value in `__tdelete`, and how long a path can be. */
module TreeUnchain {
  import opened Arith
  import opened RedBlack
  import opened TreeHeap
  import opened TreeSplit
  import opened TreeShort

  /** Trees that differ only in keys. */
  predicate SameColours(t: Shape, t': Shape) {
    match (t, t')
    case (Leaf, Leaf) => true
    case (Br(i, _, c, l, r), Br(i', _, c', l', r')) => i == i' && c == c' && SameColours(l, l') && SameColours(r, r')
    case _ => false
  }

  lemma {:induction false} SameColoursRefl(t: Shape)
    ensures SameColours(t, t)
  {
    if t.Br? {
      SameColoursRefl(t.l);
      SameColoursRefl(t.r);
    }
  }

  lemma {:induction false} SameColoursPut(t: Shape, d: seq<Dir>, s: Shape, s': Shape)
    requires ValidPath(t, d) && SameColours(s, s')
    ensures SameColours(Put(t, d, s), Put(t, d, s'))
  {
    if d != [] {
      SameColoursPut(Child(t, d[0]), d[1..], s, s');
      SameColoursRefl(t.l);
      SameColoursRefl(t.r);
    }
  }

  lemma {:induction false} SameColoursBalance(t: Shape, t': Shape, h: int)
    requires SameColours(t, t')
    ensures Balanced(t, h) <==> Balanced(t', h)
    ensures NoRedRed(t) <==> NoRedRed(t')
    ensures Ids(t) == Ids(t') && (Distinct(t) <==> Distinct(t'))
  {
    if t.Br? {
      SameColoursBalance(t.l, t'.l, Below(h, t.red));
      SameColoursBalance(t.r, t'.r, Below(h, t.red));
    }
  }

  lemma {:induction false} SameColoursPath(t: Shape, t': Shape, d: seq<Dir>, s: Shape)
    requires SameColours(t, t') && ValidPath(t, d)
    ensures ValidPath(t', d) && SameColours(At(t, d), At(t', d)) && SameColours(Put(t, d, s), Put(t', d, s))
  {
    if d == [] {
      SameColoursRefl(s);
    } else {
      SameColoursPath(Child(t, d[0]), Child(t', d[0]), d[1..], s);
    }
  }

  lemma {:induction false} SameColoursShort(t: Shape, t': Shape, d: seq<Dir>, h: int)
    requires SameColours(t, t') && ValidPath(t, d) && Short(t, d, h)
    ensures ValidPath(t', d) && Short(t', d, h)
  {
    if d == [] {
      SameColoursBalance(t, t', h - 1);
    } else {
      SameColoursShort(Child(t, d[0]), Child(t', d[0]), d[1..], Below(h, t.red));
      SameColoursBalance(Child(t, Opposite(d[0])), Child(t', Opposite(d[0])), Below(h, t.red));
    }
  }

  lemma {:induction false} SameColoursSlot(cell: RootCell, t: Shape, t': Shape, d: seq<Dir>)
    requires SameColours(t, t') && ValidPath(t, d)
    ensures ValidPath(t', d) && SlotAt(cell, t', d) == SlotAt(cell, t, d)
  {
    if |d| > 1 {
      SameColoursSlot(cell, Child(t, d[0]), Child(t', d[0]), d[1..]);
    }
  }

  lemma SameColoursRepairable(t: Shape, t': Shape, d: seq<Dir>, h: int)
    requires SameColours(t, t') && ValidPath(t, d) && Repairable(t, d, h)
    ensures ValidPath(t', d) && Repairable(t', d, h)
  {
    SameColoursShort(t, t', d, h);
    SameColoursPath(t, t', d, Leaf);
    SameColoursBalance(Put(t, d, Leaf), Put(t', d, Leaf), 0);
    SameColoursBalance(Blacken(At(t, d)), Blacken(At(t', d)), 0);
  }

  /** A node with at most one child. */
  predicate Unchainable(u: Shape) {
    u.Br? && (u.l.Leaf? || u.r.Leaf?)
  }

  /** "Either the left or right successor is NULL": the other one. */
  function OnlyChild(u: Shape): Shape
    requires u.Br?
  {
    if u.l.Br? then u.l else u.r
  }

  /** Unchaining a red node keeps the balance, unchaining a black one makes its place short. */
  lemma UnchainBalance(t: Shape, e: seq<Dir>, h: int)
    requires ValidPath(t, e) && Balanced(t, h) && NoRedRed(t) && Unchainable(At(t, e))
    ensures var t1 := Put(t, e, OnlyChild(At(t, e)));
      && (At(t, e).red ==> Balanced(t1, h) && NoRedRed(t1))
      && (!At(t, e).red ==> ValidPath(t1, e) && Repairable(t1, e, h))
  {
    var u := At(t, e);
    var c := OnlyChild(u);
    SubtreeBalanced(t, e, h);
    SubtreeNoRedRed(t, e);
    PutLeafNoRedRed(t, e);
    if u.red {
      if c.Br? { HeightNonNegative(c.l, Below(HeightAt(t, e, h), c.red)); }
      assert c.Leaf?;
      PutBalanced(t, e, h, Leaf);
    } else {
      PutShort(t, e, h, c);
      PutAt(t, e, c);
      assert e + [] == e;
      PutInside(t, e, [], c);
    }
  }

  predicate AllLeft(ls: seq<Dir>) {
    forall i :: 0 <= i < |ls| ==> ls[i] == L
  }

  /** Unchaining the leftmost node of a tree removes its least key. */
  lemma {:induction false} UnchainLeast(t: Shape, ls: seq<Dir>)
    requires AllLeft(ls) && ValidPath(t, ls) && At(t, ls).Br? && At(t, ls).l.Leaf? && Ordered(t)
    ensures var m, s := At(t, ls).key, Put(t, ls, At(t, ls).r);
      && Ordered(s) && m in Keys(t) && Keys(s) == Keys(t) - {m} && (forall k :: k in Keys(s) ==> m < k)
  {
    if ls == [] {
    } else {
      UnchainLeast(t.l, ls[1..]);
      var m := At(t, ls).key;
      assert m < t.key;
      assert forall k :: k in Keys(t.r) ==> m < k;
      assert m !in Keys(t.r);
    }
  }

  /** The tree value after unchaining the node at e for the sake of the key at d. */
  function Unchained(t: Shape, d: seq<Dir>, ls: seq<Dir>): Shape
    requires ValidPath(t, d) && At(t, d).Br? && ValidPath(At(t, d).r, ls) && At(At(t, d).r, ls).Br?
  {
    var n := At(t, d);
    var u := At(n.r, ls);
    Put(t, d, n.(key := u.key, r := Put(n.r, ls, u.r)))
  }

  /** Overwriting the key by its successor's and unchaining the successor removes the key. */
  lemma SuccessorRemoves(t: Shape, d: seq<Dir>, ls: seq<Dir>, key: int)
    requires ValidPath(t, d) && At(t, d).Br? && At(t, d).key == key && OnPath(t, key, d) && Ordered(t)
    requires AllLeft(ls) && ValidPath(At(t, d).r, ls) && At(At(t, d).r, ls).Br? && At(At(t, d).r, ls).l.Leaf?
    ensures Ordered(Unchained(t, d, ls)) && Keys(Unchained(t, d, ls)) == Keys(t) - {key}
  {
    var n := At(t, d);
    var u := At(n.r, ls);
    SubtreeOrdered(t, d);
    UnchainLeast(n.r, ls);
    var n' := n.(key := u.key, r := Put(n.r, ls, u.r));
    assert Ordered(n') && Keys(n') == Keys(n) - {key};
    PutRemove(t, d, key, n');
  }

  /** Without a successor the node itself is unchained. */
  lemma UnchainRemoves(t: Shape, d: seq<Dir>, key: int)
    requires ValidPath(t, d) && Unchainable(At(t, d)) && At(t, d).key == key && OnPath(t, key, d) && Ordered(t)
    ensures var t1 := Put(t, d, OnlyChild(At(t, d))); Ordered(t1) && Keys(t1) == Keys(t) - {key}
  {
    SubtreeOrdered(t, d);
    PutRemove(t, d, key, OnlyChild(At(t, d)));
  }

  /**
   * What leaves a tree with a key: one node is freed, and all others stay with their keys, except that the key's
   * node n, if it is not the one that is freed, takes over the key of that one.
   */
  ghost predicate Freed(t: Shape, t': Shape, key: int, n: Node, freed: Node) {
    && freed in Ids(t) && Ids(t') == Ids(t) - {freed} && (n, key) in Bindings(t)
    && if freed == n then Bindings(t') == Bindings(t) - {(n, key)}
       else exists k ::
         (freed, k) in Bindings(t) && Bindings(t') == Bindings(t) - {(n, key), (freed, k)} + {(n, k)}
  }

  /** Unchaining removes the top node of its subtree and nothing else. */
  lemma OnlyChildKeeps(u: Shape)
    requires Distinct(u) && Unchainable(u)
    ensures Bindings(OnlyChild(u)) == Bindings(u) - {(u.id, u.key)} && Ids(OnlyChild(u)) == Ids(u) - {u.id}
  {
    BindingsIds(OnlyChild(u));
  }

  lemma UnchainFrees(t: Shape, d: seq<Dir>)
    requires ValidPath(t, d) && Distinct(t) && Unchainable(At(t, d))
    ensures Freed(t, Put(t, d, OnlyChild(At(t, d))), At(t, d).key, At(t, d).id, At(t, d).id)
  {
    var u := At(t, d);
    SubtreeDistinct(t, d);
    SubtreeBindings(t, d);
    OnlyChildKeeps(u);
    PutExact(t, d, OnlyChild(u));
    OutsideBindings(t, d);
  }

  /** Nothing outside a subtree has to do with its nodes. */
  lemma {:induction false} OutsideBindings(t: Shape, d: seq<Dir>)
    requires ValidPath(t, d) && Distinct(t)
    ensures forall p :: p in Bindings(t) && p.0 in Ids(At(t, d)) ==> p in Bindings(At(t, d))
  {
    if d != [] {
      var c, other := Child(t, d[0]), Child(t, Opposite(d[0]));
      OutsideBindings(c, d[1..]);
      SubtreeDistinct(c, d[1..]);
      BindingsIds(other);
    }
  }

  /** The node n with the key of the successor u, which is unchained from n's right subtree. */
  lemma SuccessorBindings(n: Shape, ls: seq<Dir>)
    requires n.Br? && Distinct(n) && ValidPath(n.r, ls) && At(n.r, ls).Br? && At(n.r, ls).l.Leaf?
    ensures
      var u := At(n.r, ls);
      var n' := n.(key := u.key, r := Put(n.r, ls, u.r));
      && u.id in Ids(n) && u.id != n.id && (u.id, u.key) in Bindings(n) && Ids(n') == Ids(n) - {u.id}
      && Bindings(n') == Bindings(n) - {(n.id, n.key), (u.id, u.key)} + {(n.id, u.key)}
  {
    var u := At(n.r, ls);
    SubtreeDistinct(n.r, ls);
    SubtreeBindings(n.r, ls);
    OnlyChildKeeps(u);
    PutExact(n.r, ls, u.r);
    BindingsIds(n.r);
    BindingsIds(n.l);
    assert u.id in Ids(n.r) && (u.id, u.key) in Bindings(n.r);
  }

  lemma SuccessorFrees(t: Shape, d: seq<Dir>, ls: seq<Dir>)
    requires ValidPath(t, d) && Distinct(t) && At(t, d).Br? && ValidPath(At(t, d).r, ls)
    requires At(At(t, d).r, ls).Br? && At(At(t, d).r, ls).l.Leaf?
    ensures
      var u := At(At(t, d).r, ls);
      Freed(t, Unchained(t, d, ls), At(t, d).key, At(t, d).id, u.id) && u.id in Ids(At(t, d)) && u.id != At(t, d).id
  {
    var n := At(t, d);
    var u := At(n.r, ls);
    var n' := n.(key := u.key, r := Put(n.r, ls, u.r));
    SubtreeDistinct(t, d);
    SubtreeBindings(t, d);
    SuccessorBindings(n, ls);
    PutExact(t, d, n');
    OutsideBindings(t, d);
    assert (u.id, u.key) in Bindings(t);
  }

  /** Every path is at most twice as long as the black height, plus one below a red root. */
  lemma {:induction false} PathBound(t: Shape, d: seq<Dir>, h: int)
    requires Balanced(t, h) && NoRedRed(t) && ValidPath(t, d)
    ensures h >= 0 && |d| <= 2 * h + (if IsRed(t) then 1 else 0)
  {
    HeightNonNegative(t, h);
    if d != [] { PathBound(Child(t, d[0]), d[1..], Below(h, t.red)); }
  }

  /** A tree of black height h has at least 2^h - 1 nodes, and twice as many below a red root. */
  lemma {:induction false} SizeBound(t: Shape, h: nat)
    requires Balanced(t, h)
    ensures Size(t) + 1 >= Pow2(if IsRed(t) && NoRedRed(t) then h + 1 else h)
  {
    if t.Br? {
      HeightNonNegative(t.l, Below(h, t.red));
      SizeBound(t.l, Below(h, t.red));
      SizeBound(t.r, Below(h, t.red));
    }
  }

  /** In a red/black tree of n nodes no path is longer than 2 * log2(n + 1). */
  lemma PathIsLogarithmic(t: Shape, d: seq<Dir>)
    requires RedBlackTree(t) && ValidPath(t, d)
    ensures Pow2(|d|) <= (Size(t) + 1) * (Size(t) + 1)
  {
    var h := BlackHeight(t);
    PathBound(t, d, h);
    SizeBound(t, h);
    var k := if IsRed(t) then h + 1 else h;
    Pow2Add(k, k);
    Pow2Monotone(|d|, k + k);
    SquareLe(Pow2(k), Size(t) + 1);
  }

  lemma SquareLe(a: nat, b: nat)
    requires a <= b
    ensures a * a <= b * b
  {
    MulLe(a, b, a);
    MulLe(a, b, b);
    assert b * a == a * b;
  }

  lemma {:induction false} Pow2Monotone(m: nat, n: nat)
    requires m <= n
    ensures Pow2(m) <= Pow2(n)
  {
    if m < n {
      Pow2Monotone(m, n - 1);
      Pow2Positive(n - 1);
    }
  }

  lemma {:induction false} Pow2Strict(m: nat, n: nat)
    requires Pow2(m) <= Pow2(n)
    ensures m <= n
  {
    if m > n {
      Pow2Monotone(n + 1, m);
      Pow2Positive(n);
    }
  }

  /** With fewer than 2^k nodes no path is longer than 2k, so 100 slots suffice below 2^49 nodes. */
  lemma PathFitsStack(t: Shape, d: seq<Dir>, k: nat)
    requires RedBlackTree(t) && ValidPath(t, d) && Size(t) < Pow2(k)
    ensures |d| <= 2 * k
  {
    var h := BlackHeight(t);
    PathBound(t, d, h);
    SizeBound(t, h);
    Pow2Strict(if IsRed(t) then h + 1 else h, k);
  }
}
