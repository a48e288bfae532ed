/** `maybe_split_for_insert` of tsearch.c as a function on tree values: which tree it makes, and that
  * this tree meets the invariant again.
  */
module TreeSplit {
  import opened RedBlack

  /** Both successors red: the node has to be split. */
  predicate TwinReds(t: Shape) {
    t.Br? && IsRed(t.l) && IsRed(t.r)
  }

  function Init(d: seq<Dir>): seq<Dir>
    requires d != []
  {
    d[..|d| - 1]
  }

  function Last(d: seq<Dir>): Dir
    requires d != []
  {
    d[|d| - 1]
  }

  lemma InitLast(d: seq<Dir>)
    requires d != []
    ensures d == Init(d) + [Last(d)]
  {
  }

  lemma {:induction false} PrefixIsPath(t: Shape, d: seq<Dir>, k: nat)
    requires ValidPath(t, d) && k <= |d|
    ensures ValidPath(t, d[..k])
    ensures k < |d| ==> At(t, d[..k]).Br?
  {
    if k > 0 {
      PrefixIsPath(Child(t, d[0]), d[1..], k - 1);
      assert d[..k][1..] == d[1..][..k - 1];
    }
  }

  lemma PrefixValid(t: Shape, d: seq<Dir>, k: nat)
    requires ValidPath(t, d) && k <= |d|
    ensures ValidPath(t, d[..k]) && ValidPath(At(t, d[..k]), d[k..])
    ensures At(t, d) == At(At(t, d[..k]), d[k..])
    ensures k < |d| ==> At(t, d[..k]).Br?
  {
    PrefixIsPath(t, d, k);
    assert d == d[..k] + d[k..];
    PathConcat(t, d[..k], d[k..]);
  }

  /** The subtree whose top is k steps above d. */
  function Above(t: Shape, d: seq<Dir>, k: nat): (p: Shape)
    requires ValidPath(t, d) && 1 <= k <= |d|
    ensures ValidPath(t, d[..|d| - k]) && p == At(t, d[..|d| - k]) && p.Br?
  {
    PrefixValid(t, d, |d| - k);
    At(t, d[..|d| - k])
  }

  /** The parent of d in t is red, so that splitting at d makes two red nodes in a row. */
  predicate RedParent(t: Shape, d: seq<Dir>)
    requires ValidPath(t, d)
  {
    d != [] && Above(t, d, 1).red
  }

  /** The new subtree at the grandparent: N is the split node, below gp in directions d1 and d2. */
  function Repair(gp: Shape, d1: Dir, d2: Dir): Shape
    requires gp.Br? && Child(gp, d1).Br? && Child(Child(gp, d1), d2).Br?
  {
    if d1 == d2 then RotateOnce(gp, d1, false, true) else RotateTwice(gp, d1, false, true, true)
  }

  /** The grandparent subtree with the split node recoloured but not yet rotated. */
  function Recoloured(gp: Shape, d1: Dir, d2: Dir): (g: Shape)
    requires gp.Br? && Child(gp, d1).Br? && Child(Child(gp, d1), d2).Br?
    ensures g.Br? && Child(g, d1).Br? && Child(Child(g, d1), d2).Br?
  {
    WithChild(gp, d1, WithChild(Child(gp, d1), d2, Recolour(Child(Child(gp, d1), d2))))
  }

  /** The tree after splitting the node at d. */
  function SplitTree(t: Shape, d: seq<Dir>): Shape
    requires ValidPath(t, d) && At(t, d).Br?
    requires RedParent(t, d) ==> |d| >= 2
  {
    if RedParent(t, d) then
      var g := d[..|d| - 2];
      var d1, d2 := d[|d| - 2], d[|d| - 1];
      GrandparentShape(t, d);
      Put(t, g, Repair(Recoloured(At(t, g), d1, d2), d1, d2))
    else
      Put(t, d, Recolour(At(t, d)))
  }

  lemma GrandparentShape(t: Shape, d: seq<Dir>)
    requires ValidPath(t, d) && At(t, d).Br? && |d| >= 2
    ensures ValidPath(t, d[..|d| - 2]) && ValidPath(t, Init(d))
    ensures var g, d1, d2 := d[..|d| - 2], d[|d| - 2], d[|d| - 1];
      && d == g + [d1, d2] && Init(d) == g + [d1]
      && At(t, g).Br? && Child(At(t, g), d1).Br?
      && At(t, Init(d)) == Child(At(t, g), d1)
      && At(t, d) == Child(Child(At(t, g), d1), d2)
      && ValidPath(At(t, g), [d1, d2])
      && (forall s :: Put(At(t, g), [d1, d2], s) == WithChild(At(t, g), d1, WithChild(Child(At(t, g), d1), d2, s)))
  {
    var g, d1, d2 := d[..|d| - 2], d[|d| - 2], d[|d| - 1];
    PrefixValid(t, d, |d| - 2);
    PrefixValid(t, d, |d| - 1);
    assert d[|d| - 2..] == [d1, d2] && d == g + [d1, d2] && Init(d) == g + [d1];
    PathSnoc(t, g, d1);
    PathSnoc(t, Init(d), d2);
    assert Init(d) + [d2] == d;
    var gp := At(t, g);
    assert [d1, d2][1..] == [d2] && [d2][1..] == [];
    assert ValidPath(Child(gp, d1), [d2]);
    forall s
      ensures Put(gp, [d1, d2], s) == WithChild(gp, d1, WithChild(Child(gp, d1), d2, s))
    {
      assert Put(Child(gp, d1), [d2], s) == WithChild(Child(gp, d1), d2, Put(Child(Child(gp, d1), d2), [], s));
    }
  }

  /** Splitting rearranges the tree without changing its contents. */
  lemma SplitContents(t: Shape, d: seq<Dir>)
    requires ValidPath(t, d) && At(t, d).Br? && Distinct(t)
    requires RedParent(t, d) ==> |d| >= 2
    ensures Distinct(SplitTree(t, d)) && Ids(SplitTree(t, d)) <= Ids(t)
    ensures Bindings(SplitTree(t, d)) == Bindings(t)
    ensures Ordered(t) ==> Ordered(SplitTree(t, d)) && Keys(SplitTree(t, d)) == Keys(t)
  {
    if RedParent(t, d) {
      var g, d1, d2 := d[..|d| - 2], d[|d| - 2], d[|d| - 1];
      GrandparentShape(t, d);
      RepairKeeps(At(t, g), d1, d2);
      ReplaceKeeps(t, g, Repair(Recoloured(At(t, g), d1, d2), d1, d2));
    } else {
      RecolourKeeps(At(t, d));
      ReplaceKeeps(t, d, Recolour(At(t, d)));
    }
  }

  lemma ReplaceKeeps(t: Shape, d: seq<Dir>, s: Shape)
    requires ValidPath(t, d) && Distinct(t) && SameContents(s, At(t, d))
    ensures Distinct(Put(t, d, s)) && Ids(Put(t, d, s)) <= Ids(t) && Bindings(Put(t, d, s)) == Bindings(t)
    ensures Ordered(t) ==> Ordered(Put(t, d, s)) && Keys(Put(t, d, s)) == Keys(t)
  {
    SubtreeDistinct(t, d);
    PutDistinct(t, d, s, {});
    PutBindings(t, d, s);
    if Ordered(t) {
      SubtreeOrdered(t, d);
      PutOrdered(t, d, s);
    }
  }

  lemma RepairKeeps(gp: Shape, d1: Dir, d2: Dir)
    requires gp.Br? && Child(gp, d1).Br? && Child(Child(gp, d1), d2).Br?
    ensures SameContents(Repair(Recoloured(gp, d1, d2), d1, d2), gp)
  {
    var p := Child(gp, d1);
    RecolourKeeps(Child(p, d2));
    ChildKeeps(p, d2, Recolour(Child(p, d2)));
    ChildKeeps(gp, d1, WithChild(p, d2, Recolour(Child(p, d2))));
    var g := Recoloured(gp, d1, d2);
    if d1 == d2 {
      RotateOnceKeeps(g, d1, false, true);
    } else {
      RotateTwiceKeeps(g, d1, false, true, true);
    }
  }

  /** Two red nodes in a row below a black grandparent with a black uncle: one or two rotations help. */
  lemma RepairBalances(gp: Shape, d1: Dir, d2: Dir, h: int)
    requires gp.Br? && Child(gp, d1).Br? && Child(Child(gp, d1), d2).Br?
    requires var p := Child(gp, d1);
      var n := Child(p, d2);
      && !gp.red && p.red && n.red
      && Balanced(gp, h)
      && NoRedRed(n) && NoRedRed(Child(p, Opposite(d2))) && !IsRed(Child(p, Opposite(d2)))
      && NoRedRed(Child(gp, Opposite(d1))) && !IsRed(Child(gp, Opposite(d1)))
    ensures Balanced(Repair(gp, d1, d2), h) && NoRedRed(Repair(gp, d1, d2)) && !IsRed(Repair(gp, d1, d2))
  {
    var p := Child(gp, d1);
    var n := Child(p, d2);
    assert Balanced(p, h - 1) && Balanced(n, h - 1);
    assert Balanced(n.l, h - 1) && Balanced(n.r, h - 1);
  }

  /** What holds before the two kinds of split, in the descent and after linking a new red node: the tree
    * is balanced, and only the node at d may be red below a red parent.
    */
  predicate Splittable(t: Shape, d: seq<Dir>, h: int)
    requires ValidPath(t, d)
  {
    && Balanced(t, h) && NoRedRed(Put(t, d, Leaf))
    && At(t, d).Br? && NoRedRed(Recolour(At(t, d)))
    && Balanced(Recolour(At(t, d)), HeightAt(t, d, h))
    && (RedParent(t, d) ==> |d| >= 2 && !TwinReds(Above(t, d, 2)))
  }

  /** After a split the tree is balanced and has no two red nodes in a row. */
  lemma SplitBalances(t: Shape, d: seq<Dir>, h: int)
    requires ValidPath(t, d) && Splittable(t, d, h)
    requires At(t, d).red || TwinReds(At(t, d))
    ensures Balanced(SplitTree(t, d), h) && NoRedRed(SplitTree(t, d))
  {
    var n := Recolour(At(t, d));
    assert d + [] == d;
    PutInside(t, d, [], Leaf);
    if RedParent(t, d) {
      SplitBelowRed(t, d, h);
    } else {
      PutBalanced(t, d, h, n);
      if d != [] {
        PrefixValid(t, d, |d| - 1);
        InitLast(d);
        RedAboveParent(t, Init(d), Last(d));
      }
      PutSameAbove(t, d, Leaf);
      PutNoRedRed(Put(t, d, Leaf), d, n);
    }
  }

  /** What is above d does not depend on what is at d. */
  lemma {:induction false} PutSameAbove(t: Shape, d: seq<Dir>, s: Shape)
    requires ValidPath(t, d)
    ensures ValidPath(Put(t, d, s), d) && RedAbove(Put(t, d, s), d) == RedAbove(t, d)
  {
    if d != [] { PutSameAbove(Child(t, d[0]), d[1..], s); }
  }

  lemma SplitBelowRed(t: Shape, d: seq<Dir>, h: int)
    requires ValidPath(t, d) && Splittable(t, d, h) && RedParent(t, d)
    ensures Balanced(SplitTree(t, d), h) && NoRedRed(SplitTree(t, d))
  {
    var g, d1, d2 := d[..|d| - 2], d[|d| - 2], d[|d| - 1];
    GrandparentShape(t, d);
    var gp := At(t, g);
    var hg := HeightAt(t, g, h);
    HeightConcat(t, g, [d1, d2], h);
    SubtreeBalanced(t, g, h);
    PutInside(t, g, [d1, d2], Leaf);
    var base := Put(t, d, Leaf);
    SubtreeNoRedRed(base, g);
    assert NoRedRed(WithChild(gp, d1, WithChild(Child(gp, d1), d2, Leaf)));
    assert !gp.red;
    var g1 := Recoloured(gp, d1, d2);
    assert HeightAt(gp, [d1, d2], hg) == HeightAt(Child(gp, d1), [d2], Below(hg, gp.red)) by {
      assert [d1, d2][1..] == [d2];
    }
    assert HeightAt(Child(gp, d1), [d2], hg - 1) == HeightAt(Child(Child(gp, d1), d2), [], hg - 1) by {
      assert [d2][1..] == [];
    }
    assert Balanced(g1, hg);
    RepairBalances(g1, d1, d2, hg);
    var s := Repair(g1, d1, d2);
    PutBalanced(t, g, h, s);
    PutNoRedRed(base, g, s);
  }

  lemma {:induction false} HeightConcat(t: Shape, d: seq<Dir>, e: seq<Dir>, h: int)
    requires ValidPath(t, d) && ValidPath(t, d + e)
    ensures ValidPath(At(t, d), e) && HeightAt(t, d + e, h) == HeightAt(At(t, d), e, HeightAt(t, d, h))
  {
    if d == [] {
      assert [] + e == e;
    } else {
      assert (d + e)[1..] == d[1..] + e && (d + e)[0] == d[0];
      HeightConcat(Child(t, d[0]), d[1..], e, Below(h, t.red));
    }
  }

  /** Recolouring a node with two red successors keeps its black height. */
  lemma RecolourBalances(n: Shape, h: int)
    requires TwinReds(n) && Balanced(n, h) && NoRedRed(n)
    ensures !n.red && Balanced(Recolour(n), h) && NoRedRed(Recolour(n))
  {
    assert Balanced(n.l.l, h - 1) && Balanced(n.l.r, h - 1) && Balanced(n.r.l, h - 1) && Balanced(n.r.r, h - 1);
  }

  /** Removing a subtree introduces no red pair. */
  lemma {:induction false} PutLeafNoRedRed(t: Shape, d: seq<Dir>)
    requires ValidPath(t, d) && NoRedRed(t)
    ensures NoRedRed(Put(t, d, Leaf))
  {
    PutNoRedRed(t, d, Leaf);
  }

  /** The split on the way down. */
  lemma DescentSplittable(t: Shape, d: seq<Dir>)
    requires ValidPath(t, d) && RedBlackTree(t) && TwinReds(At(t, d))
    requires RedParent(t, d) ==> |d| >= 2 && !TwinReds(Above(t, d, 2))
    ensures Splittable(t, d, BlackHeight(t))
  {
    var h := BlackHeight(t);
    PutLeafNoRedRed(t, d);
    SubtreeBalanced(t, d, h);
    SubtreeNoRedRed(t, d);
    RecolourBalances(At(t, d), HeightAt(t, d, h));
  }

  /** The check after linking a new red node q at an empty place d. */
  lemma InsertSplittable(t: Shape, d: seq<Dir>, q: Shape)
    requires ValidPath(t, d) && RedBlackTree(t) && At(t, d).Leaf?
    requires q.Br? && q.red && q.l.Leaf? && q.r.Leaf?
    requires RedParent(t, d) ==> |d| >= 2 && !TwinReds(Above(t, d, 2))
    ensures ValidPath(Put(t, d, q), d) && Splittable(Put(t, d, q), d, BlackHeight(t))
  {
    var h := BlackHeight(t);
    SubtreeBalanced(t, d, h);
    PutBalanced(t, d, h, q);
    PutAt(t, d, q);
    assert d + [] == d;
    PutInside(t, d, [], q);
    PutLeafNoRedRed(t, d);
    var t' := Put(t, d, q);
    assert Put(t', d, Leaf) == Put(t, d, Leaf);
    PutHeight(t, d, q, h);
    if d != [] {
      PutPrefix(t, d, |d| - 1, q);
    }
    if RedParent(t, d) {
      PutPrefix(t, d, |d| - 2, q);
      GrandparentShape(t', d);
      GrandparentTwins(t, d, q);
    }
  }

  lemma {:induction false} PutHeight(t: Shape, d: seq<Dir>, s: Shape, h: int)
    requires ValidPath(t, d)
    ensures ValidPath(Put(t, d, s), d) && HeightAt(Put(t, d, s), d, h) == HeightAt(t, d, h)
  {
    if d != [] { PutHeight(Child(t, d[0]), d[1..], s, Below(h, t.red)); }
  }

  /** A node above d keeps its colour and its other child. */
  lemma {:induction false} PutPrefix(t: Shape, d: seq<Dir>, k: nat, s: Shape)
    requires ValidPath(t, d) && k < |d|
    ensures ValidPath(Put(t, d, s), d) && ValidPath(t, d[..k]) && ValidPath(Put(t, d, s), d[..k])
    ensures At(t, d[..k]).Br? && At(Put(t, d, s), d[..k]).Br?
    ensures var n, n' := At(t, d[..k]), At(Put(t, d, s), d[..k]);
      && n'.id == n.id && n'.key == n.key && n'.red == n.red
      && Child(n', Opposite(d[k])) == Child(n, Opposite(d[k]))
  {
    PutAt(t, d, s);
    if k > 0 {
      PutPrefix(Child(t, d[0]), d[1..], k - 1, s);
      assert d[..k][1..] == d[1..][..k - 1];
    }
  }

  lemma GrandparentTwins(t: Shape, d: seq<Dir>, q: Shape)
    requires ValidPath(t, d) && RedParent(t, d) && |d| >= 2 && !TwinReds(Above(t, d, 2))
    ensures ValidPath(Put(t, d, q), d[..|d| - 2]) && !TwinReds(At(Put(t, d, q), d[..|d| - 2]))
  {
    PutPrefix(t, d, |d| - 2, q);
    PrefixValid(t, d, |d| - 1);
    PrefixValid(t, d, |d| - 2);
    var g := d[..|d| - 2];
    assert Init(d) == g + [d[|d| - 2]];
    PathSnoc(t, g, d[|d| - 2]);
  }
}
