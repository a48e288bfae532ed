/** The deletion of tsearch.c on tree values: unchaining a node, and moving a missing black node upwards. */
module TreeShort {
  import opened RedBlack

  /** Balanced for height h, except that the subtree at d is one black node short. */
  predicate Short(t: Shape, d: seq<Dir>, h: int)
    requires ValidPath(t, d)
  {
    if d == [] then Balanced(t, h - 1)
    else
      && Short(Child(t, d[0]), d[1..], Below(h, t.red))
      && Balanced(Child(t, Opposite(d[0])), Below(h, t.red))
  }

  /** What the repair loop keeps: the tree is short at d, and only the node at d, if it is red, may have a
    * red neighbour.
    */
  predicate Repairable(t: Shape, d: seq<Dir>, h: int)
    requires ValidPath(t, d)
  {
    Short(t, d, h) && NoRedRed(Put(t, d, Leaf)) && NoRedRed(Blacken(At(t, d)))
  }

  lemma {:induction false} PutShort(t: Shape, d: seq<Dir>, h: int, s: Shape)
    requires ValidPath(t, d) && Balanced(t, h) && Balanced(s, HeightAt(t, d, h) - 1)
    ensures ValidPath(Put(t, d, s), d) && Short(Put(t, d, s), d, h)
  {
    if d != [] { PutShort(Child(t, d[0]), d[1..], Below(h, t.red), s); }
  }

  lemma {:induction false} ShortAt(t: Shape, d: seq<Dir>, h: int)
    requires ValidPath(t, d) && Short(t, d, h)
    ensures Balanced(At(t, d), HeightAt(t, d, h) - 1)
  {
    if d != [] { ShortAt(Child(t, d[0]), d[1..], Below(h, t.red)); }
  }

  /** A subtree with the missing black node restores the balance. */
  lemma {:induction false} FillShort(t: Shape, d: seq<Dir>, h: int, s: Shape)
    requires ValidPath(t, d) && Short(t, d, h) && Balanced(s, HeightAt(t, d, h))
    ensures Balanced(Put(t, d, s), h)
  {
    if d != [] { FillShort(Child(t, d[0]), d[1..], Below(h, t.red), s); }
  }

  /** Being short at d + e is being short at e inside the subtree at d. */
  lemma {:induction false} ShortInside(t: Shape, d: seq<Dir>, e: seq<Dir>, h: int)
    requires ValidPath(t, d) && ValidPath(t, d + e) && Short(t, d + e, h)
    ensures ValidPath(At(t, d), e) && Short(At(t, d), e, HeightAt(t, d, h))
  {
    if d == [] {
      assert [] + e == e;
    } else {
      assert (d + e)[1..] == d[1..] + e && (d + e)[0] == d[0];
      ShortInside(Child(t, d[0]), d[1..], e, Below(h, t.red));
    }
  }

  /** Another subtree at d, short at f, makes the tree short at d + f. */
  lemma {:induction false} ShortAgain(t: Shape, d: seq<Dir>, e: seq<Dir>, h: int, s: Shape, f: seq<Dir>)
    requires ValidPath(t, d) && ValidPath(t, d + e) && Short(t, d + e, h)
    requires ValidPath(s, f) && Short(s, f, HeightAt(t, d, h))
    ensures ValidPath(Put(t, d, s), d + f) && Short(Put(t, d, s), d + f, h)
  {
    if d == [] {
      assert [] + f == f;
    } else {
      assert (d + e)[1..] == d[1..] + e && (d + e)[0] == d[0];
      assert (d + f)[1..] == d[1..] + f && (d + f)[0] == d[0];
      ShortAgain(Child(t, d[0]), d[1..], e, Below(h, t.red), s, f);
    }
  }

  /** A balanced subtree at d instead of one that was short inside. */
  lemma {:induction false} ShortHealed(t: Shape, d: seq<Dir>, e: seq<Dir>, h: int, s: Shape)
    requires ValidPath(t, d) && ValidPath(t, d + e) && Short(t, d + e, h)
    requires Balanced(s, HeightAt(t, d, h))
    ensures Balanced(Put(t, d, s), h)
  {
    if d == [] {
    } else {
      assert (d + e)[1..] == d[1..] + e && (d + e)[0] == d[0];
      ShortHealed(Child(t, d[0]), d[1..], e, Below(h, t.red), s);
    }
  }

  // ---------------------------------------------------------------------------------------------------
  // The parent p of the short subtree r = Child(p, x), and its other child q, for height h at p.

  /** The local situation of one pass of the repair loop. */
  predicate Local(p: Shape, x: Dir, h: int) {
    && p.Br? && Short(p, [x], h) && NoRedRed(WithChild(p, x, Leaf))
    && NoRedRed(Child(p, x)) && !IsRed(Child(p, x))
  }

  /** "We know that Q can't be NULL here." */
  lemma SiblingExists(p: Shape, x: Dir, h: int)
    requires Local(p, x, h)
    ensures Child(p, Opposite(x)).Br?
    ensures Balanced(Child(p, x), Below(h, p.red) - 1) && Balanced(Child(p, Opposite(x)), Below(h, p.red))
    ensures Below(h, p.red) >= 1
  {
    assert [x][1..] == [];
    assert Short(Child(p, x), [], Below(h, p.red));
    HeightNonNegative(Child(p, x), Below(h, p.red) - 1);
  }

  lemma {:induction false} HeightNonNegative(t: Shape, h: int)
    requires Balanced(t, h)
    ensures h >= 0
  {
    if t.Br? { HeightNonNegative(t.l, Below(h, t.red)); }
  }

  /** Red brother: after the rotation r is short below two nodes more, and its new brother is black. */
  lemma RedBrother(p: Shape, x: Dir, h: int)
    requires Local(p, x, h) && IsRed(Child(p, Opposite(x)))
    ensures var t := RotateOnce(p, Opposite(x), false, true);
      && !p.red && t.Br? && !t.red && Child(t, x).Br? && Child(t, x).red && Child(t, x).id == p.id
      && Child(Child(t, x), x) == Child(p, x)
      && ValidPath(t, [x, x]) && Short(t, [x, x], h) && NoRedRed(WithChild(t, x, Leaf))
      && Local(Child(t, x), x, h - 1) && !IsRed(Child(Child(t, x), Opposite(x)))
      && NoRedRed(WithChild(Child(t, x), x, Leaf))
  {
    SiblingExists(p, x, h);
    var t := RotateOnce(p, Opposite(x), false, true);
    var q := Child(p, Opposite(x));
    assert [x, x][1..] == [x] && [x][1..] == [];
    assert Balanced(q.l, h - 1) && Balanced(q.r, h - 1);
    assert ValidPath(Child(t, x), [x]);
    assert Short(Child(t, x), [x], h - 1);
    assert NoRedRed(q);
  }

  /** Black brother with black successors: it becomes red, and the whole subtree is short. */
  lemma BlackBrother(p: Shape, x: Dir, h: int)
    requires Local(p, x, h)
    requires var q := Child(p, Opposite(x)); !IsRed(q) && (q.Br? ==> !IsRed(q.l) && !IsRed(q.r))
    ensures Child(p, Opposite(x)).Br?
    ensures var t := WithChild(p, Opposite(x), Child(p, Opposite(x)).(red := true));
      Balanced(t, h - 1) && NoRedRed(Blacken(t))
  {
    SiblingExists(p, x, h);
    var q := Child(p, Opposite(x));
    assert NoRedRed(q);
  }

  /** The inner nephew is red: it comes to the top. */
  lemma InnerNephew(p: Shape, x: Dir, h: int)
    requires Local(p, x, h)
    requires var q := Child(p, Opposite(x)); q.Br? && !q.red && IsRed(Child(q, x)) && !IsRed(Child(q, Opposite(x)))
    ensures var t := RotateTwice(p, Opposite(x), p.red, false, false);
      Balanced(t, h) && NoRedRed(t) && t.red == p.red
  {
    SiblingExists(p, x, h);
    var q := Child(p, Opposite(x));
    var n := Child(q, x);
    var hq := Below(h, p.red);
    assert Balanced(n, hq - 1) && Balanced(Child(q, Opposite(x)), hq - 1);
    assert Balanced(n.l, hq - 1) && Balanced(n.r, hq - 1);
    assert NoRedRed(q) && NoRedRed(n);
  }

  /** The outer nephew is red: it becomes black and the brother comes to the top. */
  lemma OuterNephew(p: Shape, x: Dir, h: int)
    requires Local(p, x, h)
    requires var q := Child(p, Opposite(x)); q.Br? && !q.red && IsRed(Child(q, Opposite(x)))
    ensures var p' := PaintOuter(p, x);
      p'.Br? && Child(p', Opposite(x)).Br?
    ensures var t := RotateOnce(PaintOuter(p, x), Opposite(x), p.red, false);
      Balanced(t, h) && NoRedRed(t) && t.red == p.red
  {
    SiblingExists(p, x, h);
    var q := Child(p, Opposite(x));
    var f := Child(q, Opposite(x));
    var hq := Below(h, p.red);
    assert Balanced(f, hq - 1) && Balanced(Child(q, x), hq - 1);
    assert Balanced(f.l, hq - 1) && Balanced(f.r, hq - 1);
    assert NoRedRed(q) && NoRedRed(f);
  }

  /** p with its outer grandchild on the other side of x made black. */
  function PaintOuter(p: Shape, x: Dir): Shape
    requires p.Br? && Child(p, Opposite(x)).Br?
  {
    var q := Child(p, Opposite(x));
    WithChild(p, Opposite(x), WithChild(q, Opposite(x), Blacken(Child(q, Opposite(x)))))
  }
}
