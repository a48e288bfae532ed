/** `__tdelete` of tsearch.c: unchaining a node and repairing the balance with a stack of parent slots. */
module TreeDelete {
  import opened TreeInsert
  import opened RedBlack
  import opened TreeHeap
  import opened TreeSplit
  import opened TreeOps
  import opened TreeShort
  import opened TreeUnchain
  import opened Arith

  /** The stack holds the slots of the nodes above d, from the root down. */
  ghost predicate StackFor(stack: array<Slot>, sp: nat, cell: RootCell, t: Shape, d: seq<Dir>)
    requires ValidPath(t, d)
    reads stack
  {
    && sp == |d| <= stack.Length
    && forall i :: 0 <= i < sp ==> PrefixSlot(cell, t, d, i) == stack[i]
  }

  function PrefixSlot(cell: RootCell, t: Shape, d: seq<Dir>, k: nat): (s: Slot)
    requires ValidPath(t, d) && k <= |d|
    ensures ValidPath(t, d[..k]) && s == SlotAt(cell, t, d[..k])
  {
    PrefixIsPath(t, d, k);
    SlotAt(cell, t, d[..k])
  }

  /** Pushing the slot of the node at d. */
  lemma StackGrow(stack: array<Slot>, cell: RootCell, t: Shape, d: seq<Dir>, x: Dir)
    requires ValidPath(t, d) && ValidPath(t, d + [x]) && |d| < stack.Length
    requires StackFor(stack, |d|, cell, t, d) && stack[|d|] == SlotAt(cell, t, d)
    ensures StackFor(stack, |d| + 1, cell, t, d + [x])
  {
    forall i | 0 <= i < |d| + 1
      ensures PrefixSlot(cell, t, d + [x], i) == stack[i]
    {
      if i < |d| {
        assert (d + [x])[..i] == d[..i];
        assert PrefixSlot(cell, t, d, i) == stack[i];
      } else {
        assert (d + [x])[..i] == d;
      }
    }
  }

  /** A change at or below the node at d keeps the slots above it. */
  lemma StackKept(stack: array<Slot>, sp: nat, cell: RootCell, t: Shape, d: seq<Dir>, s: Shape, k: nat)
    requires ValidPath(t, d) && StackFor(stack, sp, cell, t, d) && k <= |d|
    ensures ValidPath(t, d[..k]) && ValidPath(Put(t, d[..k], s), d[..k])
    ensures StackFor(stack, k, cell, Put(t, d[..k], s), d[..k])
  {
    PrefixIsPath(t, d, k);
    PutAt(t, d[..k], s);
    forall i | 0 <= i < k
      ensures PrefixSlot(cell, Put(t, d[..k], s), d[..k], i) == stack[i]
    {
      assert d[..k][..i] == d[..i];
      SlotPut(cell, t, d[..k], i, s);
      assert PrefixSlot(cell, t, d, i) == stack[i];
    }
  }

  /** What one pass of the repair loop finds at the parent. */
  lemma LocalAt(t: Shape, d: seq<Dir>, h: int)
    requires ValidPath(t, d) && d != [] && Repairable(t, d, h) && !IsRed(At(t, d))
    ensures ValidPath(t, Init(d)) && At(t, Init(d)).Br? && Child(At(t, Init(d)), Last(d)) == At(t, d)
    ensures Local(At(t, Init(d)), Last(d), HeightAt(t, Init(d), h))
    ensures d == Init(d) + [Last(d)]
    ensures NoRedRed(Put(t, Init(d), Leaf)) && (RedAbove(t, Init(d)) ==> !At(t, Init(d)).red)
  {
    var x := Last(d);
    InitLast(d);
    PrefixValid(t, d, |d| - 1);
    PathSnoc(t, Init(d), x);
    ShortInside(t, Init(d), [x], h);
    PutInside(t, Init(d), [x], Leaf);
    var p := At(t, Init(d));
    assert [x][1..] == [] && Put(p, [x], Leaf) == WithChild(p, x, Leaf);
    var base := Put(t, d, Leaf);
    SubtreeNoRedRed(base, Init(d));
    PutNoRedRed(base, Init(d), Leaf);
    PutSameAbove(t, Init(d), WithChild(p, x, Leaf));
    if p.red {
      RedAboveNotRed(base, Init(d));
    }
  }

  /** A pass that repairs the subtree at e for good. */
  lemma Healed(t: Shape, e: seq<Dir>, x: Dir, h: int, s: Shape)
    requires ValidPath(t, e) && ValidPath(t, e + [x]) && Short(t, e + [x], h) && NoRedRed(Put(t, e, Leaf))
    requires Balanced(s, HeightAt(t, e, h)) && NoRedRed(s) && (IsRed(s) ==> !RedAbove(t, e))
    ensures Balanced(Put(t, e, s), h) && NoRedRed(Put(t, e, s))
  {
    ShortHealed(t, e, [x], h, s);
    Rebase(t, e, Leaf, s);
    PutSameAbove(t, e, Leaf);
    PutNoRedRed(Put(t, e, Leaf), e, s);
  }

  lemma Rebase(t: Shape, e: seq<Dir>, s: Shape, s': Shape)
    requires ValidPath(t, e)
    ensures ValidPath(Put(t, e, s), e) && Put(Put(t, e, s), e, s') == Put(t, e, s')
  {
    PutAt(t, e, s);
    assert e + [] == e;
    PutInside(t, e, [], s);
  }

  /** What rearranging a subtree at i does to the whole tree. */
  predicate SameTree(t': Shape, t: Shape) {
    && Distinct(t') && Ids(t') <= Ids(t) && Keys(t') == Keys(t) && Bindings(t') == Bindings(t)
    && (Ordered(t) ==> Ordered(t'))
  }

  lemma Rearranged(t: Shape, i: seq<Dir>, s: Shape)
    requires ValidPath(t, i) && Distinct(t) && Ordered(t) && SameContents(s, At(t, i))
    ensures SameTree(Put(t, i, s), t)
  {
    ReplaceKeeps(t, i, s);
  }

  /** The brother is red: afterwards r hangs two steps below the same place and its brother is black. */
  lemma RedBrotherTree(cell: RootCell, t: Shape, e: seq<Dir>, h: int, stack: array<Slot>, sp: nat)
    returns (t': Shape, e': seq<Dir>)
    requires Distinct(t) && Ordered(t) && ValidPath(t, e) && e != [] && Repairable(t, e, h) && !IsRed(At(t, e))
    requires StackFor(stack, sp, cell, t, e)
    requires ValidPath(t, Init(e)) && At(t, Init(e)).Br? && IsRed(Child(At(t, Init(e)), Opposite(Last(e))))
    ensures t' == Put(t, Init(e), RotateOnce(At(t, Init(e)), Opposite(Last(e)), false, true))
    ensures e' == Init(e) + [Last(e), Last(e)] && ValidPath(t', e') && Repairable(t', e', h) && SameTree(t', t)
    ensures At(t', e') == At(t, e)
    ensures var p := At(t, Init(e));
      && ValidPath(t', Init(e')) && At(t', Init(e')).Br? && At(t', Init(e')).id == p.id && At(t', Init(e')).red
      && SlotAt(cell, t', Init(e')) == ChildSlot(Child(p, Opposite(Last(e))).id, Last(e))
      && !IsRed(Child(At(t', Init(e')), Opposite(Last(e))))
    ensures ValidPath(t', Init(e)) && StackFor(stack, sp - 1, cell, t', Init(e)) && sp == |Init(e')|
    ensures stack[sp - 1] == SlotAt(cell, t', Init(e)) == SlotAt(cell, t, Init(e))
  {
    var i, x := Init(e), Last(e);
    LocalAt(t, e, h);
    var p := At(t, i);
    RedBrother(p, x, HeightAt(t, i, h));
    var s := RotateOnce(p, Opposite(x), false, true);
    t', e' := Put(t, i, s), i + [x, x];
    RotateOnceKeeps(p, Opposite(x), false, true);
    Rearranged(t, i, s);
    ShortAgain(t, i, [x], h, s, [x, x]);
    PutAt(t, i, s);
    PathConcat(t', i, [x, x]);
    TwoSteps(s, x);
    assert Init(e') == i + [x];
    PathSnoc(t', i, x);
    SlotSnoc(cell, t', i, x);
    StackKept(stack, sp, cell, t, e, s, |e| - 1);
    assert PrefixSlot(cell, t, e, |e| - 1) == stack[sp - 1];
    SlotPut(cell, t, i, |i|, s);
    assert i[..|i|] == i;
    PutInside(t', i, [x, x], Leaf);
    Rebase(t, i, s, Put(s, [x, x], Leaf));
    Rebase(t, i, Leaf, Put(s, [x, x], Leaf));
    PutNoRedRed(Put(t, i, Leaf), i, Put(s, [x, x], Leaf));
  }

  lemma TwoSteps(s: Shape, x: Dir)
    requires s.Br? && Child(s, x).Br?
    ensures ValidPath(s, [x, x]) && At(s, [x, x]) == Child(Child(s, x), x)
    ensures forall l :: Put(s, [x, x], l) == WithChild(s, x, WithChild(Child(s, x), x, l))
  {
    assert [x, x][1..] == [x] && [x][1..] == [];
    var c := Child(s, x);
    PathSnoc(c, [], x);
    assert [] + [x] == [x];
    forall l
      ensures Put(s, [x, x], l) == WithChild(s, x, WithChild(Child(s, x), x, l))
    {
      assert Put(Child(s, x), [x], l) == WithChild(Child(s, x), x, Put(Child(Child(s, x), x), [], l));
    }
  }

  /** The brother is red. Q becomes the top with P below it; the slot of P is pushed. */
  method RedBrotherStep(stack: array<Slot>, sp: nat, pp: Slot, p: Node, q: Node, xl: bool,
                        ghost cell: RootCell, ghost t: Shape, ghost e: seq<Dir>, ghost h: int)
    returns (pp': Slot, ghost t': Shape, ghost e': seq<Dir>)
    requires Holds(cell, t) && Ordered(t) && ValidPath(t, e) && e != [] && Repairable(t, e, h) && !IsRed(At(t, e))
    requires StackFor(stack, sp, cell, t, e) && sp < stack.Length
    requires ValidPath(t, Init(e)) && pp == SlotAt(cell, t, Init(e)) && (xl <==> Last(e) == L)
    requires At(t, Init(e)).Br? && p == At(t, Init(e)).id
    requires IsRed(Child(At(t, Init(e)), Opposite(Last(e)))) && q == Child(At(t, Init(e)), Opposite(Last(e))).id
    modifies cell, Ids(t), stack
    ensures Holds(cell, t') && SameTree(t', t)
    ensures e' == Init(e) + [Last(e), Last(e)] && ValidPath(t', e') && Repairable(t', e', h)
    ensures At(t', e') == At(t, e)
    ensures StackFor(stack, sp + 1, cell, t', e')
    ensures ValidPath(t', Init(e')) && At(t', Init(e')).Br? && At(t', Init(e')).id == p && At(t', Init(e')).red
    ensures pp' == SlotAt(cell, t', Init(e')) && !IsRed(Child(At(t', Init(e')), Opposite(Last(e'))))
  {
    t', e' := RedBrotherTree(cell, t, e, h, stack, sp);
    RotateAt(cell, pp, p, q, if xl then R else L, false, true, t, Init(e));
    pp' := if xl then AtLeft(q) else AtRight(q);
    stack[sp] := pp';
    assert e' == (Init(e) + [Last(e)]) + [Last(e)] && Init(e') == Init(e) + [Last(e)];
    StackGrow(stack, cell, t', Init(e), Last(e));
    StackGrow(stack, cell, t', Init(e'), Last(e));
  }

  /** One step down inside the subtree at i. */
  lemma PutBelow(t: Shape, i: seq<Dir>, y: Dir, s: Shape)
    requires ValidPath(t, i) && At(t, i).Br?
    ensures ValidPath(t, i + [y]) && At(t, i + [y]) == Child(At(t, i), y)
    ensures Put(t, i + [y], s) == Put(t, i, WithChild(At(t, i), y, s))
  {
    PathSnoc(t, i, y);
    PutInside(t, i, [y], s);
    assert [y][1..] == [] && Put(At(t, i), [y], s) == WithChild(At(t, i), y, Put(Child(At(t, i), y), [], s));
  }

  /** The tree when a black brother becomes red: the parent's subtree is short now. */
  lemma BlackBrotherTree(cell: RootCell, t: Shape, e: seq<Dir>, h: int, stack: array<Slot>, sp: nat)
    requires Distinct(t) && Ordered(t) && ValidPath(t, e) && e != [] && Repairable(t, e, h) && !IsRed(At(t, e))
    requires StackFor(stack, sp, cell, t, e)
    requires ValidPath(t, Init(e)) && At(t, Init(e)).Br?
    requires var q := Child(At(t, Init(e)), Opposite(Last(e))); q.Br? && !q.red && !IsRed(q.l) && !IsRed(q.r)
    ensures var i, y := Init(e), Opposite(Last(e));
      ValidPath(t, i + [y]) && At(t, i + [y]) == Child(At(t, i), y)
    ensures var i, y := Init(e), Opposite(Last(e));
      var q := Child(At(t, i), y).(red := true);
      var t' := Put(t, i + [y], q);
      && ValidPath(t', i) && Repairable(t', i, h) && SameTree(t', t)
      && At(t', i).Br? && At(t', i).id == At(t, i).id && At(t', i).red == At(t, i).red
      && StackFor(stack, sp - 1, cell, t', i)
  {
    var i, x := Init(e), Last(e);
    var y := Opposite(x);
    LocalAt(t, e, h);
    var p := At(t, i);
    var q := Child(p, y).(red := true);
    BlackBrother(p, x, HeightAt(t, i, h));
    var s := WithChild(p, y, q);
    PutBelow(t, i, y, q);
    ColourKeeps(Child(p, y), true);
    ChildKeeps(p, y, q);
    Rearranged(t, i, s);
    assert Short(s, [], HeightAt(t, i, h));
    ShortAgain(t, i, [x], h, s, []);
    assert i + [] == i;
    PutAt(t, i, s);
    Rebase(t, i, s, Leaf);
    StackKept(stack, sp, cell, t, e, s, |e| - 1);
  }

  /** The inner nephew is red: one double rotation repairs the tree. */
  method InnerNephewStep(pp: Slot, p: Node, q: Node, xl: bool,
                         ghost cell: RootCell, ghost t: Shape, ghost e: seq<Dir>, ghost h: int)
                           returns (ghost t': Shape)
    requires Holds(cell, t) && Ordered(t) && ValidPath(t, e) && e != [] && Repairable(t, e, h) && !IsRed(At(t, e))
    requires ValidPath(t, Init(e)) && pp == SlotAt(cell, t, Init(e)) && (xl <==> Last(e) == L)
    requires At(t, Init(e)).Br? && p == At(t, Init(e)).id
    requires var qs := Child(At(t, Init(e)), Opposite(Last(e)));
      qs.Br? && !qs.red && q == qs.id && IsRed(Child(qs, Last(e))) && !IsRed(Child(qs, Opposite(Last(e))))
    modifies cell, Ids(t)
    ensures Holds(cell, t') && SameTree(t', t) && Balanced(t', h) && NoRedRed(t')
  {
    ghost var i, x := Init(e), Last(e);
    LocalAt(t, e, h);
    ghost var ps := At(t, i);
    InnerNephew(ps, x, HeightAt(t, i, h));
    RotateTwiceKeeps(ps, Opposite(x), ps.red, false, false);
    t' := Put(t, i, RotateTwice(ps, Opposite(x), ps.red, false, false));
    Rearranged(t, i, RotateTwice(ps, Opposite(x), ps.red, false, false));
    Healed(t, i, x, h, RotateTwice(ps, Opposite(x), ps.red, false, false));
    Focus(cell.root, t, i);
    SlotPointer(cell, t, i);
    RepChildren(p, ps);
    RepChildren(q, Child(ps, Opposite(x)));
    var q2 := if xl then q.left else q.right;
    RotateTwiceAt(cell, pp, p, q, q2, if xl then R else L, p.red, false, q.red, t, i);
  }

  /** The outer nephew is red: it becomes black, and one rotation repairs the tree. */
  method OuterNephewStep(pp: Slot, p: Node, q: Node, xl: bool,
                         ghost cell: RootCell, ghost t: Shape, ghost e: seq<Dir>, ghost h: int)
                           returns (ghost t': Shape)
    requires Holds(cell, t) && Ordered(t) && ValidPath(t, e) && e != [] && Repairable(t, e, h) && !IsRed(At(t, e))
    requires ValidPath(t, Init(e)) && pp == SlotAt(cell, t, Init(e)) && (xl <==> Last(e) == L)
    requires At(t, Init(e)).Br? && p == At(t, Init(e)).id
    requires var qs := Child(At(t, Init(e)), Opposite(Last(e)));
      qs.Br? && !qs.red && q == qs.id && IsRed(Child(qs, Opposite(Last(e))))
    modifies cell, Ids(t)
    ensures Holds(cell, t') && SameTree(t', t) && Balanced(t', h) && NoRedRed(t')
  {
    ghost var i, x := Init(e), Last(e);
    ghost var y := Opposite(x);
    ghost var ps := At(t, i);
    OuterNephewTree(t, e, h);
    ghost var p1 := PaintOuter(ps, x);
    t' := Put(t, i, RotateOnce(p1, y, ps.red, false));
    Focus(cell.root, t, i);
    RepChildren(p, ps);
    RepChildren(q, Child(ps, y));
    SubtreeDistinct(t, i + [y] + [y]);
    var far := if xl then q.right else q.left;
    PaintAt(cell, far, false, t, i + [y] + [y]);
    SlotPut(cell, t, i, |i|, p1);
    assert i[..|i|] == i;
    Focus(cell.root, Put(t, i, p1), i);
    SlotPointer(cell, Put(t, i, p1), i);
    RepChildren(p, p1);
    RotateAt(cell, pp, p, q, if xl then R else L, p.red, false, Put(t, i, p1), i);
  }

  lemma OuterNephewTree(t: Shape, e: seq<Dir>, h: int)
    requires Distinct(t) && Ordered(t) && ValidPath(t, e) && e != [] && Repairable(t, e, h) && !IsRed(At(t, e))
    requires ValidPath(t, Init(e)) && At(t, Init(e)).Br?
    requires
      var qs := Child(At(t, Init(e)), Opposite(Last(e)));
      qs.Br? && !qs.red && IsRed(Child(qs, Opposite(Last(e))))
    ensures var i, x, y := Init(e), Last(e), Opposite(Last(e));
      var p1 := PaintOuter(At(t, i), x);
      && p1.Br? && Child(p1, y).Br?
      && SameTree(Put(t, i, p1), t) && ValidPath(Put(t, i, p1), i) && At(Put(t, i, p1), i) == p1
      && ValidPath(t, i + [y] + [y]) && At(t, i + [y] + [y]) == Child(Child(At(t, i), y), y)
      && Put(t, i + [y] + [y], Blacken(At(t, i + [y] + [y]))) == Put(t, i, p1)
    ensures var i, y := Init(e), Opposite(Last(e));
      var s := RotateOnce(PaintOuter(At(t, i), Last(e)), y, At(t, i).red, false);
      && Put(Put(t, i, PaintOuter(At(t, i), Last(e))), i, s) == Put(t, i, s)
      && SameTree(Put(t, i, s), t) && Balanced(Put(t, i, s), h) && NoRedRed(Put(t, i, s))
  {
    var i, x := Init(e), Last(e);
    var y := Opposite(x);
    LocalAt(t, e, h);
    var ps := At(t, i);
    var far := Child(Child(ps, y), y);
    OuterNephew(ps, x, HeightAt(t, i, h));
    var p1 := PaintOuter(ps, x);
    var s := RotateOnce(p1, y, ps.red, false);
    OuterKeeps(ps, x, s);
    Rearranged(t, i, s);
    Rearranged(t, i, p1);
    Healed(t, i, x, h, s);
    Rebase(t, i, p1, s);
    PutAt(t, i, p1);
    PutBelow(t, i, y, WithChild(Child(ps, y), y, Blacken(far)));
    PutBelow(t, i + [y], y, Blacken(far));
  }

  lemma OuterKeeps(p: Shape, x: Dir, s: Shape)
    requires p.Br? && Child(p, Opposite(x)).Br? && s == RotateOnce(PaintOuter(p, x), Opposite(x), p.red, false)
    ensures SameContents(PaintOuter(p, x), p) && SameContents(s, p)
  {
    var q := Child(p, Opposite(x));
    BlackenKeeps(Child(q, Opposite(x)));
    ChildKeeps(q, Opposite(x), Blacken(Child(q, Opposite(x))));
    ChildKeeps(p, Opposite(x), WithChild(q, Opposite(x), Blacken(Child(q, Opposite(x)))));
    RotateOnceKeeps(PaintOuter(p, x), Opposite(x), p.red, false);
  }

  /** One pass of the repair loop. It either repairs the tree for good (r' is null, the stack empty) or
    * moves the short place upwards, or ends at a red node.
    */
  method RepairStep(stack: array<Slot>, sp: nat, r: Node?, ghost cell: RootCell, ghost t: Shape, ghost e: seq<Dir>,
      ghost h: int)
    returns (sp': nat, r': Node?, ghost t': Shape, ghost e': seq<Dir>)
    requires Holds(cell, t) && Ordered(t) && ValidPath(t, e) && e != [] && Repairable(t, e, h) && !IsRed(At(t, e))
    requires StackFor(stack, sp, cell, t, e) && sp < stack.Length && Rep(r, At(t, e))
    modifies cell, Ids(t), stack
    ensures Holds(cell, t') && SameTree(t', t)
    ensures r' == null ==> sp' == 0 && Balanced(t', h) && NoRedRed(t')
    ensures r' != null ==>
      && ValidPath(t', e') && Repairable(t', e', h) && Rep(r', At(t', e')) && StackFor(stack, sp', cell, t', e')
      && (sp' < sp || (sp' == sp && IsRed(At(t', e'))))
  {
    assert PrefixSlot(cell, t, e, sp - 1) == stack[sp - 1];
    var pp := stack[sp - 1];
    LocalAt(t, e, h);
    LoadSlot(cell, t, Init(e));
    SlotPointer(cell, t, Init(e));
    var p := pp.Load();
    ghost var ps := At(t, Init(e));
    RepChildren(p, ps);
    SiblingExists(ps, Last(e), HeightAt(t, Init(e), h));
    SubtreeDistinct(t, Init(e));
    ChildrenDiffer(p, ps);
    var xl := r == p.left;
    var q := if xl then p.right else p.left;
    RepChildren(q, Child(ps, Opposite(Last(e))));
    if q.red {
      ghost var t1, e1;
      pp, t1, e1 := RedBrotherStep(stack, sp, pp, p, q, xl, cell, t, e, h);
      LoadSlot(cell, t1, Init(e1));
      SlotPointer(cell, t1, Init(e1));
      RepChildren(p, At(t1, Init(e1)));
      LocalAt(t1, e1, h);
      SiblingExists(At(t1, Init(e1)), Last(e1), HeightAt(t1, Init(e1), h));
      q := if xl then p.right else p.left;
      sp', r', t', e' := BlackBrotherPass(stack, sp + 1, pp, p, q, xl, cell, t1, e1, h);
    } else {
      sp', r', t', e' := BlackBrotherPass(stack, sp, pp, p, q, xl, cell, t, e, h);
    }
  }

  lemma ChildrenDiffer(p: Node, t: Shape)
    requires t.Br? && Rep(p, t) && Distinct(t) && (t.l.Br? || t.r.Br?)
    ensures p.left != p.right
  {
    RepChildren(p, t);
  }

  /** The rest of a pass, with a black brother. */
  method BlackBrotherPass(stack: array<Slot>, sp: nat, pp: Slot, p: Node, q: Node, xl: bool,
                          ghost cell: RootCell, ghost t: Shape, ghost e: seq<Dir>, ghost h: int)
    returns (sp': nat, r': Node?, ghost t': Shape, ghost e': seq<Dir>)
    requires Holds(cell, t) && Ordered(t) && ValidPath(t, e) && e != [] && Repairable(t, e, h) && !IsRed(At(t, e))
    requires StackFor(stack, sp, cell, t, e)
    requires ValidPath(t, Init(e)) && pp == SlotAt(cell, t, Init(e)) && (xl <==> Last(e) == L)
    requires At(t, Init(e)).Br? && p == At(t, Init(e)).id
    requires var qs := Child(At(t, Init(e)), Opposite(Last(e))); qs.Br? && !qs.red && q == qs.id
    modifies cell, Ids(t)
    ensures Holds(cell, t') && SameTree(t', t)
    ensures r' == null ==> sp' == 0 && Balanced(t', h) && NoRedRed(t')
    ensures r' != null ==>
      && ValidPath(t', e') && Repairable(t', e', h) && Rep(r', At(t', e')) && StackFor(stack, sp', cell, t', e')
      && sp' == sp - 1 && IsRed(At(t', e')) == At(t, Init(e)).red
  {
    ghost var i, y := Init(e), Opposite(Last(e));
    Focus(cell.root, t, i);
    SlotPointer(cell, t, i);
    RepChildren(p, At(t, i));
    RepChildren(q, Child(At(t, i), y));
    var near, far := if xl then q.left else q.right, if xl then q.right else q.left;
    e' := i;
    if (near == null || !near.red) && (far == null || !far.red) {
      BlackBrotherTree(cell, t, e, h, stack, sp);
      SubtreeDistinct(t, i + [y]);
      PaintAt(cell, q, true, t, i + [y]);
      t' := Put(t, i + [y], Child(At(t, i), y).(red := true));
      Focus(cell.root, t', i);
      SlotPointer(cell, t', i);
      sp', r' := sp - 1, p;
    } else {
      if far == null || !far.red {
        t' := InnerNephewStep(pp, p, q, xl, cell, t, e, h);
      } else {
        t' := OuterNephewStep(pp, p, q, xl, cell, t, e, h);
      }
      sp', r' := 0, null;
    }
  }

  /** The repair loop: the whole tree is balanced afterwards. */
  method RepairLoop(stack: array<Slot>, sp: nat, r: Node?, ghost cell: RootCell, ghost t: Shape, ghost e: seq<Dir>,
      ghost h: int)
    returns (ghost t': Shape)
    requires Holds(cell, t) && Ordered(t) && ValidPath(t, e) && Repairable(t, e, h)
    requires StackFor(stack, sp, cell, t, e) && sp < stack.Length && Rep(r, At(t, e))
    modifies cell, Ids(t), stack
    ensures Holds(cell, t') && SameTree(t', t) && RedBlackTree(t')
  {
    t' := t;
    var sp': nat, r': Node? := sp, r;
    ghost var e' := e;
    ghost var done := false;
    while sp' > 0 && (r' == null || !r'.red)
      invariant Holds(cell, t') && SameTree(t', t) && sp' < stack.Length
      invariant done ==> r' == null && sp' == 0 && Balanced(t', h) && NoRedRed(t')
      invariant !done ==>
        ValidPath(t', e') && Repairable(t', e', h) && Rep(r', At(t', e')) && StackFor(stack, sp', cell, t', e')
      decreases sp', r' == null || !r'.red
    {
      sp', r', t', e' := RepairStep(stack, sp', r', cell, t', e', h);
      done := r' == null;
    }
    if done {
      BalancedHeight(t', h);
    } else {
      BlackenRepairs(t', e', h);
    }
    if r' != null {
      ghost var s := Blacken(At(t', e'));
      BlackenKeeps(At(t', e'));
      Rearranged(t', e', s);
      SubtreeDistinct(t', e');
      PaintAt(cell, r', false, t', e');
      t' := Put(t', e', s);
    }
  }

  /** Making the node at the short place black ends the repair, if it is red or the root. */
  lemma BlackenRepairs(t: Shape, e: seq<Dir>, h: int)
    requires ValidPath(t, e) && Repairable(t, e, h) && Ordered(t) && (e == [] || IsRed(At(t, e)))
    ensures NoRedRed(Put(t, e, Blacken(At(t, e))))
        && Balanced(Put(t, e, Blacken(At(t, e))), BlackHeight(Put(t, e, Blacken(At(t, e)))))
    ensures At(t, e).Leaf? ==> RedBlackTree(t)
  {
    var s := Blacken(At(t, e));
    ShortAt(t, e, h);
    Rebase(t, e, Leaf, s);
    PutNoRedRed(Put(t, e, Leaf), e, s);
    if IsRed(At(t, e)) {
      assert Balanced(s, HeightAt(t, e, h));
      FillShort(t, e, h, s);
      BalancedHeight(Put(t, e, s), h);
    } else {
      BalancedHeight(t, h - 1);
    }
  }

  const STACK_SIZE: nat := 100

  /** How `__tdelete` ends: no tree or no such key (NULL), the stack full (abort()), or the node it returns. */
  datatype Outcome = NotFound | Aborted | Deleted(parent: Node)

  /** The node `__tdelete` returns: the parent of the key's node, or the root if that is the root itself. */
  ghost predicate ParentOfKey(t: Shape, key: int, p: Node) {
    exists d ::
      && ValidPath(t, d) && OnPath(t, key, d) && At(t, d).Br? && At(t, d).key == key
      && p == if d == [] then t.id else Above(t, d, 1).id
  }

  /** The node above d is not one of those from d on. */
  lemma ParentOutside(t: Shape, d: seq<Dir>, key: int)
    requires ValidPath(t, d) && OnPath(t, key, d) && Distinct(t) && At(t, d).Br? && At(t, d).key == key
    ensures d != [] ==> Above(t, d, 1).id !in Ids(At(t, d)) && t.key != key
    ensures d == [] ==> t.key == key
  {
    if d != [] {
      InitLast(d);
      var p := Above(t, d, 1);
      PathConcat(t, Init(d), [Last(d)]);
      assert [Last(d)][1..] == [] && At(p, [Last(d)]) == Child(p, Last(d));
      SubtreeDistinct(t, Init(d));
    }
  }

  /** What is known of the node that is returned: it may be used, unless the key's node is the root and is freed. */
  ghost predicate Returns(t: Shape, t': Shape, key: int, p: Node, freed: Node) {
    && ParentOfKey(t, key, p) && (exists n :: n in Ids(t) && Freed(t, t', key, n, freed))
    && (p in Ids(t') <==> !(t.Br? && t.key == key && (t.l.Leaf? || t.r.Leaf?)))
  }

  lemma ReturnedNode(t: Shape, t': Shape, d: seq<Dir>, key: int, p: Node, freed: Node)
    requires ValidPath(t, d) && OnPath(t, key, d) && Distinct(t) && Ordered(t) && At(t, d).Br? && At(t, d).key == key
    requires p == if d == [] then t.id else Above(t, d, 1).id
    requires Freed(t, t', key, At(t, d).id, freed) && freed in Ids(At(t, d))
    requires freed == At(t, d).id <==> At(t, d).l.Leaf? || At(t, d).r.Leaf?
    ensures Returns(t, t', key, p, freed)
  {
    ParentOutside(t, d, key);
    Found(t, d);
    if d != [] {
      Found(t, Init(d));
    }
  }

  /** Stores the slot of the node at d, one step further down. */
  method Push(stack: array<Slot>, sp: nat, slot: Slot, ghost cell: RootCell, ghost t: Shape, ghost d: seq<Dir>,
      ghost x: Dir)
    requires ValidPath(t, d) && ValidPath(t, d + [x]) && StackFor(stack, sp, cell, t, d) && sp < stack.Length
    requires slot == SlotAt(cell, t, d)
    modifies stack
    ensures StackFor(stack, sp + 1, cell, t, d + [x])
  {
    stack[sp] := slot;
    StackGrow(stack, cell, t, d, x);
  }

  /** The way down to the key. */
  method FindNode(key: int, stack: array<Slot>, cell: RootCell, ghost t: Shape)
    returns (outcome: Outcome, sp: nat, rootp: Slot, ghost d: seq<Dir>)
    requires Holds(cell, t) && RedBlackTree(t) && t.Br? && stack.Length == STACK_SIZE
    modifies stack
    ensures outcome.NotFound? ==> key !in Keys(t)
    ensures outcome.Aborted? ==> Size(t) >= Pow2(49)
    ensures outcome.Deleted? ==>
      && ValidPath(t, d) && OnPath(t, key, d) && At(t, d).Br? && At(t, d).key == key
      && rootp == SlotAt(cell, t, d) && StackFor(stack, sp, cell, t, d)
      && outcome.parent == (if d == [] then t.id else Above(t, d, 1).id)
  {
    sp, rootp, d := 0, AtRoot(cell), [];
    var p := cell.root;
    Existing(t);
    while true
      invariant ValidPath(t, d) && OnPath(t, key, d) && At(t, d).Br?
      invariant rootp == SlotAt(cell, t, d) && StackFor(stack, sp, cell, t, d)
      invariant Holds(cell, t)
      invariant p == if d == [] then t.id else Above(t, d, 1).id
      decreases Size(At(t, d))
    {
      LoadSlot(cell, t, d);
      var root := rootp.Load();
      var cmp := key - root.key;
      if cmp == 0 {
        break;
      }
      if sp == STACK_SIZE {
        LongPath(t, d);
        return Aborted, sp, rootp, d;
      }
      ghost var x := Toward(At(t, d), key);
      PathSnoc(t, d, x);
      Push(stack, sp, rootp, cell, t, d, x);
      sp := sp + 1;
      p := root;
      rootp := if cmp < 0 then AtLeft(root) else AtRight(root);
      SlotSnoc(cell, t, d, x);
      OnPathSnoc(t, key, d);
      assert (d + [x])[..|d + [x]| - 1] == d;
      d := d + [x];
      LoadSlot(cell, t, d);
      if rootp.Load() == null {
        Absent(t, d, key);
        return NotFound, sp, rootp, d;
      }
    }
    outcome := Deleted(p);
  }

  /** A path of a hundred nodes needs a tree of at least 2^49 nodes. */
  lemma LongPath(t: Shape, d: seq<Dir>)
    requires RedBlackTree(t) && ValidPath(t, d) && |d| >= STACK_SIZE - 1
    ensures Size(t) >= Pow2(49)
  {
    if Size(t) < Pow2(49) {
      PathFitsStack(t, d, 49);
    }
  }

  lemma LoadNode(cell: RootCell, t: Shape, d: seq<Dir>)
    requires ValidPath(t, d) && At(t, d).Br? && Holds(cell, t)
    ensures SlotAt(cell, t, d).Load() == At(t, d).id
    ensures At(t, d).id.left == null <==> At(t, d).l.Leaf?
  {
    LoadSlot(cell, t, d);
  }

  /** The way further down to the successor of the node at d. */
  method FindSuccessor(root: Node, rootp: Slot, stack: array<Slot>, sp0: nat, ghost cell: RootCell, ghost t: Shape,
      ghost d: seq<Dir>)
    returns (full: bool, sp: nat, unchained: Node, ghost ls: seq<Dir>, ghost e: seq<Dir>)
    requires Holds(cell, t) && RedBlackTree(t) && stack.Length == STACK_SIZE
    requires ValidPath(t, d) && At(t, d).Br? && At(t, d).id == root && rootp == SlotAt(cell, t, d)
    requires At(t, d).r.Br? && StackFor(stack, sp0, cell, t, d)
    modifies stack
    ensures full ==> Size(t) >= Pow2(49)
    ensures !full ==>
      && SuccessorPath(t, d, ls, e) && At(t, e).l.Leaf? && unchained == At(t, e).id
      && StackFor(stack, sp, cell, t, e)
  {
    sp, ls, unchained := sp0, [], root;
    var parent, up := rootp, AtRight(root);
    ghost var above := d;
    e := d + [R];
    SuccessorStart(cell, t, d);
    while true
      invariant Holds(cell, t) && SuccessorPath(t, d, ls, e) && above == Init(e) && ValidPath(t, above)
      invariant up == SlotAt(cell, t, e) && parent == SlotAt(cell, t, above)
      invariant StackFor(stack, sp, cell, t, above)
      decreases Size(At(t, e))
    {
      if sp == STACK_SIZE {
        LongPath(t, above);
        return true, sp, root, ls, e;
      }
      InitLast(e);
      Push(stack, sp, parent, cell, t, above, Last(e));
      sp := sp + 1;
      parent := up;
      LoadNode(cell, t, e);
      unchained := up.Load();
      if unchained.left == null {
        break;
      }
      up := AtLeft(unchained);
      SuccessorStep(cell, t, d, ls, e);
      above, e, ls := e, e + [L], ls + [L];
    }
    full := false;
  }

  /** e leads from d one step to the right and then only to the left. */
  predicate SuccessorPath(t: Shape, d: seq<Dir>, ls: seq<Dir>, e: seq<Dir>) {
    && e == d + [R] + ls && AllLeft(ls) && ValidPath(t, d) && At(t, d).Br?
    && ValidPath(t, e) && At(t, e).Br? && ValidPath(At(t, d).r, ls) && At(t, e) == At(At(t, d).r, ls)
  }

  lemma SuccessorStart(cell: RootCell, t: Shape, d: seq<Dir>)
    requires ValidPath(t, d) && At(t, d).Br? && At(t, d).r.Br?
    ensures SuccessorPath(t, d, [], d + [R]) && SlotAt(cell, t, d + [R]) == AtRight(At(t, d).id) && Init(d + [R]) == d
    ensures forall n :: n in Ids(t) ==> allocated(n)
  {
    Existing(t);
    PathSnoc(t, d, R);
    SlotSnoc(cell, t, d, R);
    assert d + [R] + [] == d + [R];
  }

  lemma SuccessorStep(cell: RootCell, t: Shape, d: seq<Dir>, ls: seq<Dir>, e: seq<Dir>)
    requires SuccessorPath(t, d, ls, e) && At(t, e).l.Br?
    ensures SuccessorPath(t, d, ls + [L], e + [L]) && At(t, e + [L]) == At(t, e).l
    ensures SlotAt(cell, t, e + [L]) == AtLeft(At(t, e).id) && Init(e + [L]) == e
  {
    PathSnoc(t, e, L);
    SlotSnoc(cell, t, e, L);
    PathSnoc(At(t, d).r, ls, L);
    assert d + [R] + (ls + [L]) == e + [L];
  }

  /** Chains the only child of the unchained node into its parent. */
  method Unchain(stack: array<Slot>, sp: nat, rootp: Slot, unchained: Node, ghost cell: RootCell, ghost t: Shape,
      ghost e: seq<Dir>)
    returns (r: Node?)
    requires Holds(cell, t) && ValidPath(t, e) && Unchainable(At(t, e)) && unchained == At(t, e).id
    requires StackFor(stack, sp, cell, t, e) && (e == [] ==> rootp == AtRoot(cell))
    modifies cell, Ids(t)
    ensures Rep(cell.root, Put(t, e, OnlyChild(At(t, e)))) && Rep(r, OnlyChild(At(t, e)))
    ensures unchained.key == At(t, e).key && unchained.red == At(t, e).red
  {
    ghost var u := At(t, e);
    Existing(t);
    Focus(cell.root, t, e);
    SlotPointer(cell, t, e);
    OutsideIds(t, e);
    SubtreeDistinct(t, e);
    RepChildren(unchained, u);
    r := unchained.left;
    if r == null {
      r := unchained.right;
    }
    var slot := rootp;
    if sp != 0 {
      assert PrefixSlot(cell, t, e, sp - 1) == stack[sp - 1];
      ParentSlot(cell, t, e);
      var q := stack[sp - 1].Load();
      slot := if unchained == q.right then AtRight(q) else AtLeft(q);
    }
    StoreAt(cell, slot, r, t, e);
    Unfocus(cell.root, t, e, OnlyChild(u));
  }

  /** The parent of the node at e, and which of its two pointers leads to e. */
  lemma ParentSlot(cell: RootCell, t: Shape, e: seq<Dir>)
    requires Holds(cell, t) && ValidPath(t, e) && e != [] && At(t, e).Br?
    ensures ValidPath(t, Init(e)) && At(t, Init(e)).Br? && SlotAt(cell, t, Init(e)).Load() == At(t, Init(e)).id
    ensures var q := At(t, Init(e)).id;
      SlotAt(cell, t, e) == if At(t, e).id == q.right then AtRight(q) else AtLeft(q)
  {
    PrefixValid(t, e, |e| - 1);
    InitLast(e);
    LoadSlot(cell, t, Init(e));
    SlotSnoc(cell, t, Init(e), Last(e));
    PathSnoc(t, Init(e), Last(e));
    SubtreeDistinct(t, Init(e));
    RepChildren(At(t, Init(e)).id, At(t, Init(e)));
  }

  /** root->key = unchained->key */
  method SetKeyAt(root: Node, k: int, ghost cell: RootCell, ghost t: Shape, ghost d: seq<Dir>)
    requires Holds(cell, t) && ValidPath(t, d) && At(t, d).Br? && root == At(t, d).id
    modifies root`key
    ensures Rep(cell.root, Put(t, d, At(t, d).(key := k)))
  {
    Focus(cell.root, t, d);
    OutsideIds(t, d);
    SubtreeDistinct(t, d);
    Existing(t);
    root.key := k;
    Unfocus(cell.root, t, d, At(t, d).(key := k));
  }

  /** The stack stays right when only keys and the subtree at e change. */
  lemma StackUnchained(stack: array<Slot>, sp: nat, cell: RootCell, t: Shape, e: seq<Dir>, s: Shape, t2: Shape)
    requires ValidPath(t, e) && StackFor(stack, sp, cell, t, e)
    requires ValidPath(Put(t, e, s), e) && SameColours(Put(t, e, s), t2)
    ensures ValidPath(t2, e) && StackFor(stack, sp, cell, t2, e)
  {
    var t1 := Put(t, e, s);
    assert e[..|e|] == e;
    StackKept(stack, sp, cell, t, e, s, |e|);
    SameColoursPath(t1, t2, e, Leaf);
    forall i | 0 <= i < sp
      ensures PrefixSlot(cell, t2, e, i) == stack[i]
    {
      PrefixIsPath(t1, e, i);
      SameColoursSlot(cell, t1, t2, e[..i]);
      assert PrefixSlot(cell, t1, e, i) == stack[i];
    }
  }

  /** Unchaining the successor, seen from the node d whose key it replaces. */
  lemma UnchainedParts(t: Shape, d: seq<Dir>, ls: seq<Dir>, e: seq<Dir>)
    requires Distinct(t) && SuccessorPath(t, d, ls, e) && At(t, e).l.Leaf?
    ensures var u := At(t, e);
      var t1 := Put(t, e, u.r);
      && ValidPath(t1, e) && At(t1, e) == u.r
      && ValidPath(t1, d) && At(t1, d).Br? && At(t1, d).id == At(t, d).id && u.id != At(t, d).id
      && Unchained(t, d, ls) == Put(t1, d, At(t1, d).(key := u.key))
      && SameColours(t1, Unchained(t, d, ls))
    ensures ValidPath(Unchained(t, d, ls), e) && At(Unchained(t, d, ls), e) == At(t, e).r
  {
    var n, u := At(t, d), At(t, e);
    var way := [R] + ls;
    var t1, t2 := Put(t, e, u.r), Unchained(t, d, ls);
    var n1 := n.(r := Put(n.r, ls, u.r));
    var n2 := n1.(key := u.key);
    assert e == d + way && way[1..] == ls && way[0] == R;
    assert ValidPath(n, way) && Put(n, way, u.r) == n1;
    PutInside(t, d, way, u.r);
    PutAt(t, e, u.r);
    PutAt(t, d, n1);
    assert SameColours(n1, n2) by {
      SameColoursRefl(n1.l);
      SameColoursRefl(n1.r);
    }
    SameColoursPut(t, d, n1, n2);
    SubtreeDistinct(t, d);
    SubtreeDistinct(n.r, ls);
    PutAt(t, d, n2);
    PutAt(n.r, ls, u.r);
    assert ValidPath(n2, way) && At(n2, way) == At(n2.r, ls);
    PathConcat(t2, d, way);
  }

  /** What is left to do after unchaining. */
  lemma UnchainedBalance(t: Shape, e: seq<Dir>, t2: Shape)
    requires Distinct(t) && RedBlackTree(t) && ValidPath(t, e) && Unchainable(At(t, e))
    requires SameColours(Put(t, e, OnlyChild(At(t, e))), t2) && Ordered(t2)
    ensures Distinct(t2) && Ids(t2) <= Ids(t)
    ensures At(t, e).red ==> RedBlackTree(t2)
    ensures !At(t, e).red ==> ValidPath(t2, e) && Repairable(t2, e, BlackHeight(t))
  {
    var u := At(t, e);
    var t1, h := Put(t, e, OnlyChild(u)), BlackHeight(t);
    UnchainBalance(t, e, h);
    SubtreeDistinct(t, e);
    PutDistinct(t, e, OnlyChild(u), {});
    SameColoursBalance(t1, t2, h);
    if u.red {
      BalancedHeight(t2, h);
    } else {
      SameColoursRepairable(t1, t2, e, h);
    }
  }

  /** Repairing frees nothing more. */
  lemma StillFreed(t: Shape, t1: Shape, t2: Shape, key: int, n: Node, freed: Node)
    requires Freed(t, t1, key, n, freed) && SameTree(t2, t1)
    ensures Freed(t, t2, key, n, freed)
  {
    SameNodes(t2, t1);
  }

  /** The key's node has at most one child: it is unchained itself. */
  method DeleteNode(key: int, root: Node, rootp: Slot, stack: array<Slot>, sp: nat, ghost cell: RootCell,
      ghost t: Shape, ghost d: seq<Dir>)
    returns (ghost t': Shape)
    requires Holds(cell, t) && RedBlackTree(t) && sp < stack.Length
    requires ValidPath(t, d) && OnPath(t, key, d) && Unchainable(At(t, d)) && At(t, d).key == key && At(t, d).id == root
    requires rootp == SlotAt(cell, t, d) && StackFor(stack, sp, cell, t, d)
    modifies cell, Ids(t), stack
    ensures Holds(cell, t') && RedBlackTree(t') && Keys(t') == Keys(t) - {key} && Freed(t, t', key, root, root)
  {
    ghost var u := At(t, d);
    UnchainFrees(t, d);
    UnchainRemoves(t, d, key);
    t' := Put(t, d, OnlyChild(u));
    SameColoursRefl(t');
    UnchainedBalance(t, d, t');
    PutAt(t, d, OnlyChild(u));
    StackUnchained(stack, sp, cell, t, d, OnlyChild(u), t');
    Existing(t);
    var r := Unchain(stack, sp, rootp, root, cell, t, d);
    if !root.red {
      ghost var t1 := t';
      t' := RepairLoop(stack, sp, r, cell, t1, d, BlackHeight(t));
      StillFreed(t, t1, t', key, root, root);
    }
  }

  /** The key's node is overwritten by its successor, which is unchained instead. */
  method DeleteSuccessor(key: int, root: Node, rootp: Slot, unchained: Node, stack: array<Slot>, sp: nat,
                         ghost cell: RootCell, ghost t: Shape, ghost d: seq<Dir>, ghost ls: seq<Dir>, ghost e: seq<Dir>)
    returns (ghost t': Shape)
    requires Holds(cell, t) && RedBlackTree(t) && sp < stack.Length
    requires ValidPath(t, d) && OnPath(t, key, d) && At(t, d).Br? && At(t, d).key == key && At(t, d).id == root
    requires SuccessorPath(t, d, ls, e) && At(t, e).l.Leaf? && unchained == At(t, e).id
    requires StackFor(stack, sp, cell, t, e)
    modifies cell, Ids(t), stack
    ensures Holds(cell, t') && RedBlackTree(t') && Keys(t') == Keys(t) - {key} && Freed(t, t', key, root, unchained)
    ensures unchained in Ids(At(t, d)) && unchained != root
  {
    ghost var u := At(t, e);
    SuccessorFrees(t, d, ls);
    ghost var t1 := Put(t, e, OnlyChild(u));
    t' := Unchained(t, d, ls);
    SuccessorRemoves(t, d, ls, key);
    UnchainedParts(t, d, ls, e);
    UnchainedBalance(t, e, t');
    StackUnchained(stack, sp, cell, t, e, OnlyChild(u), t');
    SameColoursBalance(t1, t', 0);
    Existing(t);
    Found(t, d);
    var r := Unchain(stack, sp, rootp, unchained, cell, t, e);
    if unchained != root {
      SetKeyAt(root, unchained.key, cell, t1, d);
    }
    if !unchained.red {
      ghost var t2 := t';
      Focus(cell.root, t2, e);
      t' := RepairLoop(stack, sp, r, cell, t2, e, BlackHeight(t));
      StillFreed(t, t2, t', key, root, unchained);
    }
  }

  /** Deletes a key. */
  method Tdelete(key: int, vrootp: RootCell?, ghost t: Shape)
    returns (outcome: Outcome, ghost t': Shape, ghost freed: Node?)
    requires vrootp != null ==> Holds(vrootp, t) && RedBlackTree(t)
    modifies if vrootp != null then {vrootp} + Ids(t) else {}
    ensures vrootp == null ==> outcome == NotFound
    ensures vrootp != null ==>
      && Holds(vrootp, t') && RedBlackTree(t')
      && (outcome.NotFound? ==> key !in Keys(t) && t' == t)
      && (outcome.Aborted? ==> Size(t) >= Pow2(49) && t' == t)
      && (outcome.Deleted? ==>
            && key in Keys(t) && Keys(t') == Keys(t) - {key}
            && freed != null && Returns(t, t', key, outcome.parent, freed))
  {
    t', freed := t, null;
    if vrootp == null || vrootp.root == null {
      return NotFound, t, null;
    }
    var stack := new Slot[STACK_SIZE](_ => NoSlot);
    var sp, rootp;
    ghost var d;
    Existing(t);
    outcome, sp, rootp, d := FindNode(key, stack, vrootp, t);
    if !outcome.Deleted? {
      return outcome, t, null;
    }
    LoadSlot(vrootp, t, d);
    Found(t, d);
    var root := rootp.Load();
    if root.left == null || root.right == null {
      if sp == STACK_SIZE {
        LongPath(t, d);
        return Aborted, t, null;
      }
      t' := DeleteNode(key, root, rootp, stack, sp, vrootp, t, d);
      freed := root;
    } else {
      var full, unchained;
      ghost var ls, e;
      full, sp, unchained, ls, e := FindSuccessor(root, rootp, stack, sp, vrootp, t, d);
      if full || sp == STACK_SIZE {
        if !full { LongPath(t, e); }
        return Aborted, t, null;
      }
      t' := DeleteSuccessor(key, root, rootp, unchained, stack, sp, vrootp, t, d, ls, e);
      freed := unchained;
    }
    ReturnedNode(t, t', d, key, outcome.parent, freed);
  }
}
