/** Changing a tree in memory: recolouring and rotations, each proved against its value. */
module TreeOps {
  import opened RedBlack
  import opened TreeHeap
  import opened TreeSplit

  /** "This node becomes red, its successors black." */
  method RecolourInPlace(root: Node, ghost n: Shape)
    requires n.Br? && Rep(root, n) && Distinct(n)
    modifies Ids(n)
    ensures Rep(root, Recolour(n))
  {
    root.red := true;
    if root.right != null {
      root.right.red := false;
    }
    if root.left != null {
      root.left.red := false;
    }
  }

  /** One rotation of the subtree at gp: its child in direction d becomes the top. */
  method RotateNodes(gp: Node, p: Node, d: Dir, topRed: bool, oldRed: bool, ghost g: Shape)
    requires g.Br? && Child(g, d).Br? && p == Child(g, d).id && Rep(gp, g) && Distinct(g)
    modifies gp, p
    ensures Rep(p, RotateOnce(g, d, topRed, oldRed))
  {
    p.red := topRed;
    gp.red := oldRed;
    if d == L {
      gp.left := p.right;
      p.right := gp;
    } else {
      gp.right := p.left;
      p.left := gp;
    }
  }

  /** A double rotation: the inner grandchild n becomes the top. */
  method RotateNodesTwice(gp: Node, p: Node, n: Node, d: Dir, topRed: bool, oldRed: bool, midRed: bool, ghost g: Shape)
    requires g.Br? && Child(g, d).Br? && Child(Child(g, d), Opposite(d)).Br?
    requires p == Child(g, d).id && n == Child(Child(g, d), Opposite(d)).id && Rep(gp, g) && Distinct(g)
    modifies gp, p, n
    ensures Rep(n, RotateTwice(g, d, topRed, oldRed, midRed))
  {
    if d == R {
      LiftLeftChild(gp, p, n, topRed, oldRed, midRed, g);
    } else {
      LiftRightChild(gp, p, n, topRed, oldRed, midRed, g);
    }
  }

  /** Child is left of parent, parent is right of grandparent. */
  method LiftLeftChild(gp: Node, p: Node, n: Node, topRed: bool, oldRed: bool, midRed: bool, ghost g: Shape)
    requires g.Br? && g.r.Br? && g.r.l.Br?
    requires p == g.r.id && n == g.r.l.id && Rep(gp, g) && Distinct(g)
    modifies gp, p, n
    ensures Rep(n, RotateTwice(g, R, topRed, oldRed, midRed))
  {
    ghost var a, b, c, e := g.l, g.r.l.l, g.r.l.r, g.r.r;
    InnerParts(gp, p, n, R, g);
    Paint(gp, p, n, topRed, oldRed, midRed, gp.left, a, n.left, b, n.right, c, p.right, e);
    RelinkLeftChild(gp, p, n, a, b, c, e);
    ghost var t := RotateTwice(g, R, topRed, oldRed, midRed);
    JoinRep(gp, t.l);
    JoinRep(p, t.r);
    JoinRep(n, t);
  }

  method RelinkLeftChild(gp: Node, p: Node, n: Node, ghost a: Shape, ghost b: Shape, ghost c: Shape, ghost e: Shape)
    requires gp != p && gp != n && p != n && {gp, p, n} !! Ids(a) + Ids(b) + Ids(c) + Ids(e)
    requires Rep(gp.left, a) && Rep(n.left, b) && Rep(n.right, c) && Rep(p.right, e)
    modifies gp`right, p`left, n`left, n`right
    ensures n.left == gp && n.right == p
    ensures Rep(gp.left, a) && Rep(gp.right, b) && Rep(p.left, c) && Rep(p.right, e)
  {
    p.left := n.right;
    n.right := p;
    gp.right := n.left;
    n.left := gp;
  }

  /** Child is right of parent, parent is left of grandparent. */
  method LiftRightChild(gp: Node, p: Node, n: Node, topRed: bool, oldRed: bool, midRed: bool, ghost g: Shape)
    requires g.Br? && g.l.Br? && g.l.r.Br?
    requires p == g.l.id && n == g.l.r.id && Rep(gp, g) && Distinct(g)
    modifies gp, p, n
    ensures Rep(n, RotateTwice(g, L, topRed, oldRed, midRed))
  {
    ghost var a, b, c, e := g.l.l, g.l.r.l, g.l.r.r, g.r;
    InnerParts(gp, p, n, L, g);
    Paint(gp, p, n, topRed, oldRed, midRed, p.left, a, n.left, b, n.right, c, gp.right, e);
    RelinkRightChild(gp, p, n, a, b, c, e);
    ghost var t := RotateTwice(g, L, topRed, oldRed, midRed);
    JoinRep(p, t.l);
    JoinRep(gp, t.r);
    JoinRep(n, t);
  }

  method RelinkRightChild(gp: Node, p: Node, n: Node, ghost a: Shape, ghost b: Shape, ghost c: Shape, ghost e: Shape)
    requires gp != p && gp != n && p != n && {gp, p, n} !! Ids(a) + Ids(b) + Ids(c) + Ids(e)
    requires Rep(p.left, a) && Rep(n.left, b) && Rep(n.right, c) && Rep(gp.right, e)
    modifies gp`left, p`right, n`left, n`right
    ensures n.left == p && n.right == gp
    ensures Rep(p.left, a) && Rep(p.right, b) && Rep(gp.left, c) && Rep(gp.right, e)
  {
    p.right := n.left;
    n.left := p;
    gp.left := n.right;
    n.right := gp;
  }

  /** Colours three nodes; the trees below them do not notice. */
  method Paint(gp: Node, p: Node, n: Node, topRed: bool, oldRed: bool, midRed: bool,
               ghost pa: Node?, ghost a: Shape, ghost pb: Node?, ghost b: Shape,
               ghost pc: Node?, ghost c: Shape, ghost pe: Node?, ghost e: Shape)
    requires gp != p && gp != n && p != n && {gp, p, n} !! Ids(a) + Ids(b) + Ids(c) + Ids(e)
    requires Rep(pa, a) && Rep(pb, b) && Rep(pc, c) && Rep(pe, e)
    modifies gp`red, p`red, n`red
    ensures gp.red == oldRed && p.red == midRed && n.red == topRed
    ensures Rep(pa, a) && Rep(pb, b) && Rep(pc, c) && Rep(pe, e)
  {
    p.red := midRed;
    gp.red := oldRed;
    n.red := topRed;
  }

  /** Grandparent, parent and inner child, and the four subtrees below them. */
  lemma InnerParts(gp: Node, p: Node, n: Node, d: Dir, g: Shape)
    requires g.Br? && Child(g, d).Br? && Child(Child(g, d), Opposite(d)).Br? && Distinct(g) && Rep(gp, g)
    requires p == Child(g, d).id && n == Child(Child(g, d), Opposite(d)).id
    ensures var ps := Child(g, d);
      var ns := Child(ps, Opposite(d));
      var below := Ids(Child(g, Opposite(d))) + Ids(Child(ps, d)) + Ids(ns.l) + Ids(ns.r);
      && gp != p && gp != n && p != n && {gp, p, n} !! below
      && gp.key == g.key && p.key == ps.key && n.key == ns.key
      && Rep(n.left, ns.l) && Rep(n.right, ns.r)
      && (if d == R then Rep(gp.left, g.l) && Rep(p.right, ps.r) else Rep(gp.right, g.r) && Rep(p.left, ps.l))
  {
    DistinctChildren(g, d);
    DistinctChildren(Child(g, d), Opposite(d));
    RepChildren(gp, g);
    RepChildren(p, Child(g, d));
    RepChildren(n, Child(Child(g, d), Opposite(d)));
  }

  lemma JoinRep(p: Node, t: Shape)
    requires t.Br? && p == t.id && p.key == t.key && p.red == t.red && Rep(p.left, t.l) && Rep(p.right, t.r)
    ensures Rep(p, t)
  {
  }

  lemma RepChildren(p: Node, t: Shape)
    requires t.Br? && Rep(p, t)
    ensures p == t.id && p.key == t.key && p.red == t.red && Rep(p.left, t.l) && Rep(p.right, t.r)
  {
  }

  lemma DistinctChildren(t: Shape, d: Dir)
    requires t.Br? && Distinct(t) && Child(t, d).Br?
    ensures var c := Child(t, d);
      && Distinct(c) && t.id != c.id && t.id !in Ids(c.l) && t.id !in Ids(c.r)
      && c.id !in Ids(Child(t, Opposite(d))) && Ids(c.l) !! Ids(Child(t, Opposite(d)))
          && Ids(c.r) !! Ids(Child(t, Opposite(d)))
  {
  }

  /** The memory that holds tree t, reached from cell. */
  ghost predicate Holds(cell: RootCell, t: Shape)
    reads cell, Ids(t)
  {
    Rep(cell.root, t) && Distinct(t)
  }

  /** What a slot loads is the top node of its subtree. */
  lemma LoadSlot(cell: RootCell, t: Shape, d: seq<Dir>)
    requires ValidPath(t, d) && Holds(cell, t)
    ensures Rep(SlotAt(cell, t, d).Load(), At(t, d))
    ensures d == [] || SlotAt(cell, t, d).Owner() in Ids(t)
  {
    Focus(cell.root, t, d);
    SlotPointer(cell, t, d);
    OutsideIds(t, d);
  }

  method RecolourAt(ghost cell: RootCell, root: Node, ghost t: Shape, ghost d: seq<Dir>)
    requires Holds(cell, t) && ValidPath(t, d) && At(t, d).Br? && root == At(t, d).id
    modifies Ids(At(t, d))
    ensures Rep(cell.root, Put(t, d, Recolour(At(t, d))))
  {
    Focus(cell.root, t, d);
    OutsideIds(t, d);
    SubtreeDistinct(t, d);
    Existing(t);
    RecolourInPlace(root, At(t, d));
    Unfocus(cell.root, t, d, Recolour(At(t, d)));
  }

  method RotateAt(ghost cell: RootCell, slot: Slot, gp: Node, p: Node, d: Dir, topRed: bool, oldRed: bool,
                  ghost t: Shape, ghost at: seq<Dir>)
    requires Holds(cell, t) && ValidPath(t, at) && slot == SlotAt(cell, t, at)
    requires At(t, at).Br? && Child(At(t, at), d).Br? && gp == At(t, at).id && p == Child(At(t, at), d).id
    modifies cell, Ids(t)
    ensures Rep(cell.root, Put(t, at, RotateOnce(At(t, at), d, topRed, oldRed)))
  {
    ghost var g := At(t, at);
    Focus(cell.root, t, at);
    OutsideIds(t, at);
    SubtreeDistinct(t, at);
    SlotPointer(cell, t, at);
    Existing(t);
    RotateNodes(gp, p, d, topRed, oldRed, g);
    RotateOnceKeeps(g, d, topRed, oldRed);
    StoreAt(cell, slot, p, t, at);
    Unfocus(cell.root, t, at, RotateOnce(g, d, topRed, oldRed));
  }

  method RotateTwiceAt(ghost cell: RootCell, slot: Slot, gp: Node, p: Node, n: Node, d: Dir,
                       topRed: bool, oldRed: bool, midRed: bool, ghost t: Shape, ghost at: seq<Dir>)
    requires Holds(cell, t) && ValidPath(t, at) && slot == SlotAt(cell, t, at)
    requires At(t, at).Br? && Child(At(t, at), d).Br? && Child(Child(At(t, at), d), Opposite(d)).Br?
    requires gp == At(t, at).id && p == Child(At(t, at), d).id && n == Child(Child(At(t, at), d), Opposite(d)).id
    modifies cell, Ids(t)
    ensures Rep(cell.root, Put(t, at, RotateTwice(At(t, at), d, topRed, oldRed, midRed)))
  {
    ghost var g := At(t, at);
    Focus(cell.root, t, at);
    OutsideIds(t, at);
    SubtreeDistinct(t, at);
    SlotPointer(cell, t, at);
    Existing(t);
    RotateNodesTwice(gp, p, n, d, topRed, oldRed, midRed, g);
    RotateTwiceKeeps(g, d, topRed, oldRed, midRed);
    StoreAt(cell, slot, n, t, at);
    Unfocus(cell.root, t, at, RotateTwice(g, d, topRed, oldRed, midRed));
  }

  /** Colours the node at d. */
  method PaintAt(ghost cell: RootCell, n: Node, red: bool, ghost t: Shape, ghost d: seq<Dir>)
    requires Holds(cell, t) && ValidPath(t, d) && At(t, d).Br? && n == At(t, d).id
    modifies n`red
    ensures Holds(cell, Put(t, d, At(t, d).(red := red)))
  {
    ghost var s := At(t, d).(red := red);
    Focus(cell.root, t, d);
    OutsideIds(t, d);
    SubtreeDistinct(t, d);
    ColourKeeps(At(t, d), red);
    ReplaceKeeps(t, d, s);
    Existing(t);
    n.red := red;
    Unfocus(cell.root, t, d, s);
  }
}
