/** How nodes and slots in memory represent a tree value. */
module TreeHeap {
  import opened RedBlack

  /** The caller's variable that holds the root pointer. */
  class RootCell {
    var root: Node?

    constructor ()
      ensures root == null
    {
      root := null;
    }
  }

  /** The address of a child pointer (node **). */
  datatype Slot = NoSlot | AtRoot(cell: RootCell) | AtLeft(n: Node) | AtRight(n: Node) {
    /** The object that holds the pointer. */
    function Owner(): object
      requires !NoSlot?
    {
      match this
      case AtRoot(c) => c
      case AtLeft(n) => n
      case AtRight(n) => n
    }

    /** *slot */
    function Load(): Node?
      requires !NoSlot?
      reads Owner()
    {
      match this
      case AtRoot(c) => c.root
      case AtLeft(n) => n.left
      case AtRight(n) => n.right
    }

    /** *slot = p */
    method Store(p: Node?)
      requires !NoSlot?
      modifies Owner()
      ensures Load() == p
      ensures AtLeft? ==> n.key == old(n.key) && n.red == old(n.red) && n.right == old(n.right)
      ensures AtRight? ==> n.key == old(n.key) && n.red == old(n.red) && n.left == old(n.left)
    {
      match this
      case AtRoot(c) => c.root := p;
      case AtLeft(n) => n.left := p;
      case AtRight(n) => n.right := p;
    }
  }

  /** The slot of the child of n in direction d. */
  function ChildSlot(n: Node, d: Dir): Slot {
    if d == L then AtLeft(n) else AtRight(n)
  }

  /** The slot at the end of path d. */
  function SlotAt(cell: RootCell, t: Shape, d: seq<Dir>): (s: Slot)
    requires ValidPath(t, d)
    ensures !s.NoSlot?
  {
    if d == [] then AtRoot(cell) else SlotIn(t, d)
  }

  function SlotIn(t: Shape, d: seq<Dir>): (s: Slot)
    requires d != [] && ValidPath(t, d)
    ensures s.AtLeft? || s.AtRight?
  {
    if |d| == 1 then ChildSlot(t.id, d[0]) else SlotIn(Child(t, d[0]), d[1..])
  }

  /** p is the root pointer of a memory representation of t. */
  ghost predicate Rep(p: Node?, t: Shape)
    reads Ids(t)
    decreases t
  {
    match t
    case Leaf => p == null
    case Br(id, key, red, l, r) =>
      p == id && id.key == key && id.red == red && Rep(id.left, l) && Rep(id.right, r)
  }

  /** The nodes of t outside of the subtree at d. */
  function Outside(t: Shape, d: seq<Dir>): set<Node>
    requires ValidPath(t, d)
  {
    if d == [] then {}
    else {t.id} + Outside(Child(t, d[0]), d[1..]) + Ids(Child(t, Opposite(d[0])))
  }

  /** p represents t except for the subtree at d; what the slot at d holds is left open. */
  ghost predicate RepContext(p: Node?, t: Shape, d: seq<Dir>)
    requires ValidPath(t, d)
    reads Outside(t, d)
    decreases d
  {
    d != [] ==>
      && p == t.id && t.id.key == t.key && t.id.red == t.red
      && (if d[0] == L then RepContext(t.id.left, t.l, d[1..]) && Rep(t.id.right, t.r)
                       else Rep(t.id.left, t.l) && RepContext(t.id.right, t.r, d[1..]))
  }

  /** The pointer that leads to the subtree at d. */
  function PointerAt(p: Node?, t: Shape, d: seq<Dir>): Node?
    requires ValidPath(t, d)
    reads Outside(t, d)
    decreases d
  {
    if d == [] then p
    else PointerAt(if d[0] == L then t.id.left else t.id.right, Child(t, d[0]), d[1..])
  }

  /** A node that the tree binds to a key carries that key in memory. */
  lemma {:induction false} BoundKey(p: Node?, t: Shape, n: Node, key: int)
    requires Rep(p, t) && (n, key) in Bindings(t)
    ensures n in Ids(t) && n.key == key
  {
    if (n, key) in Bindings(t.l) {
      BoundKey(t.id.left, t.l, n, key);
    } else if (n, key) in Bindings(t.r) {
      BoundKey(t.id.right, t.r, n, key);
    }
  }

  /** The nodes of a tree value exist in memory, so what does not touch them does not change them. */
  lemma {:induction false} Existing(t: Shape)
    ensures forall n :: n in Ids(t) ==> allocated(n)
  {
    if t.Br? {
      Existing(t.l);
      Existing(t.r);
    }
  }

  /** Focusing on a subtree. */
  lemma {:induction false} Focus(p: Node?, t: Shape, d: seq<Dir>)
    requires ValidPath(t, d) && Rep(p, t)
    ensures RepContext(p, t, d) && Rep(PointerAt(p, t, d), At(t, d))
  {
    if d != [] {
      if d[0] == L {
        Focus(t.id.left, t.l, d[1..]);
      } else {
        Focus(t.id.right, t.r, d[1..]);
      }
    }
  }

  /** Filling the hole with another subtree. */
  lemma {:induction false} Unfocus(p: Node?, t: Shape, d: seq<Dir>, s: Shape)
    requires ValidPath(t, d) && RepContext(p, t, d) && Rep(PointerAt(p, t, d), s)
    ensures Rep(p, Put(t, d, s))
  {
    if d != [] {
      if d[0] == L {
        Unfocus(t.id.left, t.l, d[1..], s);
      } else {
        Unfocus(t.id.right, t.r, d[1..], s);
      }
    }
  }

  lemma {:induction false} OutsideIds(t: Shape, d: seq<Dir>)
    requires ValidPath(t, d) && Distinct(t)
    ensures Outside(t, d) !! Ids(At(t, d)) && Ids(t) == Outside(t, d) + Ids(At(t, d))
  {
    if d != [] { OutsideIds(Child(t, d[0]), d[1..]); }
  }

  /** The slot at d holds the pointer to the subtree at d. */
  lemma SlotPointer(cell: RootCell, t: Shape, d: seq<Dir>)
    requires ValidPath(t, d)
    ensures SlotAt(cell, t, d).Load() == PointerAt(cell.root, t, d)
    ensures d != [] ==> SlotAt(cell, t, d).Owner() in Outside(t, d)
  {
    if d != [] { SlotPointerIn(cell.root, t, d); }
  }

  lemma {:induction false} SlotPointerIn(p: Node?, t: Shape, d: seq<Dir>)
    requires d != [] && ValidPath(t, d)
    ensures SlotIn(t, d).n in Outside(t, d) && Outside(t, d) <= Ids(t)
    ensures SlotIn(t, d).Load() == PointerAt(p, t, d)
    decreases d
  {
    if |d| > 1 {
      SlotPointerIn(if d[0] == L then t.id.left else t.id.right, Child(t, d[0]), d[1..]);
    } else {
      assert d[1..] == [];
    }
  }

  /** One step further down: the slot of a child. */
  lemma {:induction false} SlotSnoc(cell: RootCell, t: Shape, d: seq<Dir>, x: Dir)
    requires ValidPath(t, d) && At(t, d).Br?
    ensures ValidPath(t, d + [x])
    ensures SlotAt(cell, t, d + [x]) == ChildSlot(At(t, d).id, x)
  {
    PathSnoc(t, d, x);
    if d == [] {
      assert d + [x] == [x];
    } else {
      assert (d + [x])[1..] == d[1..] + [x] && (d + [x])[0] == d[0];
      SlotSnoc(cell, Child(t, d[0]), d[1..], x);
    }
  }

  /** A root pointer, a path in its tree, and the nodes of the tree. */
  datatype View = View(p: Node?, t: Shape, d: seq<Dir>, ids: set<Node>)

  twostate lemma SameRep(v: View)
    requires v.ids == Ids(v.t) && old(Rep(v.p, v.t))
    requires forall n :: n in v.ids ==>
      n.key == old(n.key) && n.left == old(n.left) && n.right == old(n.right) && n.red == old(n.red)
    ensures Rep(v.p, v.t)
    decreases v.t
  {
    if v.t.Br? {
      SameRep(View(old(v.t.id.left), v.t.l, [], Ids(v.t.l)));
      SameRep(View(old(v.t.id.right), v.t.r, [], Ids(v.t.r)));
    }
  }

  /** Storing into the slot at d leaves the context of d as it was. */
  twostate lemma StoredInContext(v: View)
    requires v.d != [] && ValidPath(v.t, v.d) && Distinct(v.t) && v.ids == Ids(v.t)
    requires old(RepContext(v.p, v.t, v.d))
    requires forall n :: n in v.ids && n in Outside(v.t, v.d) ==>
      var s := SlotIn(v.t, v.d);
      && n.key == old(n.key) && n.red == old(n.red)
      && (s == AtLeft(n) || n.left == old(n.left))
      && (s == AtRight(n) || n.right == old(n.right))
    ensures RepContext(v.p, v.t, v.d)
    decreases v.t
  {
    var t, d := v.t, v.d;
    var left, right := old(t.id.left), old(t.id.right);
    var c, o := Child(t, d[0]), Child(t, Opposite(d[0]));
    SlotPointerIn(null, t, d);
    if |d| > 1 {
      SlotPointerIn(null, c, d[1..]);
      StoredInContext(View(if d[0] == L then left else right, c, d[1..], Ids(c)));
    }
    SameRep(View(if d[0] == L then right else left, o, [], Ids(o)));
  }

  /** *slot = y, where slot is the slot at d of the tree. */
  method StoreAt(ghost cell: RootCell, slot: Slot, y: Node?, ghost t: Shape, ghost d: seq<Dir>)
    requires ValidPath(t, d) && Distinct(t) && slot == SlotAt(cell, t, d)
    requires RepContext(cell.root, t, d)
    modifies slot.Owner()
    ensures RepContext(cell.root, t, d) && PointerAt(cell.root, t, d) == y
    ensures d == [] || cell.root == old(cell.root)
  {
    SlotPointer(cell, t, d);
    slot.Store(y);
    if d != [] {
      StoredInContext(View(cell.root, t, d, Ids(t)));
    }
    SlotPointer(cell, t, d);
  }
}
