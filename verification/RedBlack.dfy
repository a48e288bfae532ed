/** Red/black trees as mathematical values: the invariant that tsearch.c writes down in its comments and
  * in `check_tree_recurse`, and how it behaves when one subtree is replaced.
  */
module RedBlack {

  /** A node as tsearch.c allocates it. Keys are compared as integers. */
  class Node {
    var key: int
    var left: Node?
    var right: Node?
    var red: bool

    constructor (k: int)
      ensures key == k && red && left == null && right == null
    {
      key := k;
      red := true;
      left := null;
      right := null;
    }
  }

  datatype Dir = L | R

  function Opposite(d: Dir): Dir { if d == L then R else L }

  /** A tree as a value: the nodes it consists of, with the contents of their fields. */
  datatype Shape = Leaf | Br(id: Node, key: int, red: bool, l: Shape, r: Shape)

  function Child(t: Shape, d: Dir): Shape
    requires t.Br?
  {
    if d == L then t.l else t.r
  }

  function WithChild(t: Shape, d: Dir, s: Shape): Shape
    requires t.Br?
  {
    if d == L then t.(l := s) else t.(r := s)
  }

  function IsRed(t: Shape): bool { t.Br? && t.red }

  function Ids(t: Shape): set<Node> {
    if t.Leaf? then {} else {t.id} + Ids(t.l) + Ids(t.r)
  }

  function Keys(t: Shape): set<int> {
    if t.Leaf? then {} else {t.key} + Keys(t.l) + Keys(t.r)
  }

  /** Which node carries which key. */
  function Bindings(t: Shape): set<(Node, int)> {
    if t.Leaf? then {} else {(t.id, t.key)} + Bindings(t.l) + Bindings(t.r)
  }

  function Size(t: Shape): nat {
    if t.Leaf? then 0 else 1 + Size(t.l) + Size(t.r)
  }

  /** No node occurs twice. */
  predicate Distinct(t: Shape) {
    t.Br? ==> Distinct(t.l) && Distinct(t.r) && t.id !in Ids(t.l) && t.id !in Ids(t.r) && Ids(t.l) !! Ids(t.r)
  }

  /** Search order. */
  predicate Ordered(t: Shape) {
    t.Br? ==>
      && Ordered(t.l) && Ordered(t.r)
      && (forall k :: k in Keys(t.l) ==> k < t.key)
      && (forall k :: k in Keys(t.r) ==> t.key < k)
  }

  /** The height below a node for height h at it. */
  function Below(h: int, red: bool): int { if red then h else h - 1 }

  /** Every path from t to a leaf has h black nodes. */
  predicate Balanced(t: Shape, h: int) {
    match t
    case Leaf => h == 0
    case Br(_, _, red, l, r) => Balanced(l, Below(h, red)) && Balanced(r, Below(h, red))
  }

  /** The number of black nodes on the leftmost path, which check_tree compares all others with. */
  function BlackHeight(t: Shape): nat {
    if t.Leaf? then 0 else BlackHeight(t.l) + (if t.red then 0 else 1)
  }

  /** No two red nodes in a row. */
  predicate NoRedRed(t: Shape) {
    t.Br? ==> NoRedRed(t.l) && NoRedRed(t.r) && (t.red ==> !IsRed(t.l) && !IsRed(t.r))
  }

  /** The invariant. The colour of the root is free. */
  predicate RedBlackTree(t: Shape) {
    Ordered(t) && NoRedRed(t) && Balanced(t, BlackHeight(t))
  }

  lemma {:induction false} BalancedHeight(t: Shape, h: int)
    requires Balanced(t, h)
    ensures h == BlackHeight(t)
  {
    if t.Br? { BalancedHeight(t.l, Below(h, t.red)); }
  }

  /** `check_tree_recurse`: dSofar black nodes were counted on the way to p, dTotal is the count to match. */
  predicate CheckTreeRecurse(p: Shape, dSofar: nat, dTotal: nat) {
    if p.Leaf? then dSofar == dTotal
    else
      && CheckTreeRecurse(p.l, dSofar + (if p.l.Br? && !p.l.red then 1 else 0), dTotal)
      && CheckTreeRecurse(p.r, dSofar + (if p.r.Br? && !p.r.red then 1 else 0), dTotal)
      && (p.l.Br? ==> !(p.l.red && p.red))
      && (p.r.Br? ==> !(p.r.red && p.red))
  }

  /** `check_tree`: makes the root black and checks against the count on the leftmost path. */
  predicate CheckTree(root: Shape) {
    root.Br? ==> CheckTreeRecurse(root.(red := false), 0, BlackHeight(root.l))
  }

  lemma {:induction false} CheckRecurse(p: Shape, dSofar: nat, dTotal: nat)
    ensures CheckTreeRecurse(p, dSofar, dTotal)
      <==> NoRedRed(p) && (if p.Leaf? then dTotal == dSofar
                           else Balanced(p.l, dTotal - dSofar) && Balanced(p.r, dTotal - dSofar))
  {
    if p.Br? {
      CheckRecurse(p.l, dSofar + (if p.l.Br? && !p.l.red then 1 else 0), dTotal);
      CheckRecurse(p.r, dSofar + (if p.r.Br? && !p.r.red then 1 else 0), dTotal);
    }
  }

  /** The assertions of the debugging check hold exactly for the invariant with a black root, and a tree
    * that meets the invariant with a red root passes them too.
    */
  lemma CheckTreeIsInvariant(t: Shape)
    ensures CheckTree(t) <==> NoRedRed(Blacken(t)) && Balanced(Blacken(t), BlackHeight(Blacken(t)))
    ensures RedBlackTree(t) ==> CheckTree(t)
  {
    if t.Br? {
      CheckRecurse(t.(red := false), 0, BlackHeight(t.l));
      if RedBlackTree(t) {
        BalancedHeight(t.l, Below(BlackHeight(t), t.red));
      }
    }
  }

  /** The path d leads to a subtree of t. */
  predicate ValidPath(t: Shape, d: seq<Dir>) {
    d == [] || (t.Br? && ValidPath(Child(t, d[0]), d[1..]))
  }

  function At(t: Shape, d: seq<Dir>): Shape
    requires ValidPath(t, d)
  {
    if d == [] then t else At(Child(t, d[0]), d[1..])
  }

  /** t with the subtree at d replaced. */
  function Put(t: Shape, d: seq<Dir>, s: Shape): Shape
    requires ValidPath(t, d)
  {
    if d == [] then s else WithChild(t, d[0], Put(Child(t, d[0]), d[1..], s))
  }

  /** d is the way a search for key takes through t. */
  predicate OnPath(t: Shape, key: int, d: seq<Dir>) {
    d == [] || (t.Br? && key != t.key && (d[0] == L <==> key < t.key) && OnPath(Child(t, d[0]), key, d[1..]))
  }

  /** The height that balance requires at d. */
  function HeightAt(t: Shape, d: seq<Dir>, h: int): int
    requires ValidPath(t, d)
  {
    if d == [] then h else HeightAt(Child(t, d[0]), d[1..], Below(h, t.red))
  }

  lemma {:induction false} PathConcat(t: Shape, d: seq<Dir>, e: seq<Dir>)
    requires ValidPath(t, d)
    ensures ValidPath(t, d + e) <==> ValidPath(At(t, d), e)
    ensures ValidPath(t, d + e) ==> At(t, d + e) == At(At(t, d), e)
  {
    if d == [] {
      assert [] + e == e;
    } else {
      PathConcat(Child(t, d[0]), d[1..], e);
      assert (d + e)[1..] == d[1..] + e && (d + e)[0] == d[0];
    }
  }

  /** One step further. */
  lemma PathSnoc(t: Shape, d: seq<Dir>, x: Dir)
    requires ValidPath(t, d)
    ensures ValidPath(t, d + [x]) <==> At(t, d).Br?
    ensures ValidPath(t, d + [x]) ==> At(t, d + [x]) == Child(At(t, d), x)
  {
    PathConcat(t, d, [x]);
    assert [x][1..] == [];
  }

  lemma {:induction false} PutAt(t: Shape, d: seq<Dir>, s: Shape)
    requires ValidPath(t, d)
    ensures ValidPath(Put(t, d, s), d) && At(Put(t, d, s), d) == s
  {
    if d != [] { PutAt(Child(t, d[0]), d[1..], s); }
  }

  lemma {:induction false} OnPathConcat(t: Shape, key: int, d: seq<Dir>, e: seq<Dir>)
    requires ValidPath(t, d)
    ensures OnPath(t, key, d + e) <==> OnPath(t, key, d) && OnPath(At(t, d), key, e)
  {
    if d == [] {
      assert [] + e == e;
    } else {
      OnPathConcat(Child(t, d[0]), key, d[1..], e);
      assert (d + e)[1..] == d[1..] + e && (d + e)[0] == d[0];
    }
  }

  lemma {:induction false} OnPathValid(t: Shape, key: int, d: seq<Dir>)
    requires OnPath(t, key, d)
    ensures ValidPath(t, d)
  {
    if d != [] { OnPathValid(Child(t, d[0]), key, d[1..]); }
  }

  /** The way to d does not depend on what is found there. */
  lemma {:induction false} PutOnPath(t: Shape, key: int, d: seq<Dir>, s: Shape)
    requires ValidPath(t, d) && OnPath(t, key, d)
    ensures OnPath(Put(t, d, s), key, d)
  {
    if d != [] { PutOnPath(Child(t, d[0]), key, d[1..], s); }
  }

  lemma {:induction false} SubtreeBalanced(t: Shape, d: seq<Dir>, h: int)
    requires ValidPath(t, d) && Balanced(t, h)
    ensures Balanced(At(t, d), HeightAt(t, d, h))
  {
    if d != [] { SubtreeBalanced(Child(t, d[0]), d[1..], Below(h, t.red)); }
  }

  lemma {:induction false} PutBalanced(t: Shape, d: seq<Dir>, h: int, s: Shape)
    requires ValidPath(t, d) && Balanced(t, h) && Balanced(s, HeightAt(t, d, h))
    ensures Balanced(Put(t, d, s), h)
  {
    if d != [] { PutBalanced(Child(t, d[0]), d[1..], Below(h, t.red), s); }
  }

  lemma {:induction false} SubtreeNoRedRed(t: Shape, d: seq<Dir>)
    requires ValidPath(t, d) && NoRedRed(t)
    ensures NoRedRed(At(t, d))
  {
    if d != [] { SubtreeNoRedRed(Child(t, d[0]), d[1..]); }
  }

  /** The colour of the node above d, with black above the root. */
  function RedAbove(t: Shape, d: seq<Dir>): bool
    requires ValidPath(t, d)
  {
    if d == [] then false
    else if |d| == 1 then t.red
    else RedAbove(Child(t, d[0]), d[1..])
  }

  lemma {:induction false} PutNoRedRed(t: Shape, d: seq<Dir>, s: Shape)
    requires ValidPath(t, d) && NoRedRed(t) && NoRedRed(s)
    requires IsRed(s) ==> !RedAbove(t, d)
    ensures NoRedRed(Put(t, d, s))
  {
    if d != [] { PutNoRedRed(Child(t, d[0]), d[1..], s); }
  }

  lemma {:induction false} RedAboveParent(t: Shape, d: seq<Dir>, x: Dir)
    requires ValidPath(t, d + [x]) && ValidPath(t, d)
    ensures RedAbove(t, d + [x]) == IsRed(At(t, d))
  {
    if d == [] {
      assert d + [x] == [x];
    } else {
      assert (d + [x])[1..] == d[1..] + [x] && (d + [x])[0] == d[0];
      RedAboveParent(Child(t, d[0]), d[1..], x);
    }
  }

  lemma {:induction false} RedAboveNotRed(t: Shape, d: seq<Dir>)
    requires ValidPath(t, d) && NoRedRed(t) && IsRed(At(t, d))
    ensures !RedAbove(t, d)
  {
    if |d| > 1 {
      RedAboveNotRed(Child(t, d[0]), d[1..]);
    } else if |d| == 1 {
      assert At(t, d) == At(Child(t, d[0]), []);
    }
  }

  lemma {:induction false} SubtreeOrdered(t: Shape, d: seq<Dir>)
    requires ValidPath(t, d) && Ordered(t)
    ensures Ordered(At(t, d)) && Keys(At(t, d)) <= Keys(t)
  {
    if d != [] { SubtreeOrdered(Child(t, d[0]), d[1..]); }
  }

  lemma {:induction false} PutOrdered(t: Shape, d: seq<Dir>, s: Shape)
    requires ValidPath(t, d) && Ordered(t) && Ordered(s) && Keys(s) == Keys(At(t, d))
    ensures Ordered(Put(t, d, s)) && Keys(Put(t, d, s)) == Keys(t)
  {
    if d != [] { PutOrdered(Child(t, d[0]), d[1..], s); }
  }

  /** Adding a key where its search ends keeps the order. */
  lemma {:induction false} PutInsert(t: Shape, d: seq<Dir>, key: int, s: Shape)
    requires ValidPath(t, d) && Ordered(t) && OnPath(t, key, d) && Ordered(s)
    requires Keys(s) == Keys(At(t, d)) + {key}
    ensures Ordered(Put(t, d, s)) && Keys(Put(t, d, s)) == Keys(t) + {key}
  {
    if d != [] { PutInsert(Child(t, d[0]), d[1..], key, s); }
  }

  /** Removing a key from the subtree where its search leads removes it from the tree. */
  lemma {:induction false} PutRemove(t: Shape, d: seq<Dir>, key: int, s: Shape)
    requires ValidPath(t, d) && Ordered(t) && OnPath(t, key, d) && Ordered(s)
    requires Keys(s) == Keys(At(t, d)) - {key}
    ensures Ordered(Put(t, d, s)) && Keys(Put(t, d, s)) == Keys(t) - {key}
  {
    if d != [] { PutRemove(Child(t, d[0]), d[1..], key, s); }
  }

  /** A search that ends in a leaf shows that the key is absent. */
  lemma {:induction false} Absent(t: Shape, d: seq<Dir>, key: int)
    requires ValidPath(t, d) && Ordered(t) && OnPath(t, key, d)
    ensures key in Keys(t) <==> key in Keys(At(t, d))
  {
    if d != [] { Absent(Child(t, d[0]), d[1..], key); }
  }

  lemma {:induction false} PutBindings(t: Shape, d: seq<Dir>, s: Shape)
    requires ValidPath(t, d)
    ensures Bindings(s) == Bindings(At(t, d)) ==> Bindings(Put(t, d, s)) == Bindings(t)
    ensures Bindings(s) <= Bindings(Put(t, d, s))
  {
    if d != [] { PutBindings(Child(t, d[0]), d[1..], s); }
  }

  lemma {:induction false} BindingsIds(t: Shape)
    ensures forall p :: p in Bindings(t) ==> p.0 in Ids(t)
  {
    if t.Br? {
      BindingsIds(t.l);
      BindingsIds(t.r);
    }
  }

  lemma {:induction false} KeyOf(t: Shape, n: Node) returns (k: int)
    requires n in Ids(t)
    ensures (n, k) in Bindings(t)
  {
    if n == t.id {
      k := t.key;
    } else if n in Ids(t.l) {
      k := KeyOf(t.l, n);
    } else {
      k := KeyOf(t.r, n);
    }
  }

  /** Replacing a subtree exchanges its nodes for the new ones and keeps all others with their keys. */
  lemma {:induction false} PutExact(t: Shape, d: seq<Dir>, s: Shape)
    requires ValidPath(t, d) && Distinct(t)
    ensures Bindings(Put(t, d, s)) == Bindings(t) - Bindings(At(t, d)) + Bindings(s)
    ensures Ids(Put(t, d, s)) == Ids(t) - Ids(At(t, d)) + Ids(s)
  {
    if d != [] {
      var x := d[0];
      var c, other := Child(t, x), Child(t, Opposite(x));
      PutExact(c, d[1..], s);
      BindingsIds(c);
      BindingsIds(other);
      SubtreeBindings(c, d[1..]);
      SubtreeDistinct(c, d[1..]);
      Exchange(t.id, Ids(c), Ids(other), Ids(At(t, d)), Ids(s));
      Exchange((t.id, t.key), Bindings(c), Bindings(other), Bindings(At(t, d)), Bindings(s));
    } else {
      assert Bindings(t) - Bindings(At(t, d)) == {} && Ids(t) - Ids(At(t, d)) == {};
    }
  }

  lemma Exchange<A>(root: A, b: set<A>, other: set<A>, a: set<A>, s: set<A>)
    requires a <= b && root !in b && other !! b
    ensures {root} + (b - a + s) + other == {root} + b + other - a + s
    ensures {root} + other + (b - a + s) == {root} + other + b - a + s
  {
  }

  lemma {:induction false} SubtreeBindings(t: Shape, d: seq<Dir>)
    requires ValidPath(t, d)
    ensures Bindings(At(t, d)) <= Bindings(t)
  {
    if d != [] { SubtreeBindings(Child(t, d[0]), d[1..]); }
  }

  /** Trees with the same bindings have the same nodes. */
  lemma SameNodes(t: Shape, t': Shape)
    requires Bindings(t) == Bindings(t')
    ensures Ids(t) == Ids(t')
  {
    BindingsIds(t);
    BindingsIds(t');
    forall n | n in Ids(t)
      ensures n in Ids(t')
    {
      var k := KeyOf(t, n);
      assert (n, k).0 in Ids(t');
    }
    forall n | n in Ids(t')
      ensures n in Ids(t)
    {
      var k := KeyOf(t', n);
      assert (n, k).0 in Ids(t);
    }
  }

  lemma {:induction false} SubtreeDistinct(t: Shape, d: seq<Dir>)
    requires ValidPath(t, d) && Distinct(t)
    ensures Distinct(At(t, d)) && Ids(At(t, d)) <= Ids(t)
  {
    if d != [] { SubtreeDistinct(Child(t, d[0]), d[1..]); }
  }

  lemma {:induction false} PutDistinct(t: Shape, d: seq<Dir>, s: Shape, more: set<Node>)
    requires ValidPath(t, d) && Distinct(t) && Distinct(s)
    requires Ids(s) <= Ids(At(t, d)) + more && more !! Ids(t)
    ensures Distinct(Put(t, d, s)) && Ids(Put(t, d, s)) <= Ids(t) + more
  {
    if d != [] { PutDistinct(Child(t, d[0]), d[1..], s, more); }
  }

  /** Replacing inside a subtree, seen from above it. */
  lemma {:induction false} PutInside(t: Shape, d: seq<Dir>, e: seq<Dir>, s: Shape)
    requires ValidPath(t, d) && ValidPath(t, d + e)
    ensures ValidPath(At(t, d), e) && ValidPath(Put(t, d + e, s), d)
    ensures At(Put(t, d + e, s), d) == Put(At(t, d), e, s)
    ensures forall x :: Put(Put(t, d + e, s), d, x) == Put(t, d, x)
    ensures Put(t, d + e, s) == Put(t, d, Put(At(t, d), e, s))
  {
    if d == [] {
      assert [] + e == e;
    } else {
      assert (d + e)[1..] == d[1..] + e && (d + e)[0] == d[0];
      PutInside(Child(t, d[0]), d[1..], e, s);
    }
  }

  function Blacken(t: Shape): Shape {
    if t.Br? then t.(red := false) else t
  }

  /** The split: the node becomes red, its successors black. */
  function Recolour(t: Shape): Shape
    requires t.Br?
  {
    t.(red := true, l := Blacken(t.l), r := Blacken(t.r))
  }

  /** The child in direction d comes to the top, with the given colours for it and for the old top. */
  function RotateOnce(g: Shape, d: Dir, topRed: bool, oldRed: bool): Shape
    requires g.Br? && Child(g, d).Br?
  {
    var p := Child(g, d);
    WithChild(p.(red := topRed), Opposite(d), WithChild(g.(red := oldRed), d, Child(p, Opposite(d))))
  }

  /** The inner grandchild below direction d comes to the top, between its parent and grandparent. */
  function RotateTwice(g: Shape, d: Dir, topRed: bool, oldRed: bool, midRed: bool): Shape
    requires g.Br? && Child(g, d).Br? && Child(Child(g, d), Opposite(d)).Br?
  {
    var e := Opposite(d);
    var p := Child(g, d);
    var n := Child(p, e);
    WithChild(WithChild(n.(red := topRed), d, WithChild(p.(red := midRed), e, Child(n, d))),
              e, WithChild(g.(red := oldRed), d, Child(n, e)))
  }

  /** What a rearrangement of a subtree must keep. */
  predicate SameContents(t: Shape, g: Shape) {
    && Keys(t) == Keys(g) && Ids(t) == Ids(g) && Bindings(t) == Bindings(g)
    && (Ordered(g) ==> Ordered(t))
    && (Distinct(g) ==> Distinct(t))
  }

  /** Colours do not matter for the contents. */
  lemma ColourKeeps(t: Shape, red: bool)
    requires t.Br?
    ensures SameContents(t.(red := red), t)
  {
  }

  lemma ChildKeeps(t: Shape, d: Dir, s: Shape)
    requires t.Br? && SameContents(s, Child(t, d))
    ensures SameContents(WithChild(t, d, s), t)
  {
  }

  /** The pure rotation. */
  function Rotate(g: Shape, d: Dir): Shape
    requires g.Br? && Child(g, d).Br?
  {
    WithChild(Child(g, d), Opposite(d), WithChild(g, d, Child(Child(g, d), Opposite(d))))
  }

  lemma RotateKeeps(g: Shape, d: Dir)
    requires g.Br? && Child(g, d).Br?
    ensures SameContents(Rotate(g, d), g)
  {
    var p := Child(g, d);
    var inner := WithChild(g, d, Child(p, Opposite(d)));
    assert Keys(p) == {p.key} + Keys(p.l) + Keys(p.r);
    assert Ids(p) == {p.id} + Ids(p.l) + Ids(p.r);
    assert Bindings(p) == {(p.id, p.key)} + Bindings(p.l) + Bindings(p.r);
    assert Bindings(inner) == {(g.id, g.key)} + Bindings(inner.l) + Bindings(inner.r);
    assert Keys(inner) == {g.key} + Keys(inner.l) + Keys(inner.r);
    assert Ids(inner) == {g.id} + Ids(inner.l) + Ids(inner.r);
    if Ordered(g) {
      assert Ordered(p) && p.key in Keys(p);
      assert Ordered(inner);
    }
    if Distinct(g) {
      assert Distinct(p) && p.id in Ids(p);
      assert Distinct(inner);
    }
  }

  lemma RotateOnceKeeps(g: Shape, d: Dir, topRed: bool, oldRed: bool)
    requires g.Br? && Child(g, d).Br?
    ensures SameContents(RotateOnce(g, d, topRed, oldRed), g)
  {
    var g1 := g.(red := oldRed);
    ColourKeeps(g, oldRed);
    RotateKeeps(g1, d);
    ColourKeeps(Rotate(g1, d), topRed);
  }

  /** A double rotation is two single ones. */
  lemma RotateTwiceKeeps(g: Shape, d: Dir, topRed: bool, oldRed: bool, midRed: bool)
    requires g.Br? && Child(g, d).Br? && Child(Child(g, d), Opposite(d)).Br?
    ensures SameContents(RotateTwice(g, d, topRed, oldRed, midRed), g)
  {
    var p := Child(g, d);
    var lower := RotateOnce(p, Opposite(d), topRed, midRed);
    RotateOnceKeeps(p, Opposite(d), topRed, midRed);
    ChildKeeps(g, d, lower);
    RotateOnceKeeps(WithChild(g, d, lower), d, topRed, oldRed);
  }

  lemma RecolourKeeps(n: Shape)
    requires n.Br?
    ensures SameContents(Recolour(n), n)
  {
    var n1 := n.(red := true);
    ColourKeeps(n, true);
    BlackenKeeps(n.l);
    BlackenKeeps(n.r);
    ChildKeeps(n1, L, Blacken(n.l));
    ChildKeeps(WithChild(n1, L, Blacken(n.l)), R, Blacken(n.r));
  }

  lemma BlackenKeeps(t: Shape)
    ensures SameContents(Blacken(t), t)
  {
    if t.Br? { ColourKeeps(t, false); }
  }
}
