/** `maybe_split_for_insert`, `__tsearch` and `__tfind` of tsearch.c. */
module TreeInsert {
  import opened RedBlack
  import opened TreeHeap
  import opened TreeSplit
  import opened TreeOps

  /** The comparison value r tells the direction in which the key lies. */
  predicate Sign(r: int, d: Dir) {
    r != 0 && (r < 0 <==> d == L)
  }

  /** The slot of the node k steps above d. */
  function SlotAbove(cell: RootCell, t: Shape, d: seq<Dir>, k: nat): (s: Slot)
    requires ValidPath(t, d) && 1 <= k <= |d|
    ensures ValidPath(t, d[..|d| - k]) && s == SlotAt(cell, t, d[..|d| - k])
  {
    PrefixValid(t, d, |d| - k);
    SlotAt(cell, t, d[..|d| - k])
  }

  /** The slots of parent and grandparent are not stale, and p_r, gp_r tell the way to d. */
  predicate SlotsFor(cell: RootCell, t: Shape, d: seq<Dir>, parentp: Slot, gparentp: Slot, p_r: int, gp_r: int)
    requires ValidPath(t, d)
  {
    && (parentp.NoSlot? <==> d == [])
    && (d != [] ==> parentp == SlotAbove(cell, t, d, 1))
    && (RedParent(t, d) ==>
          |d| >= 2 && Sign(p_r, d[|d| - 1]) && Sign(gp_r, d[|d| - 2]) && gparentp == SlotAbove(cell, t, d, 2))
  }

  /** Splits the node at d when both its successors are red, or (mode 1) repairs two red nodes in a row. */
  method MaybeSplitForInsert(rootp: Slot, parentp: Slot, gparentp: Slot, p_r: int, gp_r: int, mode: int,
                             ghost cell: RootCell, ghost t: Shape, ghost d: seq<Dir>)
    requires Holds(cell, t) && ValidPath(t, d) && At(t, d).Br? && rootp == SlotAt(cell, t, d)
    requires mode == 1 || TwinReds(At(t, d)) ==> SlotsFor(cell, t, d, parentp, gparentp, p_r, gp_r)
    modifies cell, Ids(t)
    ensures Rep(cell.root, if mode == 1 || TwinReds(At(t, d)) then SplitTree(t, d) else t)
  {
    LoadSlot(cell, t, d);
    SubtreeDistinct(t, d);
    SlotPointer(cell, t, d);
    var root := rootp.Load();
    var rp, lp := root.right, root.left;
    if mode == 1 || (rp != null && lp != null && rp.red && lp.red) {
      RecolourAt(cell, root, t, d);
      ghost var t1 := Put(t, d, Recolour(At(t, d)));
      RecolouredTree(cell, t, d);
      var redParent := false;
      if !parentp.NoSlot? {
        LoadSlot(cell, t1, Init(d));
        SlotPointer(cell, t1, Init(d));
        redParent := parentp.Load().red;
      }
      if redParent {
        ghost var g := d[..|d| - 2];
        LoadSlot(cell, t1, g);
        SlotPointer(cell, t1, g);
        var gp, p := gparentp.Load(), parentp.Load();
        if (p_r > 0) != (gp_r > 0) {
          RotateTwiceAt(cell, gparentp, gp, p, root, if p_r < 0 then R else L, false, true, true, t1, g);
        } else {
          RotateAt(cell, gparentp, gp, p, if p_r < 0 then L else R, false, true, t1, g);
        }
      }
    }
  }

  /** After recolouring, the nodes above d and their slots are what they were. */
  lemma RecolouredTree(cell: RootCell, t: Shape, d: seq<Dir>)
    requires ValidPath(t, d) && At(t, d).Br? && Distinct(t)
    requires RedParent(t, d) ==> |d| >= 2
    ensures var t1 := Put(t, d, Recolour(At(t, d)));
      && Distinct(t1) && Ids(t1) <= Ids(t) && ValidPath(t1, d) && At(t1, d) == Recolour(At(t, d))
      && (d != [] ==>
            && ValidPath(t1, Init(d)) && At(t1, Init(d)).Br? && ValidPath(t, Init(d))
            && SlotAt(cell, t1, Init(d)) == SlotAt(cell, t, Init(d)) && At(t1, Init(d)).red == RedParent(t, d))
      && (RedParent(t, d) ==>
            var g, d1, d2 := d[..|d| - 2], d[|d| - 2], d[|d| - 1];
            && ValidPath(t1, g) && ValidPath(t, g) && SlotAt(cell, t1, g) == SlotAt(cell, t, g)
            && At(t, g).Br? && Child(At(t, g), d1).Br? && Child(Child(At(t, g), d1), d2).Br?
            && At(t1, g) == Recoloured(At(t, g), d1, d2)
            && At(t1, Init(d)) == Child(At(t1, g), d1)
            && Child(Child(At(t1, g), d1), d2).id == At(t, d).id
            && SplitTree(t, d) == Put(t1, g, Repair(At(t1, g), d1, d2)))
      && (!RedParent(t, d) ==> SplitTree(t, d) == t1)
  {
    var n := Recolour(At(t, d));
    RecolourKeeps(At(t, d));
    ReplaceKeeps(t, d, n);
    PutAt(t, d, n);
    if d != [] {
      PutPrefix(t, d, |d| - 1, n);
      SlotPut(cell, t, d, |d| - 1, n);
    }
    if RedParent(t, d) {
      var g, d1, d2 := d[..|d| - 2], d[|d| - 2], d[|d| - 1];
      GrandparentShape(t, d);
      PutPrefix(t, d, |d| - 2, n);
      SlotPut(cell, t, d, |d| - 2, n);
      PutInside(t, g, [d1, d2], n);
      GrandparentShape(Put(t, d, n), d);
    }
  }

  /** Slots above d do not depend on what is at d. */
  lemma {:induction false} SlotPut(cell: RootCell, t: Shape, d: seq<Dir>, k: nat, s: Shape)
    requires ValidPath(t, d) && k <= |d|
    ensures ValidPath(t, d[..k]) && ValidPath(Put(t, d, s), d[..k])
    ensures SlotAt(cell, Put(t, d, s), d[..k]) == SlotAt(cell, t, d[..k])
  {
    PrefixIsPath(t, d, k);
    PutAt(t, d, s);
    PrefixIsPath(Put(t, d, s), d, k);
    if k > 1 {
      SlotPut(cell, Child(t, d[0]), d[1..], k - 1, s);
      assert d[..k][1..] == d[1..][..k - 1];
    }
  }

  /** Where the search stands. Fresh: nothing has changed above. Calm: the node here is black with black
    * successors, as after a split of its parent, and the grandparent slot may be stale. Detour: after a
    * double rotation the search passes once more through a node that came down from above; both slots are
    * stale, and below it the search comes to a calm node.
    */
  datatype Phase = Fresh | Calm | Detour

  predicate IsCalm(n: Shape) {
    n.Br? && !n.red && !IsRed(n.l) && !IsRed(n.r)
  }

  function Toward(n: Shape, key: int): Dir
    requires n.Br?
  {
    if key < n.key then L else R
  }

  /** What the descent knows about its four pointers and four comparison values at the node d. */
  predicate State(cell: RootCell, t: Shape, d: seq<Dir>, key: int, phase: Phase,
                  parentp: Slot, gparentp: Slot, p_r: int, gp_r: int)
  {
    && ValidPath(t, d) && OnPath(t, key, d) && At(t, d).Br?
    && match phase
       case Fresh =>
         && (parentp.NoSlot? <==> d == [])
         && (d == [] ==> !t.red)
         && (|d| == 1 ==> !t.red)
         && (d != [] ==> parentp == SlotAbove(cell, t, d, 1) && Sign(p_r, Last(d)) && !TwinReds(Above(t, d, 1)))
         && (|d| >= 2 ==> gparentp == SlotAbove(cell, t, d, 2) && Sign(gp_r, d[|d| - 2]))
         && (|d| >= 2 && RedParent(t, d) ==> !TwinReds(Above(t, d, 2)))
       case Calm =>
         && d != [] && IsCalm(At(t, d))
         && parentp == SlotAbove(cell, t, d, 1) && Sign(p_r, Last(d))
       case Detour =>
         var n := At(t, d);
         && d != [] && !parentp.NoSlot?
         && n.red && !IsRed(n.l) && !IsRed(n.r) && n.key != key && IsCalm(Child(n, Toward(n, key)))
  }

  /** No split: the search moves down to an existing child. */
  lemma Descend(cell: RootCell, t: Shape, d: seq<Dir>, key: int, phase: Phase,
                parentp: Slot, gparentp: Slot, p_r: int, gp_r: int, r: int)
    requires State(cell, t, d, key, phase, parentp, gparentp, p_r, gp_r)
    requires !TwinReds(At(t, d)) && key != At(t, d).key && Sign(r, Toward(At(t, d), key))
    requires Child(At(t, d), Toward(At(t, d), key)).Br?
    ensures State(cell, t, d + [Toward(At(t, d), key)], key, if phase == Detour then Calm else Fresh,
                  SlotAt(cell, t, d), parentp, r, p_r)
  {
    var x := Toward(At(t, d), key);
    var d' := d + [x];
    PathSnoc(t, d, x);
    OnPathSnoc(t, key, d);
    assert Init(d') == d && Last(d') == x;
    if d != [] {
      PrefixValid(t, d, |d| - 1);
      assert d'[..|d'| - 2] == Init(d);
    }
  }

  lemma OnPathSnoc(t: Shape, key: int, d: seq<Dir>)
    requires ValidPath(t, d) && OnPath(t, key, d) && At(t, d).Br? && key != At(t, d).key
    ensures OnPath(t, key, d + [Toward(At(t, d), key)])
  {
    OnPathConcat(t, key, d, [Toward(At(t, d), key)]);
    assert [Toward(At(t, d), key)][1..] == [];
  }

  /** What a split leaves for the rest of the descent: the tree, the place of the split node, the way on. */
  predicate Continues(cell: RootCell, t: Shape, d: seq<Dir>, key: int, t': Shape, d': seq<Dir>, phase: Phase,
                      parentp: Slot, gparentp: Slot, p_r: int, gp_r: int)
    requires ValidPath(t, d) && At(t, d).Br?
  {
    var n, x := At(t, d), Toward(At(t, d), key);
    && ValidPath(t', d') && At(t', d').Br? && At(t', d').id == n.id && At(t', d').key == n.key
    && State(cell, t', d' + [x], key, phase, parentp, gparentp, p_r, gp_r)
    && SlotAt(cell, t', d' + [x]) == ChildSlot(n.id, x)
    && Remaining(At(t', d' + [x]), key, phase) < 2 * Size(n)
  }

  /** How much of the tree the search still has below it. On a detour only the calm node counts. */
  function Remaining(n: Shape, key: int, phase: Phase): nat {
    if phase == Detour && n.Br? then 2 * Size(Child(n, Toward(n, key))) + 1 else 2 * Size(n)
  }

  /** Below a recoloured node the search is calm. */
  lemma CalmContinues(cell: RootCell, t: Shape, d: seq<Dir>, key: int, t': Shape, d': seq<Dir>, parentp: Slot, r: int,
      p_r: int)
    requires ValidPath(t, d) && TwinReds(At(t, d)) && NoRedRed(At(t, d))
    requires ValidPath(t', d') && OnPath(t', key, d') && At(t', d') == Recolour(At(t, d))
    requires SlotAt(cell, t', d') == SlotAt(cell, t, d)
    requires key != At(t, d).key && Sign(r, Toward(At(t, d), key))
    ensures Continues(cell, t, d, key, t', d', Calm, SlotAt(cell, t, d), parentp, r, p_r)
  {
    var x := Toward(At(t, d), key);
    AfterRotation(cell, t', d', x, key);
    assert (d' + [x])[..|d' + [x]| - 1] == d' && Last(d' + [x]) == x;
  }

  /** One step down from a place that the search reaches. */
  lemma AfterRotation(cell: RootCell, t: Shape, g: seq<Dir>, x: Dir, key: int)
    requires ValidPath(t, g) && OnPath(t, key, g) && At(t, g).Br? && key != At(t, g).key && x == Toward(At(t, g), key)
    ensures ValidPath(t, g + [x]) && OnPath(t, key, g + [x]) && At(t, g + [x]) == Child(At(t, g), x)
    ensures SlotAt(cell, t, g + [x]) == ChildSlot(At(t, g).id, x)
  {
    PathSnoc(t, g, x);
    SlotSnoc(cell, t, g, x);
    OnPathSnoc(t, key, g);
  }

  /** A split below a black parent. */
  lemma SplitPlain(cell: RootCell, t: Shape, d: seq<Dir>, key: int, parentp: Slot, r: int, p_r: int)
    requires ValidPath(t, d) && OnPath(t, key, d) && TwinReds(At(t, d)) && NoRedRed(t) && !RedParent(t, d)
    requires key != At(t, d).key && Sign(r, Toward(At(t, d), key))
    ensures Continues(cell, t, d, key, SplitTree(t, d), d, Calm, SlotAt(cell, t, d), parentp, r, p_r)
  {
    var n := Recolour(At(t, d));
    PutAt(t, d, n);
    PutOnPath(t, key, d, n);
    SubtreeNoRedRed(t, d);
    SlotPut(cell, t, d, |d|, n);
    assert d[..|d|] == d;
    CalmContinues(cell, t, d, key, SplitTree(t, d), d, parentp, r, p_r);
  }

  /** The node two steps above d, and the two keys the search has passed on the way from it to d. */
  lemma WayFromGrandparent(t: Shape, d: seq<Dir>, key: int)
    requires ValidPath(t, d) && OnPath(t, key, d) && At(t, d).Br? && |d| >= 2
    ensures var g, d1, d2 := d[..|d| - 2], d[|d| - 2], d[|d| - 1];
      && ValidPath(t, g) && OnPath(t, key, g) && d == g + [d1, d2] && Init(d) == g + [d1]
      && Passed(At(t, g), d1, d2, key) && At(t, d) == Child(Child(At(t, g), d1), d2)
      && Above(t, d, 1) == Child(At(t, g), d1) && Above(t, d, 2) == At(t, g)
  {
    var g, d1, d2 := d[..|d| - 2], d[|d| - 2], d[|d| - 1];
    GrandparentShape(t, d);
    OnPathConcat(t, key, g, [d1, d2]);
    assert [d1, d2][1..] == [d2] && [d2][1..] == [];
    assert OnPath(Child(At(t, g), d1), key, [d2]);
  }

  /** The search for key goes through gp and its child p in directions d1 and d2. */
  predicate Passed(gp: Shape, d1: Dir, d2: Dir, key: int) {
    && gp.Br? && key != gp.key && d1 == Toward(gp, key)
    && Child(gp, d1).Br? && key != Child(gp, d1).key && d2 == Toward(Child(gp, d1), key)
    && Child(Child(gp, d1), d2).Br?
  }

  /** The subtree after one rotation: the parent on top, the split node below it on the same side. */
  lemma SameSideShape(gp: Shape, d1: Dir, key: int)
    requires Passed(gp, d1, d1, key)
    ensures var p := Child(gp, d1);
      var s := Repair(Recoloured(gp, d1, d1), d1, d1);
      && s.Br? && s.id == p.id && key != s.key && d1 == Toward(s, key) && Child(s, d1) == Recolour(Child(p, d1))
  {
  }

  /** A split below a red parent on the same side: one rotation. */
  lemma SplitSameSide(cell: RootCell, t: Shape, d: seq<Dir>, key: int, parentp: Slot, r: int, p_r: int)
    requires ValidPath(t, d) && OnPath(t, key, d) && TwinReds(At(t, d)) && NoRedRed(t)
    requires RedParent(t, d) && |d| >= 2 && d[|d| - 2] == d[|d| - 1]
    requires key != At(t, d).key && Sign(r, Toward(At(t, d), key))
    ensures Continues(cell, t, d, key, SplitTree(t, d), Init(d), Calm, SlotAt(cell, t, d), parentp, r, p_r)
  {
    SubtreeNoRedRed(t, d);
    SameSidePlace(cell, t, d, key);
    CalmContinues(cell, t, d, key, SplitTree(t, d), Init(d), parentp, r, p_r);
  }

  /** The split node has moved one step up; its slot is still the same. */
  lemma SameSidePlace(cell: RootCell, t: Shape, d: seq<Dir>, key: int)
    requires ValidPath(t, d) && OnPath(t, key, d) && At(t, d).Br?
    requires RedParent(t, d) && |d| >= 2 && d[|d| - 2] == d[|d| - 1]
    ensures var t' := SplitTree(t, d);
      && ValidPath(t', Init(d)) && OnPath(t', key, Init(d)) && At(t', Init(d)) == Recolour(At(t, d))
      && SlotAt(cell, t', Init(d)) == SlotAt(cell, t, d)
  {
    var g, d1 := d[..|d| - 2], d[|d| - 2];
    WayFromGrandparent(t, d, key);
    var s := Repair(Recoloured(At(t, g), d1, d1), d1, d1);
    SameSideShape(At(t, g), d1, key);
    PutAt(t, g, s);
    PutOnPath(t, key, g, s);
    SlotSnoc(cell, t, Init(d), d1);
    assert Init(d) + [d1] == d;
    AfterRotation(cell, Put(t, g, s), g, d1, key);
  }

  /** The subtree after two rotations: the search goes on through a red node to a calm one. */
  lemma DetourShape(gp: Shape, d1: Dir, d2: Dir, key: int)
    requires Passed(gp, d1, d2, key) && d1 != d2 && NoRedRed(gp) && !TwinReds(gp)
    requires var n := Child(Child(gp, d1), d2);
      Child(gp, d1).red && TwinReds(n) && key != n.key
    ensures var n := Child(Child(gp, d1), d2);
      var s, x := Repair(Recoloured(gp, d1, d2), d1, d2), Toward(n, key);
      && s.Br? && s.id == n.id && s.key == n.key
      && var m := Child(s, x);
         && m.Br? && m.red && !IsRed(m.l) && !IsRed(m.r) && m.key != key
         && IsCalm(Child(m, Toward(m, key))) && Size(Child(m, Toward(m, key))) < Size(n)
  {
    var n := Child(Child(gp, d1), d2);
    assert NoRedRed(Child(gp, d1)) && NoRedRed(n) && NoRedRed(n.l) && NoRedRed(n.r);
    assert !IsRed(Child(gp, Opposite(d1))) && !IsRed(Child(Child(gp, d1), Opposite(d2)));
  }

  /** A split below a red parent on the other side: two rotations, then a detour. */
  lemma SplitOtherSide(cell: RootCell, t: Shape, d: seq<Dir>, key: int, rootp: Slot, parentp: Slot, r: int, p_r: int)
    requires ValidPath(t, d) && OnPath(t, key, d) && TwinReds(At(t, d)) && NoRedRed(t) && !rootp.NoSlot?
    requires RedParent(t, d) && |d| >= 2 && d[|d| - 2] != d[|d| - 1] && !TwinReds(Above(t, d, 2))
    requires key != At(t, d).key && Sign(r, Toward(At(t, d), key))
    ensures Continues(cell, t, d, key, SplitTree(t, d), d[..|d| - 2], Detour, rootp, parentp, r, p_r)
  {
    var g, d1, d2 := d[..|d| - 2], d[|d| - 2], d[|d| - 1];
    WayFromGrandparent(t, d, key);
    SubtreeNoRedRed(t, g);
    DetourShape(At(t, g), d1, d2, key);
    var s := Repair(Recoloured(At(t, g), d1, d2), d1, d2);
    PutAt(t, g, s);
    PutOnPath(t, key, g, s);
    AfterRotation(cell, Put(t, g, s), g, Toward(At(t, d), key), key);
  }

  /** The split on the way down, in all cases: the tree stays a red/black tree with the same contents, and
    * the search goes on below the split node.
    */
  lemma SplitAdvance(cell: RootCell, t: Shape, d: seq<Dir>, key: int, phase: Phase, rootp: Slot,
                     parentp: Slot, gparentp: Slot, p_r: int, gp_r: int, r: int)
    returns (t': Shape, d': seq<Dir>, phase': Phase)
    requires RedBlackTree(t) && Distinct(t) && State(cell, t, d, key, phase, parentp, gparentp, p_r, gp_r)
    requires TwinReds(At(t, d)) && rootp == SlotAt(cell, t, d)
    requires key != At(t, d).key && Sign(r, Toward(At(t, d), key))
    ensures RedParent(t, d) ==> |d| >= 2
    ensures SlotsFor(cell, t, d, parentp, gparentp, p_r, gp_r)
    ensures t' == SplitTree(t, d)
    ensures RedBlackTree(t') && Distinct(t') && Ids(t') <= Ids(t) && Keys(t') == Keys(t)
    ensures Bindings(t') == Bindings(t)
    ensures Continues(cell, t, d, key, t', d', phase', rootp, parentp, r, p_r)
  {
    assert phase == Fresh;
    t' := SplitTree(t, d);
    DescentSplittable(t, d);
    SplitContents(t, d);
    SplitBalances(t, d, BlackHeight(t));
    BalancedHeight(t', BlackHeight(t));
    if !RedParent(t, d) {
      SplitPlain(cell, t, d, key, parentp, r, p_r);
      d', phase' := d, Calm;
    } else if d[|d| - 2] == d[|d| - 1] {
      SplitSameSide(cell, t, d, key, parentp, r, p_r);
      d', phase' := Init(d), Calm;
    } else {
      SplitOtherSide(cell, t, d, key, rootp, parentp, r, p_r);
      d', phase' := d[..|d| - 2], Detour;
    }
  }

  /** A tree may be given a black root at any time. */
  lemma BlackRoot(t: Shape)
    requires RedBlackTree(t)
    ensures RedBlackTree(Blacken(t)) && SameContents(Blacken(t), t)
  {
    BlackenKeeps(t);
    if t.Br? && t.red {
      assert Balanced(t.l, BlackHeight(t)) && Balanced(t.r, BlackHeight(t));
      assert Balanced(Blacken(t), BlackHeight(t) + 1);
    }
  }

  /** One iteration of the descent at a node that does not have the key: split, then move to the child. */
  method Step(key: int, rootp: Slot, parentp: Slot, gparentp: Slot, p_r: int, gp_r: int, r: int,
              ghost cell: RootCell, ghost t: Shape, ghost d: seq<Dir>, ghost phase: Phase)
    returns (nextp: Slot, ghost t': Shape, ghost d': seq<Dir>, ghost phase': Phase)
    requires Holds(cell, t) && RedBlackTree(t)
    requires State(cell, t, d, key, phase, parentp, gparentp, p_r, gp_r) && rootp == SlotAt(cell, t, d)
    requires key != At(t, d).key && Sign(r, Toward(At(t, d), key))
    modifies cell, Ids(t)
    ensures Holds(cell, t') && RedBlackTree(t') && Keys(t') == Keys(t) && Ids(t') <= Ids(t)
    ensures Bindings(t') == Bindings(t)
    ensures ValidPath(t', d') && At(t', d').Br? && OnPath(t', key, d' + [Toward(At(t, d), key)])
    ensures ValidPath(t', d' + [Toward(At(t, d), key)])
    ensures nextp == SlotAt(cell, t', d' + [Toward(At(t, d), key)])
    ensures At(t', d' + [Toward(At(t, d), key)]).Br? ==>
      && State(cell, t', d' + [Toward(At(t, d), key)], key, phase', rootp, parentp, r, p_r)
      && Remaining(At(t', d' + [Toward(At(t, d), key)]), key, phase') < Remaining(At(t, d), key, phase)
    ensures At(t', d' + [Toward(At(t, d), key)]).Leaf? ==> t' == t && d' == d && phase != Detour
  {
    ghost var x := Toward(At(t, d), key);
    LoadSlot(cell, t, d);
    var root := rootp.Load();
    if TwinReds(At(t, d)) {
      t', d', phase' := SplitAdvance(cell, t, d, key, phase, rootp, parentp, gparentp, p_r, gp_r, r);
    } else {
      t', d', phase' := t, d, if phase == Detour then Calm else Fresh;
      SlotSnoc(cell, t, d, x);
      PathSnoc(t, d, x);
      OnPathSnoc(t, key, d);
      if Child(At(t, d), x).Br? {
        Descend(cell, t, d, key, phase, parentp, gparentp, p_r, gp_r, r);
      }
    }
    MaybeSplitForInsert(rootp, parentp, gparentp, p_r, gp_r, 0, cell, t, d);
    nextp := if r < 0 then AtLeft(root) else AtRight(root);
  }

  /** The value of a freshly allocated node. */
  function NewLeaf(q: Node, key: int): Shape {
    Br(q, key, true, Leaf, Leaf)
  }

  /** The tree with a new red node at the empty place d, before any repair. */
  lemma LinkedTree(t: Shape, d: seq<Dir>, key: int, q: Node)
    requires ValidPath(t, d) && OnPath(t, key, d) && At(t, d).Leaf? && q !in Ids(t)
    requires RedBlackTree(t) && Distinct(t)
    ensures var t' := Put(t, d, NewLeaf(q, key));
      && Distinct(t') && Ids(t') <= Ids(t) + {q} && ValidPath(t', d) && At(t', d) == NewLeaf(q, key)
      && Ordered(t') && Keys(t') == Keys(t) + {key} && key !in Keys(t)
      && Bindings(t') == Bindings(t) + {(q, key)}
  {
    PutDistinct(t, d, NewLeaf(q, key), {q});
    PutExact(t, d, NewLeaf(q, key));
    PutAt(t, d, NewLeaf(q, key));
    PutInsert(t, d, key, NewLeaf(q, key));
    Absent(t, d, key);
  }

  /** Links a new node into an empty slot. */
  method Link(nextp: Slot, key: int, ghost cell: RootCell, ghost t: Shape, ghost d: seq<Dir>) returns (q: Node)
    requires Holds(cell, t) && RedBlackTree(t)
    requires ValidPath(t, d) && OnPath(t, key, d) && At(t, d).Leaf? && nextp == SlotAt(cell, t, d)
    modifies cell, Ids(t)
    ensures fresh(q) && q.key == key && q !in Ids(t)
    ensures Holds(cell, Put(t, d, NewLeaf(q, key)))
  {
    Existing(t);
    Focus(cell.root, t, d);
    SlotPointer(cell, t, d);
    OutsideIds(t, d);
    q := new Node(key);
    LinkedTree(t, d, key, q);
    StoreAt(cell, nextp, q, t, d);
    Unfocus(cell.root, t, d, NewLeaf(q, key));
  }

  /** The state at the last node of the descent allows the repair below it. */
  lemma ReadyToRepair(cell: RootCell, t: Shape, d: seq<Dir>, x: Dir, key: int, phase: Phase, q: Shape, rootp: Slot,
                      parentp: Slot, gparentp: Slot, p_r: int, gp_r: int, r: int)
    requires RedBlackTree(t) && State(cell, t, d, key, phase, parentp, gparentp, p_r, gp_r) && phase != Detour
    requires ValidPath(t, d + [x]) && At(t, d + [x]).Leaf? && rootp == SlotAt(cell, t, d) && Sign(r, x)
    requires q.Br? && q.red && q.l.Leaf? && q.r.Leaf?
    ensures ValidPath(Put(t, d + [x], q), d + [x])
    ensures SlotsFor(cell, Put(t, d + [x], q), d + [x], rootp, parentp, r, p_r)
    ensures Splittable(Put(t, d + [x], q), d + [x], BlackHeight(t))
  {
    var d', t' := d + [x], Put(t, d + [x], q);
    assert Init(d') == d && Last(d') == x && d'[..|d'| - 1] == d;
    PutAt(t, d', q);
    PutPrefix(t, d', |d|, q);
    SlotPut(cell, t, d', |d|, q);
    if At(t, d).red {
      assert d'[..|d'| - 2] == Init(d) == d[..|d| - 1];
      SlotPut(cell, t, d', |d'| - 2, q);
    }
    InsertSplittable(t, d', q);
  }

  /** The new node below an existing one: link it, then remove a red pair by rotating. */
  method InsertBelow(key: int, nextp: Slot, rootp: Slot, parentp: Slot, ghost gparentp: Slot, r: int, p_r: int,
      ghost gp_r: int,
                     ghost cell: RootCell, ghost t: Shape, ghost d: seq<Dir>, ghost x: Dir, ghost phase: Phase)
    returns (q: Node, ghost t': Shape)
    requires Holds(cell, t) && RedBlackTree(t) && phase != Detour
    requires State(cell, t, d, key, phase, parentp, gparentp, p_r, gp_r) && rootp == SlotAt(cell, t, d)
    requires key != At(t, d).key && x == Toward(At(t, d), key) && Sign(r, x)
    requires ValidPath(t, d + [x]) && At(t, d + [x]).Leaf? && nextp == SlotAt(cell, t, d + [x])
    modifies cell, Ids(t)
    ensures Holds(cell, t') && RedBlackTree(t') && Ids(t') <= Ids(t) + {q}
    ensures Keys(t') == Keys(t) + {key} && key !in Keys(t)
    ensures fresh(q) && Bindings(t') == Bindings(t) + {(q, key)}
  {
    ghost var d' := d + [x];
    OnPathSnoc(t, key, d);
    q := Link(nextp, key, cell, t, d');
    ghost var leaf := NewLeaf(q, key);
    ghost var t2 := Put(t, d', leaf);
    LinkedTree(t, d', key, q);
    ReadyToRepair(cell, t, d, x, key, phase, leaf, rootp, parentp, gparentp, p_r, gp_r, r);
    SlotPut(cell, t, d', |d'|, leaf);
    assert d'[..|d'|] == d';
    t' := SplitTree(t2, d');
    SplitContents(t2, d');
    SplitBalances(t2, d', BlackHeight(t));
    BalancedHeight(t', BlackHeight(t));
    MaybeSplitForInsert(nextp, rootp, parentp, r, p_r, 1, cell, t2, d');
  }

  lemma SlotsDiffer(cell: RootCell, t: Shape, d: seq<Dir>, x: Dir)
    requires ValidPath(t, d) && At(t, d).Br? && Distinct(t) && ValidPath(t, d + [x])
    ensures SlotAt(cell, t, d + [x]) != SlotAt(cell, t, d)
  {
    SlotSnoc(cell, t, d, x);
    OutsideIds(t, d);
    SlotPointer(cell, t, d);
  }

  /** Where an unsuccessful descent ends: an empty slot below the node at d, or the slot of an empty tree. */
  predicate Ended(cell: RootCell, t: Shape, d: seq<Dir>, key: int, phase: Phase, nextp: Slot, rootp: Slot,
                  parentp: Slot, gparentp: Slot, r: int, p_r: int, gp_r: int)
  {
    if t.Leaf? then nextp == rootp == AtRoot(cell)
    else
      && State(cell, t, d, key, phase, parentp, gparentp, p_r, gp_r) && phase != Detour
      && rootp == SlotAt(cell, t, d) && key != At(t, d).key && Sign(r, Toward(At(t, d), key))
      && EmptyBelow(cell, t, d, Toward(At(t, d), key), nextp)
  }

  predicate EmptyBelow(cell: RootCell, t: Shape, d: seq<Dir>, x: Dir, nextp: Slot) {
    ValidPath(t, d + [x]) && At(t, d + [x]).Leaf? && nextp == SlotAt(cell, t, d + [x])
  }

  lemma EndedAbsent(cell: RootCell, t: Shape, d: seq<Dir>, key: int, phase: Phase, nextp: Slot, rootp: Slot,
                    parentp: Slot, gparentp: Slot, r: int, p_r: int, gp_r: int)
    requires Ordered(t) && Ended(cell, t, d, key, phase, nextp, rootp, parentp, gparentp, r, p_r, gp_r)
    ensures key !in Keys(t)
  {
    if t.Br? {
      OnPathSnoc(t, key, d);
      Absent(t, d + [Toward(At(t, d), key)], key);
    }
  }

  /** The descent of `__tsearch`: ends at a node with the key or at an empty place for it. */
  method Descent(key: int, cell: RootCell, ghost t: Shape)
    returns (found: Node?, nextp: Slot, rootp: Slot, parentp: Slot, r: int, p_r: int,
             ghost t': Shape, ghost d: seq<Dir>, ghost phase: Phase, ghost gparent: Slot, ghost gpr: int)
    requires Holds(cell, t) && RedBlackTree(t)
    modifies cell, Ids(t)
    ensures Holds(cell, t') && RedBlackTree(t') && Keys(t') == Keys(t) && Ids(t') <= Ids(t)
    ensures Bindings(t') == Bindings(t)
    ensures found != null ==> found in Ids(t') && found.key == key && key in Keys(t)
    ensures found == null ==> Ended(cell, t', d, key, phase, nextp, rootp, parentp, gparent, r, p_r, gpr)
  {
    found := null;
    rootp := AtRoot(cell);
    if cell.root != null {
      cell.root.red := false;
    }
    t' := Blacken(t);
    BlackRoot(t);
    nextp, parentp := rootp, NoSlot;
    var gparentp := NoSlot;
    r, p_r := 0, 0;
    var gp_r := 0;
    d, phase := [], Fresh;
    while nextp.Load() != null
      invariant Holds(cell, t') && RedBlackTree(t') && Keys(t') == Keys(t) && Ids(t') <= Ids(t)
      invariant Bindings(t') == Bindings(t)
      invariant nextp == rootp && ValidPath(t', d) && rootp == SlotAt(cell, t', d)
      invariant d == [] || At(t', d).Br?
      invariant At(t', d).Br? ==> State(cell, t', d, key, phase, parentp, gparentp, p_r, gp_r)
      decreases Remaining(At(t', d), key, phase)
    {
      LoadSlot(cell, t', d);
      var root := rootp.Load();
      r := key - root.key;
      if r == 0 {
        Found(t', d);
        return root, nextp, rootp, parentp, r, p_r, t', d, phase, gparentp, gp_r;
      }
      ghost var x := Toward(At(t', d), key);
      ghost var was := phase;
      nextp, t', d, phase := Step(key, rootp, parentp, gparentp, p_r, gp_r, r, cell, t', d, phase);
      LoadSlot(cell, t', d + [x]);
      if nextp.Load() == null {
        return null, nextp, rootp, parentp, r, p_r, t', d, was, gparentp, gp_r;
      }
      d := d + [x];
      gparentp := parentp;
      parentp := rootp;
      rootp := nextp;
      gp_r := p_r;
      p_r := r;
    }
    LoadSlot(cell, t', d);
    gparent, gpr := gparentp, gp_r;
  }

  lemma Found(t: Shape, d: seq<Dir>)
    requires ValidPath(t, d) && At(t, d).Br? && Ordered(t) && Distinct(t)
    ensures At(t, d).key in Keys(t) && At(t, d).id in Ids(t)
  {
    SubtreeOrdered(t, d);
    SubtreeDistinct(t, d);
  }

  /** Finds or inserts a key. Whatever happens, the tree is a red/black tree afterwards. */
  method Tsearch(key: int, vrootp: RootCell?, mallocOk: bool, ghost t: Shape) returns (q: Node?, ghost t': Shape)
    requires vrootp != null ==> Holds(vrootp, t) && RedBlackTree(t)
    modifies if vrootp != null then {vrootp} + Ids(t) else {}
    ensures vrootp == null ==> q == null
    ensures vrootp != null ==>
      && Holds(vrootp, t') && RedBlackTree(t')
      && Keys(t') == (if q != null then Keys(t) + {key} else Keys(t))
      && Bindings(t') == (if q != null && key !in Keys(t) then Bindings(t) + {(q, key)} else Bindings(t))
      && (q != null <==> key in Keys(t) || mallocOk)
      && (q != null ==> q.key == key && q in Ids(t') && (fresh(q) <==> key !in Keys(t)))
  {
    if vrootp == null {
      return null, t;
    }
    Existing(t);
    var found, nextp, rootp, parentp, r, p_r;
    ghost var d, phase, gparentp, gp_r;
    found, nextp, rootp, parentp, r, p_r, t', d, phase, gparentp, gp_r := Descent(key, vrootp, t);
    if found != null {
      return found, t';
    }
    EndedAbsent(vrootp, t', d, key, phase, nextp, rootp, parentp, gparentp, r, p_r, gp_r);
    if !mallocOk {
      return null, t';
    }
    q, t' := InsertAt(key, nextp, rootp, parentp, r, p_r, vrootp, t', d, phase, gparentp, gp_r);
  }

  /** The part of `__tsearch` after a successful malloc. */
  method InsertAt(key: int, nextp: Slot, rootp: Slot, parentp: Slot, r: int, p_r: int, ghost cell: RootCell,
                  ghost t: Shape, ghost d: seq<Dir>, ghost phase: Phase, ghost gparentp: Slot, ghost gp_r: int)
    returns (q: Node, ghost t': Shape)
    requires Holds(cell, t) && RedBlackTree(t)
    requires Ended(cell, t, d, key, phase, nextp, rootp, parentp, gparentp, r, p_r, gp_r)
    modifies cell, Ids(t)
    ensures Holds(cell, t') && RedBlackTree(t') && Keys(t') == Keys(t) + {key}
    ensures fresh(q) && q.key == key && q in Ids(t') && Bindings(t') == Bindings(t) + {(q, key)}
  {
    if t.Br? {
      SlotsDiffer(cell, t, d, Toward(At(t, d), key));
    }
    if nextp == rootp {
      q := Link(nextp, key, cell, t, []);
      t' := NewLeaf(q, key);
    } else {
      q, t' := InsertBelow(key, nextp, rootp, parentp, gparentp, r, p_r, gp_r, cell, t, d, Toward(At(t, d), key),
          phase);
      BoundKey(cell.root, t', q, key);
    }
  }

  /** Finds a key without changing anything. */
  method Tfind(key: int, vrootp: RootCell?, ghost t: Shape) returns (q: Node?)
    requires vrootp != null ==> Holds(vrootp, t) && Ordered(t)
    ensures vrootp == null ==> q == null
    ensures vrootp != null ==> (q != null <==> key in Keys(t))
    ensures vrootp != null && q != null ==> q in Ids(t) && q.key == key
  {
    if vrootp == null {
      return null;
    }
    var rootp := AtRoot(vrootp);
    ghost var d: seq<Dir> := [];
    LoadSlot(vrootp, t, d);
    while rootp.Load() != null
      invariant Holds(vrootp, t)
      invariant ValidPath(t, d) && OnPath(t, key, d) && rootp == SlotAt(vrootp, t, d)
      invariant Rep(rootp.Load(), At(t, d))
      decreases Size(At(t, d))
    {
      var root := rootp.Load();
      var r := key - root.key;
      if r == 0 {
        Found(t, d);
        return root;
      }
      AfterRotation(vrootp, t, d, Toward(At(t, d), key), key);
      d := d + [Toward(At(t, d), key)];
      rootp := if r < 0 then AtLeft(root) else AtRight(root);
      LoadSlot(vrootp, t, d);
    }
    Absent(t, d, key);
    return null;
  }
}
