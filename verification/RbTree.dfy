/**
 The red-black tree of vox_rbtree.c, on node records in memory.

 The fields of the records spell out a tree shape: a position of it is given by a path and the subtree there. Each
 method says which shape the records spell out afterwards, on the same records, and leaves to the lemmas about shapes
 what that means for order, colours and black heights. Insertion and deletion walk down, change one position, and
 repair the tree from there upwards.
 */
module RbTree {
  import opened Prelude
  import opened Bits
  import opened KeyOrder
  import opened RbFixup
  import opened RbShape
  import opened RbSplice

  // ---------- Rotation ----------

  lemma AtParts<V>(c: Path<V>, t: Tree<V>, root: Cell?<V>)
    requires Rep(t, Above(c)) && RepPath(c, Root(t), root) && Cells(t) !! PathCells(c)
    ensures At(c, t, root)
  {
  }

  /** The fields a rotation writes make the records spell out the rotated tree. */
  twostate lemma RepRotated<V>(t: Tree<V>, new s: bool, new up: Cell?<V>, new x: Cell<V>, new y: Cell<V>, new b: Cell?<V>)
    requires t.Node? && t.Kid(!s).Node? && x == t.item.cell && y == t.Kid(!s).item.cell && b == Root(t.Kid(!s).Kid(s))
    requires (up == null || old(allocated(up))) && old(allocated(x) && allocated(y)) && (b == null || old(allocated(b)))
    requires old(Rep(t, up))
    requires forall o | o in Cells(t) && o != x && o != y && o != b :: old(allocated(o)) ==> unchanged(o)
    requires x.red == old(x.red) && x.key == old(x.key) && x.value == old(x.value)
    requires y.red == old(y.red) && y.key == old(y.key) && y.value == old(y.value)
    requires x.parent == y && x.Kid(!s) == b && x.Kid(s) == old(x.Kid(s))
    requires y.parent == up && y.Kid(s) == x && y.Kid(!s) == old(y.Kid(!s))
    requires b != null ==> b.parent == x && b.left == old(b.left) && b.right == old(b.right)
    requires b != null ==> b.red == old(b.red) && b.key == old(b.key) && b.value == old(b.value)
    ensures Rep(Rotated(t, s), up)
  {
    hide Rep;
    var y' := t.Kid(!s);
    var b' := y'.Kid(s);
    OldOpen(t, up);
    OldOpen(y', x);
    if b'.Node? { OldOpen(b', y'.item.cell); }
    RepKept(t.Kid(s), x);
    RepKept(y'.Kid(!s), y'.item.cell);
    Reparented(b', y'.item.cell, x);
    RotatedStands(t, s, up);
  }

  /** The subtrees of a rotated tree, and the fields of its two upper nodes, put together. */
  lemma RotatedStands<V>(t: Tree<V>, s: bool, up: Cell?<V>)
    requires t.Node? && t.Kid(!s).Node?
    requires var near, b, far := t.Kid(s), t.Kid(!s).Kid(s), t.Kid(!s).Kid(!s);
             var x, y := t.item.cell, t.Kid(!s).item.cell;
             && Rep(near, x) && Rep(b, x) && Rep(far, y)
             && x != y && x !in Cells(near) + Cells(b) + Cells(far) && y !in Cells(near) + Cells(b) + Cells(far)
             && Cells(near) !! Cells(b) && Cells(near) !! Cells(far) && Cells(b) !! Cells(far)
    requires var r := Rotated(t, s);
             && Holds(r.item, up, Root(r.left), Root(r.right))
             && Holds(r.Kid(s).item, r.item.cell, Root(r.Kid(s).left), Root(r.Kid(s).right))
    ensures Rep(Rotated(t, s), up)
  {
    hide Rep;
    RepClose(Rotated(t, s).Kid(s), t.Kid(!s).item.cell);
    RepClose(Rotated(t, s), up);
  }

  /** The nodes whose fields a rotation writes, and that it leaves alone the rest. */
  ghost predicate Apart<V>(o: Cell?<V>, a: set<Cell<V>>) {
    o == null || o !in a
  }

  lemma AroundRotation<V>(c: Path<V>, t: Tree<V>, s: bool, root: Cell?<V>)
    requires t.Node? && t.Kid(!s).Node? && At(c, t, root)
    ensures var x, y, y' := t.item.cell, t.Kid(!s).item.cell, t.Kid(!s);
            var b, up := Root(y'.Kid(s)), Above(c);
            && Rep(t, up) && RepPath(c, x, root)
            && x.Kid(!s) == y && y.Kid(s) == b && x.parent == up && x != y && b != x && b != y && up != x && up != y
            && (b == null || (b != up && b in Cells(t))) && {x, y} <= Cells(t) && (up == null || up in PathCells(c))
            && x !in PathCells(c) && y !in PathCells(c) && Apart(b, PathCells(c)) && Apart(up, Cells(t))
            && Cells(t) !! PathCells(c)
  {
    hide Rep, Cells;
    var y := t.Kid(!s);
    RepOpen(t, Above(c));
    RepOpen(y, t.item.cell);
    if y.Kid(s).Node? { RepOpen(y.Kid(s), y.item.cell); }
  }

  function Revalued<V>(t: Tree<V>, value: V): Tree<V> {
    if t.Leaf? then t else Node(t.item.(value := value), t.left, t.right)
  }

  lemma SortedAfter<V>(cmp: Comparison, a: seq<Entry<V>>, b: seq<Entry<V>>, key: Key, value: V)
    requires Orders(cmp) && Sorted(cmp, a + b) && Lower(cmp, a, key) && Upper(cmp, b, key)
    ensures Sorted(cmp, a + [(key, value)] + b)
  {
    hide Orders, Compare;
    var s, s' := a + b, a + [(key, value)] + b;
    forall i, j | 0 <= i < j < |s'| ensures Compare(cmp, s'[i].0, s'[j].0) < 0 {
      var i', j' := if i < |a| then i else i - 1, if j < |a| then j else j - 1;
      assert i != |a| ==> s'[i] == s[i'];
      assert j != |a| ==> s'[j] == s[j'];
    }
  }

  lemma SameKeys<V>(cmp: Comparison, a: seq<Entry<V>>, e: Entry<V>, b: seq<Entry<V>>, value: V)
    requires Sorted(cmp, a + [e] + b)
    ensures Sorted(cmp, a + [(e.0, value)] + b)
  {
    hide Compare;
    var s, s' := a + [e] + b, a + [(e.0, value)] + b;
    forall i, j | 0 <= i < j < |s'| ensures Compare(cmp, s'[i].0, s'[j].0) < 0 {
      assert s'[i].0 == s[i].0 && s'[j].0 == s[j].0;
    }
  }

  /** A new value for a key that is there is what ordered insertion means. */
  lemma RevaluedOrder<V>(cmp: Comparison, c: Path<V>, t: Tree<V>, key: Key, value: V)
    requires Orders(cmp) && t.Node? && Compare(cmp, key, t.item.key) == 0 && Lower(cmp, Before(c) + InOrder(t.left), key)
    requires Sorted(cmp, InOrder(Plug(c, t)))
    ensures var t' := Plug(c, Revalued(t, value));
            && Sorted(cmp, InOrder(t')) && |InOrder(t')| == |InOrder(Plug(c, t))|
            && InOrder(t') == Inserted(cmp, InOrder(Plug(c, t)), key, value)
  {
    hide Orders, Compare, Lower, Inserted, Sorted;
    var t' := Revalued(t, value);
    var a, b := Before(c) + InOrder(t.left), InOrder(t.right) + After(c);
    PlugInOrder(c, t);
    PlugInOrder(c, t');
    var s, s' := a + [Pair(t.item)] + b, a + [(t.item.key, value)] + b;
    assert InOrder(Plug(c, t)) == s;
    assert InOrder(Plug(c, t')) == s';
    InsertedHit(cmp, a, Pair(t.item), b, key, value);
    SameKeys(cmp, a, Pair(t.item), b, value);
  }

  lemma RevaluedShape<V>(c: Path<V>, t: Tree<V>, value: V)
    requires RightColours(Plug(c, t))
    ensures var t' := Plug(c, Revalued(t, value)); RightColours(t') && Height(t') == Height(Plug(c, t))
  {
    var t' := Revalued(t, value);
    PlugHeight(c, t);
    PlugHeight(c, t');
    PlugNoRedRed(c, t);
    PlugNoRedRed(c, t');
    if c.Step? {
      TopIsRoot(c, t);
      TopIsRoot(c, t');
    }
  }

  /** A red node at an empty position is what ordered insertion means; only its parent may be red as well. */
  lemma AttachedKeeps<V>(cmp: Comparison, c: Path<V>, t: Tree<V>, key: Key, value: V)
    requires Orders(cmp) && Lower(cmp, Before(c), key) && Upper(cmp, After(c), key)
    requires RightColours(Plug(c, Leaf)) && Sorted(cmp, InOrder(Plug(c, Leaf)))
    requires IsRed(t) && t.left == t.right == Leaf && t.item.key == key && t.item.value == value
    ensures RedAt(c, t) && Height(Plug(c, t)) == Height(Plug(c, Leaf))
    ensures InOrder(Plug(c, t)) == Inserted(cmp, InOrder(Plug(c, Leaf)), key, value)
    ensures Sorted(cmp, InOrder(Plug(c, t))) && |InOrder(Plug(c, t))| == |InOrder(Plug(c, Leaf))| + 1
  {
    hide Orders, Compare, Lower, Upper, Inserted, Sorted;
    PlugInOrder(c, Leaf);
    PlugInOrder(c, t);
    PlugHeight(c, Leaf);
    PlugHeight(c, t);
    PlugNoRedRed(c, Leaf);
    if c.Step? {
      TopIsRoot(c, Leaf);
    }
    assert InOrder(Plug(c, Leaf)) == Before(c) + After(c);
    assert InOrder(t) == [(key, value)];
    InsertedBetween(cmp, Before(c), After(c), key, value);
    SortedAfter(cmp, Before(c), After(c), key, value);
  }

  /** The records while y moves into node's place: the place above, node's left subtree, y with its new right subtree. */
  ghost predicate Moving<V>(node: Cell<V>, y: Cell<V>, c: Path<V>, i: Item<V>, l: Tree<V>, r: Tree<V>, root: Cell?<V>)
    reads node, y, PathCells(c), Cells(l), Cells(r)
  {
    && RepPath(c, node, root) && node.parent == Above(c) && node.left == Root(l) && node.red == i.red
    && Rep(l, node) && Rep(r, y) && y.right == Root(r) && y == i.cell && y.key == i.key && y.value == i.value
    && y != node && Apart(y, PathCells(c)) && Apart(node, PathCells(c)) && Apart(y, Cells(l)) && Apart(node, Cells(l))
    && Apart(y, Cells(r)) && Apart(node, Cells(r))
    && Cells(l) !! Cells(r) && PathCells(c) !! Cells(l) && PathCells(c) !! Cells(r)
  }

  /** Where the successor y hangs, and that it is apart from all that will surround it. */
  lemma SplicePlaces<V>(c: Path<V>, t: Tree<V>, c2: Path<V>, ty: Tree<V>, root: Cell?<V>)
    requires t.Node? && IsLeast(t, c2, ty) && c2.Step?
    requires At(Append(c2, Step(c, false, t.item, t.left)), ty, root)
    ensures var cy, y := Append(c2, Step(c, false, t.item, t.left)), ty.item.cell;
            && cy.Step? && cy.item.cell == c2.item.cell
            && RepPath(cy, y, root) && y.parent == Above(cy) && y !in PathCells(cy)
            && Holds(ty.item, Above(cy), null, Root(ty.right)) && Rep(ty.right, y)
            && Cells(ty.right) !! PathCells(cy) && y !in Cells(ty.right)
            && (ty.right.Node? ==> Root(ty.right) in Cells(ty.right))
    ensures var r, y := Plug(c2, ty.right), ty.item.cell;
            && y != t.item.cell && Apart(y, PathCells(c)) && Apart(y, Cells(t.left)) && Apart(y, Cells(r)) && c2.item.cell in Cells(r)
            && Cells(ty.right) <= Cells(r)
            && Cells(t) == {t.item.cell, y} + Cells(t.left) + Cells(r)
  {
    hide Rep, RepPath;
    var base := Step(c, false, t.item, t.left);
    AppendCells(c2, base);
    PlugCells(c2, ty.right);
    PlugCells(c2, ty);
    RepOpen(ty, Above(Append(c2, base)));
  }

  /** The parts of a node whose right subtree is r. */
  lemma PartsAt<V>(c: Path<V>, i: Item<V>, l: Tree<V>, r: Tree<V>, root: Cell?<V>)
    requires At(Step(c, false, i, l), r, root)
    ensures RepPath(c, i.cell, root) && Holds(i, Above(c), Root(l), Root(r)) && Rep(l, i.cell) && Rep(r, i.cell)
    ensures Apart(i.cell, PathCells(c)) && Apart(i.cell, Cells(l)) && Apart(i.cell, Cells(r))
    ensures Cells(l) !! Cells(r) && PathCells(c) !! Cells(l) && PathCells(c) !! Cells(r)
    ensures r.Node? ==> Root(r) in Cells(r) && Holds(r.item, i.cell, Root(r.left), Root(r.right))
  {
  }

  /** When the successor is node's own right child. */
  lemma MovingNext<V>(c: Path<V>, t: Tree<V>, ty: Tree<V>, root: Cell?<V>)
    requires t.Node? && IsLeast(t, Top, ty) && At(Step(c, false, t.item, t.left), ty, root)
    ensures Moving(t.item.cell, ty.item.cell, c, ty.item.(red := t.item.red), t.left, ty.right, root)
    ensures Cells(t) == {t.item.cell, ty.item.cell} + Cells(t.left) + Cells(ty.right)
    ensures ty.right.Node? ==> Root(ty.right) in Cells(ty.right)
  {
    hide Rep, RepPath;
    PartsAt(c, t.item, t.left, ty, root);
    RepOpen(ty, t.item.cell);
  }

  /** Where vox_rbtree_delete tells delete_fixup to start; y is the node that was taken out of its place, x its only child. */
  function FixupPlace<V>(x: Cell?<V>, y: Cell<V>, node: Cell<V>, isLeftChild: bool): (Cell?<V>, bool)
    reads x, y, y.parent, if x == null then null else x.parent
  {
    if x != null then (x.parent, x.parent != null && x == x.parent.left)
    else if y.parent == node then (y, isLeftChild)
    else (y.parent, y.parent != null && y == y.parent.left)
  }

  lemma SuccessorParent<V>(c: Path<V>, t: Tree<V>, c2: Path<V>, ty: Tree<V>, root: Cell?<V>)
    requires IsLeast(t, c2, ty) && At(Append(c2, Step(c, false, t.item, t.left)), ty, root)
    ensures c2.Step? <==> ty.item.cell.parent != t.item.cell
  {
    hide Rep, RepPath;
    var base := Step(c, false, t.item, t.left);
    Look(Append(c2, base), ty, root);
    if c2.Step? {
      MoveAt(c2, base, ty, root);
      PartsAt(c, t.item, t.left, t.right, root);
      PlugCells(c2, ty);
    }
  }

  lemma NodeCells<V>(t: Tree<V>)
    requires t.Node?
    ensures Cells(t) == Cells(t.left) + {t.item.cell} + Cells(t.right)
  {
  }

  /** The parts of a node with at most one child, tx. */
  lemma OuterParts<V>(c: Path<V>, t: Tree<V>, tx: Tree<V>, root: Cell?<V>)
    requires At(c, t, root) && t.Node? && (t.left.Leaf? || t.right.Leaf?)
    requires tx == if t.left.Leaf? then t.right else t.left
    ensures var node := t.item.cell;
            && RepPath(c, node, root) && node.parent == Above(c) && node !in PathCells(c)
            && Rep(tx, node) && Cells(tx) !! PathCells(c) && node !in Cells(tx) && Cells(tx) <= Cells(t)
            && (tx.Node? ==> Root(tx) in Cells(tx)) && (tx.Leaf? ==> Cells(tx) == {})
            && Root(tx) == (if node.left == null then node.right else node.left)
            && (c.Step? ==> c.item.cell in PathCells(c) && (c.sib.Node? ==> Root(c.sib) in PathCells(c)))
  {
  }

  lemma BesideAt<V>(c: Path<V>, root: Cell?<V>)
    requires c.Step? && At(c, Leaf, root)
    ensures At(Beside(c), c.sib, root) && PathCells(Beside(c)) + Cells(c.sib) == PathCells(c)
  {
    StepAt(c, Leaf, root);
    StepAt(Beside(c), c.sib, root);
  }

  lemma NewWayAt<V>(c: Path<V>, t: Tree<V>, c2: Path<V>, y: Tree<V>, root: Cell?<V>)
    requires IsLeast(t, c2, y) && At(c, Succeeded(t, c2, y), root)
    ensures At(NewWay(c, t, c2, y), y.right, root)
    ensures PathCells(NewWay(c, t, c2, y)) + Cells(y.right) == PathCells(c) + Cells(Succeeded(t, c2, y))
  {
    hide At, Rep, RepPath;
    var base := Step(c, false, y.item.(red := t.item.red), t.left);
    StepAt(base, Plug(c2, y.right), root);
    MoveAt(c2, base, y.right, root);
    AppendCells(c2, base);
    PlugCells(c2, y.right);
  }

  /** The search ends at a node exactly when the key has a value. */
  lemma Found<V>(cmp: Comparison, c: Path<V>, t: Tree<V>, key: Key)
    requires Orders(cmp)
    requires t.Leaf? ==> Lower(cmp, Before(c), key) && Upper(cmp, After(c), key)
    requires t.Node? ==> Compare(cmp, key, t.item.key) == 0 && Lower(cmp, Before(c) + InOrder(t.left), key)
    ensures Lookup(cmp, InOrder(Plug(c, t)), key) == if t.Leaf? then None else Some(t.item.value)
  {
    hide Orders, Compare, Lower, Upper, Lookup, Before, After, Plug;
    PlugInOrder(c, t);
    if t.Node? {
      assert InOrder(t) == InOrder(t.left) + [Pair(t.item)] + InOrder(t.right);
      assert InOrder(Plug(c, t)) == (Before(c) + InOrder(t.left)) + [Pair(t.item)] + (InOrder(t.right) + After(c));
      LookupHit(cmp, Before(c) + InOrder(t.left), Pair(t.item), InOrder(t.right) + After(c), key);
    } else {
      assert InOrder(Plug(c, t)) == Before(c) + After(c);
      LookupMissing(cmp, Before(c), After(c), key);
    }
  }

  class RbTree<V> {
    var root: Cell?<V>
    var size: nat
    const cmp: Comparison
    ghost var shape: Tree<V>

    /** The entries in key order. */
    ghost function Entries(): seq<Entry<V>>
      reads this
    {
      InOrder(shape)
    }

    /** Consistent links, a black root without red-red edges below, keys in order, and the right count. */
    ghost predicate Valid()
      reads this, Cells(shape)
    {
      At(Top, shape, root) && RightColours(shape) && Orders(cmp) && Sorted(cmp, Entries()) && size == |Entries()|
    }

    /** Equal black heights. */
    ghost predicate Balanced()
      reads this
    {
      Height(shape) >= 0
    }

    /** A balanced tree is at most 2 * log2(size + 1) deep. */
    lemma DepthBySize()
      requires Valid() && Balanced()
      ensures Pow2(Depth(shape)) <= (size + 1) * (size + 1)
    {
      hide At, Orders, Sorted, Depth, Size, InOrder, Height, NoRedRed, IsRed, Pow2;
      SizeIsCount(shape);
      DepthIsLogarithmic(shape);
    }

    constructor (cmp: Comparison)
      requires Orders(cmp)
      ensures Valid() && Balanced() && Entries() == []
      ensures root == null && size == 0 && shape == Leaf && this.cmp == cmp
    {
      root, size, shape := null, 0, Leaf;
      this.cmp := cmp;
    }

    /** Hangs y where x hangs: the step that rotations and transplant share. */
    method Hang(x: Cell<V>, y: Cell?<V>, ghost c: Path<V>)
      requires RepPath(c, x, root) && x !in PathCells(c) && x.parent == Above(c)
      requires y !in PathCells(c)
      modifies this`root, if c.Top? then {} else {c.item.cell}
      ensures RepPath(c, y, root)
    {
      if x.parent == null {
        root := y;
      } else if x == x.parent.left {
        x.parent.left := y;
      } else {
        x.parent.right := y;
      }
    }

    method LeftRotate(x: Cell<V>, ghost c: Path<V>, ghost t: Tree<V>)
      requires t.Node? && x == t.item.cell && t.right.Node? && At(c, t, root)
      modifies this`root, PathCells(c), Cells(t)
      ensures At(c, Rotated(t, true), root) && Cells(Rotated(t, true)) == Cells(t)
    {
      hide Rep, RepPath, Cells, PathCells, At;
      AroundRotation(c, t, true, root);
      var y := x.right;
      x.right := y.left;
      if y.left != null {
        y.left.parent := x;
      }
      y.parent := x.parent;
      PathKept(c, x, root);
      Hang(x, y, c);
      label Hung:
      y.left := x;
      x.parent := y;
      PathKept@Hung(c, y, root);
      RepRotated(t, true, Above(c), x, y, x.right);
      RotatedCells(t, true);
      AtParts(c, Rotated(t, true), root);
    }

    method RightRotate(x: Cell<V>, ghost c: Path<V>, ghost t: Tree<V>)
      requires t.Node? && x == t.item.cell && t.left.Node? && At(c, t, root)
      modifies this`root, PathCells(c), Cells(t)
      ensures At(c, Rotated(t, false), root) && Cells(Rotated(t, false)) == Cells(t)
    {
      hide Rep, RepPath, Cells, PathCells, At;
      AroundRotation(c, t, false, root);
      var y := x.left;
      x.left := y.right;
      if y.right != null {
        y.right.parent := x;
      }
      y.parent := x.parent;
      PathKept(c, x, root);
      Hang(x, y, c);
      label Hung:
      y.right := x;
      x.parent := y;
      PathKept@Hung(c, y, root);
      RepRotated(t, false, Above(c), x, y, x.left);
      RotatedCells(t, false);
      AtParts(c, Rotated(t, false), root);
    }

    method SetColor(x: Cell?<V>, red: bool, ghost c: Path<V>, ghost t: Tree<V>)
      requires At(c, t, root) && x == Root(t)
      modifies Cells(t)
      ensures At(c, Coloured(t, red), root) && Cells(Coloured(t, red)) == Cells(t)
    {
      if x != null {
        Look(c, t, root);
        x.red := red;
        RepKept(t.left, x);
        RepKept(t.right, x);
        PathKept(c, x, root);
        assert At(c, Coloured(t, red), root) by { hide Rep; RepClose(Coloured(t, red), Above(c)); }
      }
    }

    // ---------- Insertion repair ----------

    /** Case 1 of insert_fixup: the uncle is red. */
    method RecolourUncle(node: Cell<V>, uncle: Cell<V>, ghost c: Path<V>, ghost t: Tree<V>)
      requires At(c, t, root) && node == Root(t) && c.Step? && c.up.Step? && uncle == Root(c.up.sib)
      modifies PathCells(c), Cells(t)
      ensures At(c.up.up, UncleRed(c, t), root)
      ensures PathCells(c.up.up) + Cells(UncleRed(c, t)) == PathCells(c) + Cells(t)
    {
      hide At, Rep, RepPath;
      Look(c, t, root);
      var parent := node.parent;
      ghost var p := Make(c.hole, c.item, t, c.sib);
      StepAt(c, t, root);
      Look(c.up, p, root);
      var grandparent := parent.parent;
      SetColor(parent, false, c.up, p);
      ghost var p' := Blackened(p);
      StepAt(c.up, p', root);
      ghost var cu := Step(c.up.up, !c.up.hole, c.up.item, p');
      StepAt(cu, c.up.sib, root);
      SetColor(uncle, false, cu, c.up.sib);
      StepAt(cu, Blackened(c.up.sib), root);
      SetColor(grandparent, true, c.up.up, Make(c.up.hole, c.up.item, p', Blackened(c.up.sib)));
    }

    method Rotate(x: Cell<V>, s: bool, ghost c: Path<V>, ghost t: Tree<V>)
      requires t.Node? && x == t.item.cell && t.Kid(!s).Node? && At(c, t, root)
      modifies this`root, PathCells(c), Cells(t)
      ensures At(c, Rotated(t, s), root) && Cells(Rotated(t, s)) == Cells(t)
    {
      if s {
        LeftRotate(x, c, t);
      } else {
        RightRotate(x, c, t);
      }
    }

    /** Case 3 of insert_fixup: the node is an outer grandchild, its uncle black. */
    method RotateGrandparent(node: Cell<V>, s: bool, ghost c: Path<V>, ghost t: Tree<V>)
      requires At(c, t, root) && RedAt(c, t) && node == Root(t) && c.Step? && c.item.red
      requires c.up.Step? && c.hole == c.up.hole == s && !IsRed(c.up.sib)
      modifies this`root, PathCells(c), Cells(t)
      ensures At(OuterPath(c), t, root)
      ensures PathCells(OuterPath(c)) + Cells(t) == PathCells(c) + Cells(t)
    {
      hide At, Rep, RepPath, RedAt;
      OuterKeeps(c, t);
      Look(c, t, root);
      var parent := node.parent;
      ghost var p := Make(c.hole, c.item, t, c.sib);
      StepAt(c, t, root);
      Look(c.up, p, root);
      var grandparent := parent.parent;
      SetColor(parent, false, c.up, p);
      ghost var g := Make(c.up.hole, c.up.item, Blackened(p), c.up.sib);
      StepAt(c.up, Blackened(p), root);
      SetColor(grandparent, true, c.up.up, g);
      Rotate(grandparent, !s, c.up.up, Coloured(g, true));
      StepAt(OuterPath(c), t, root);
    }

    /** Case 2 of insert_fixup: the node is an inner grandchild, its uncle black; its parent takes its role. */
    method RotateParent(parent: Cell<V>, s: bool, ghost c: Path<V>, ghost t: Tree<V>)
      requires At(c, t, root) && RedAt(c, t) && t.Node? && c.Step? && c.item.red && parent == c.item.cell
      requires c.up.Step? && c.hole != c.up.hole == s && !IsRed(c.up.sib)
      modifies this`root, PathCells(c), Cells(t)
      ensures At(InnerPath(c, t), InnerTree(c, t), root)
      ensures PathCells(InnerPath(c, t)) + Cells(InnerTree(c, t)) == PathCells(c) + Cells(t)
    {
      hide At, Rep, RepPath, RedAt;
      InnerKeeps(c, t);
      StepAt(c, t, root);
      Rotate(parent, s, c.up, Make(c.hole, c.item, t, c.sib));
      StepAt(InnerPath(c, t), InnerTree(c, t), root);
    }

    /** One round of insert_fixup; the two mirrored branches are one, with s for the side of the parent. */
    method InsertRound(node0: Cell<V>, ghost c0: Path<V>, ghost t0: Tree<V>)
      returns (node: Cell<V>, ghost c: Path<V>, ghost t: Tree<V>)
      requires At(c0, t0, root) && RedAt(c0, t0) && node0 == Root(t0) && c0.Step? && c0.item.red
      modifies this`root, PathCells(c0), Cells(t0)
      ensures At(c, t, root) && RedAt(c, t) && node == Root(t)
      ensures PathCells(c) + Cells(t) == PathCells(c0) + Cells(t0)
      ensures InOrder(Plug(c, t)) == InOrder(Plug(c0, t0)) && Height(Plug(c, t)) == Height(Plug(c0, t0))
      ensures ToClimb(c) < ToClimb(c0)
    {
      hide At, Rep, RepPath, RedAt, Height, Plug, InOrder, PathCells, Cells;
      node, c, t := node0, c0, t0;
      RedParent(c, t);
      assert Steps(c) == 1 + Steps(c.up) == 2 + Steps(c.up.up);
      Look(c, t, root);
      var parent := node.parent;
      StepAt(c, t, root);
      Look(c.up, Make(c.hole, c.item, t, c.sib), root);
      var grandparent := parent.parent;
      var s := parent == grandparent.left;
      var uncle := grandparent.Kid(!s);
      if uncle != null && uncle.red {
        RecolourUncle(node, uncle, c, t);
        UncleRedKeeps(c, t);
        node := grandparent;
        c, t := c.up.up, UncleRed(c, t);
      } else {
        if node == parent.Kid(!s) {
          node := parent;
          InnerKeeps(c, t);
          RotateParent(parent, s, c, t);
          c, t := InnerPath(c, t), InnerTree(c, t);
        }
        OuterKeeps(c, t);
        RotateGrandparent(node, s, c, t);
        c := OuterPath(c);
      }
    }

    /** insert_fixup */
    method InsertFixup(node0: Cell<V>, ghost c0: Path<V>, ghost t0: Tree<V>) returns (ghost whole: Tree<V>)
      requires At(c0, t0, root) && RedAt(c0, t0) && node0 == Root(t0)
      modifies this`root, PathCells(c0), Cells(t0)
      ensures At(Top, whole, root) && Cells(whole) == PathCells(c0) + Cells(t0)
      ensures RightColours(whole) && InOrder(whole) == InOrder(Plug(c0, t0))
      ensures Height(whole) >= 0 <==> Height(Plug(c0, t0)) >= 0
    {
      hide At, Rep, RepPath, RedAt, RightColours, Height, Plug, InOrder, PathCells, Cells;
      var node: Cell<V> := node0;
      ghost var c, t := c0, t0;
      Look(c, t, root);
      while node != root && node.parent.red
        invariant At(c, t, root) && RedAt(c, t) && node == Root(t)
        invariant c.Step? ==> node != root && node.parent == c.item.cell && c.item.cell.red == c.item.red
        invariant c.Top? ==> node == root
        invariant PathCells(c) + Cells(t) == PathCells(c0) + Cells(t0)
        invariant InOrder(Plug(c, t)) == InOrder(Plug(c0, t0)) && Height(Plug(c, t)) == Height(Plug(c0, t0))
        decreases ToClimb(c)
      {
        node, c, t := InsertRound(node, c, t);
        Look(c, t, root);
      }
      WholeAt(c, t, root);
      PlugCells(c, t);
      whole := Plug(c, t);
      InsertDone(c, t);
      Look(Top, whole, root);
      SetColor(root, false, Top, whole);
      whole := Blackened(whole);
    }

    // ---------- Searching ----------

    /** find_node, which is also the descent of insert: parent and d are the last node seen and how key compares with it. */
    method FindNode(key: Key) returns (node: Cell?<V>, parent: Cell?<V>, d: int, ghost c: Path<V>, ghost t: Tree<V>)
      requires Valid()
      ensures Valid() && At(c, t, root) && node == Root(t) && Plug(c, t) == shape
      ensures node == null ==> Lower(cmp, Before(c), key) && Upper(cmp, After(c), key)
      ensures node != null ==> Compare(cmp, key, t.item.key) == 0 && Lower(cmp, Before(c) + InOrder(t.left), key)
      ensures node == null ==> parent == Above(c) && (c.Step? ==> (d < 0 <==> c.hole))
    {
      hide At, Rep, RepPath, InOrder, Sorted, Orders, RightColours, Compare, Lower, Upper;
      node, parent, d := root, null, 0;
      c, t := Top, shape;
      NoneOutside(key);
      Look(c, t, root);
      while node != null
        invariant Valid() && At(c, t, root) && node == Root(t) && Plug(c, t) == shape
        invariant Lower(cmp, Before(c), key) && Upper(cmp, After(c), key)
        invariant parent == Above(c) && (c.Step? ==> (d < 0 <==> c.hole))
        decreases t
      {
        Look(c, t, root);
        parent := node;
        d := Compare(cmp, key, node.key);
        NarrowTo(c, t, key);
        if d == 0 {
          return;
        }
        assert t == Make(d < 0, t.item, t.Kid(d < 0), t.Kid(d >= 0));
        StepAt(Step(c, d < 0, t.item, t.Kid(d >= 0)), t.Kid(d < 0), root);
        c, t := Step(c, d < 0, t.item, t.Kid(d >= 0)), t.Kid(d < 0);
        node := if d < 0 then node.left else node.right;
      }
    }

    lemma NoneOutside(key: Key)
      ensures Lower<V>(cmp, Before(Top), key) && Upper<V>(cmp, After(Top), key)
    {
    }

    /** What stands before and after a node, in the whole tree and seen from its children. */
    lemma AroundNode(c: Path<V>, t: Tree<V>)
      requires t.Node?
      ensures var a, e, b := Before(c) + InOrder(t.left), Pair(t.item), InOrder(t.right) + After(c);
              && InOrder(Plug(c, t)) == a + [e] + b
              && After(Step(c, true, t.item, t.right)) == [e] + b && Before(Step(c, false, t.item, t.left)) == a + [e]
    {
      PlugInOrder(c, t);
      var l, e, r := InOrder(t.left), [Pair(t.item)], InOrder(t.right);
      assert InOrder(t) == l + e + r;
      assert After(Step(c, true, t.item, t.right)) == e + r + After(c);
      assert Before(Step(c, false, t.item, t.left)) == Before(c) + l + e;
      hide InOrder, Before, After, Plug;
      Regrouped(Before(c), l, e, r, After(c));
    }

    lemma Regrouped(a: seq<Entry<V>>, l: seq<Entry<V>>, e: seq<Entry<V>>, r: seq<Entry<V>>, b: seq<Entry<V>>)
      ensures a + (l + e + r) + b == (a + l) + e + (r + b) && e + r + b == e + (r + b)
    {
    }

    lemma NarrowTo(c: Path<V>, t: Tree<V>, key: Key)
      requires t.Node? && Orders(cmp) && Sorted(cmp, InOrder(Plug(c, t)))
      requires Lower(cmp, Before(c), key) && Upper(cmp, After(c), key)
      ensures Compare(cmp, key, t.item.key) < 0 ==> Upper(cmp, After(Step(c, true, t.item, t.right)), key)
      ensures Compare(cmp, key, t.item.key) > 0 ==> Lower(cmp, Before(Step(c, false, t.item, t.left)), key)
      ensures Compare(cmp, key, t.item.key) == 0 ==> Lower(cmp, Before(c) + InOrder(t.left), key)
    {
      hide Orders, Compare, Sorted, Lower, Upper, InOrder, Before, After;
      var a, e, b := Before(c) + InOrder(t.left), Pair(t.item), InOrder(t.right) + After(c);
      AroundNode(c, t);
      if Compare(cmp, key, e.0) < 0 {
        NarrowedLeft(cmp, a, e, b, key);
      } else {
        NarrowedRight(cmp, a, e, b, key);
      }
    }

    /** vox_rbtree_find: the value stored under a key that compares equal, NULL for an empty or a missing key. */
    method Find(key: Key) returns (value: Option<V>)
      requires Valid()
      ensures value == if key == [] then None else Lookup(cmp, Entries(), key)
    {
      hide At, Rep, RepPath, Sorted, Orders, RightColours, Compare, Lower, Upper, Lookup;
      if key == [] {
        return None;
      }
      var node, parent, d;
      ghost var c, t;
      node, parent, d, c, t := FindNode(key);
      Found(cmp, c, t, key);
      Look(c, t, root);
      value := if node != null then Some(node.value) else None;
    }

    // ---------- Insertion ----------

    method SetValue(x: Cell<V>, value: V, ghost c: Path<V>, ghost t: Tree<V>)
      requires At(c, t, root) && x == Root(t)
      modifies x`value
      ensures At(c, Revalued(t, value), root) && Cells(Revalued(t, value)) == Cells(t)
    {
      x.value := value;
      RepKept(t.left, x);
      RepKept(t.right, x);
      PathKept(c, x, root);
      assert At(c, Revalued(t, value), root) by { hide Rep; RepClose(Revalued(t, value), Above(c)); }
    }

    /** Hangs a new node at an empty position. */
    method Attach(n: Cell<V>, parent: Cell?<V>, d: int, ghost c: Path<V>)
      requires At(c, Leaf, root) && n !in PathCells(c) && n.parent == parent == Above(c) && n.left == n.right == null
      requires c.Step? ==> (d < 0 <==> c.hole)
      modifies this`root, if c.Top? then {} else {c.item.cell}
      ensures At(c, Node(Item(n, n.red, n.key, n.value), Leaf, Leaf), root)
    {
      if parent == null {
        root := n;
      } else if d < 0 {
        parent.left := n;
      } else {
        parent.right := n;
      }
    }

    method UpdateNode(node: Cell<V>, key: Key, value: V, ghost c: Path<V>, ghost t: Tree<V>)
      requires Valid() && At(c, t, root) && node == Root(t) && Plug(c, t) == shape
      requires Compare(cmp, key, t.item.key) == 0 && Lower(cmp, Before(c) + InOrder(t.left), key)
      modifies `shape, node`value
      ensures Valid() && Cells(shape) == old(Cells(shape))
      ensures Entries() == Inserted(cmp, old(Entries()), key, value) && (Balanced() <==> old(Balanced()))
    {
      hide At, Rep, RepPath, InOrder, Sorted, Orders, RightColours, Compare, Lower, Upper, Inserted;
      ghost var t' := Revalued(t, value);
      PlugCells(c, t);
      PlugCells(c, t');
      SetValue(node, value, c, t);
      WholeAt(c, t', root);
      RevaluedOrder(cmp, c, t, key, value);
      RevaluedShape(c, t, value);
      label Written:
      shape := Plug(c, t');
      AtKept@Written(Top, shape, root);
    }

    method AddNode(parent: Cell?<V>, d: int, key: Key, value: V, ghost c: Path<V>) returns (n: Cell<V>)
      requires Valid() && At(c, Leaf, root) && Plug(c, Leaf) == shape
      requires Lower(cmp, Before(c), key) && Upper(cmp, After(c), key)
      requires parent == Above(c) && (c.Step? ==> (d < 0 <==> c.hole))
      modifies this, Cells(shape)
      ensures Valid() && fresh(n) && Cells(shape) == old(Cells(shape)) + {n}
      ensures Entries() == Inserted(cmp, old(Entries()), key, value) && (Balanced() <==> old(Balanced()))
    {
      hide At, Rep, RepPath, InOrder, Sorted, Orders, RightColours, Compare, Lower, Upper, Inserted, Height;
      PathAllocated(c);
      PlugCells(c, Leaf);
      label Searched:
      n := new Cell(parent, key, value);
      AtKept@Searched(c, Leaf, root);
      Attach(n, parent, d, c);
      size := size + 1;
      ghost var t := Node(Item(n, true, key, value), Leaf, Leaf);
      AttachedKeeps(cmp, c, t, key, value);
      ghost var whole := InsertFixup(n, c, t);
      label Written:
      shape := whole;
      AtKept@Written(Top, shape, root);
    }

    /** vox_rbtree_insert; -1 for an empty key. */
    method Insert(key: Key, value: V) returns (ret: int)
      requires Valid()
      modifies this, Cells(shape)
      ensures Valid() && fresh(Cells(shape) - old(Cells(shape)))
      ensures key == [] ==> ret == -1 && Entries() == old(Entries())
      ensures key != [] ==> ret == 0 && Entries() == Inserted(cmp, old(Entries()), key, value)
      ensures Balanced() <==> old(Balanced())
    {
      hide At, Rep, RepPath, InOrder, Sorted, Orders, RightColours, Compare, Lower, Upper, Inserted;
      if key == [] {
        return -1;
      }
      var node, parent, d;
      ghost var c, t;
      node, parent, d, c, t := FindNode(key);
      if node != null {
        PlugCells(c, t);
        UpdateNode(node, key, value, c, t);
      } else {
        var n := AddNode(parent, d, key, value, c);
      }
      return 0;
    }

    // ---------- Deletion repair ----------

    /** Colours the child of the node above the position on the other side. */
    method SetSiblingColor(sibling: Cell?<V>, red: bool, ghost c: Path<V>, ghost t: Tree<V>)
      requires At(c, t, root) && c.Step? && sibling == Root(c.sib)
      modifies Cells(c.sib)
      ensures At(c.(sib := Coloured(c.sib, red)), t, root) && Cells(Coloured(c.sib, red)) == Cells(c.sib)
    {
      hide At, Rep, RepPath;
      ghost var cs := Step(c.up, !c.hole, c.item, t);
      StepAt(c, t, root);
      StepAt(cs, c.sib, root);
      SetColor(sibling, red, cs, c.sib);
      StepAt(cs, Coloured(c.sib, red), root);
      StepAt(c.(sib := Coloured(c.sib, red)), t, root);
    }

    method SetParentColor(parent: Cell<V>, red: bool, ghost c: Path<V>, ghost t: Tree<V>)
      requires At(c, t, root) && c.Step? && parent == c.item.cell
      modifies PathCells(c), Cells(t)
      ensures At(c.(item := c.item.(red := red)), t, root)
    {
      hide At, Rep, RepPath;
      ghost var p := Make(c.hole, c.item, t, c.sib);
      StepAt(c, t, root);
      SetColor(parent, red, c.up, p);
      StepAt(c.(item := c.item.(red := red)), t, root);
    }

    /** Case 1 of delete_fixup: the sibling is red. */
    method RotateRedSibling(sibling: Cell<V>, parent: Cell<V>, s: bool, ghost c: Path<V>, ghost t: Tree<V>)
      requires At(c, t, root) && c.Step? && c.hole == s && sibling == Root(c.sib) && parent == c.item.cell
      requires IsRed(c.sib) && PathNoRedRed(c, false) && TopBlack(c)
      modifies this`root, PathCells(c), Cells(t)
      ensures At(SiblingRed(c), t, root) && PathCells(SiblingRed(c)) == PathCells(c)
    {
      hide At, Rep, RepPath, PathNoRedRed, TopBlack;
      SiblingRedKeeps(c, t);
      SetSiblingColor(sibling, false, c, t);
      ghost var c1 := c.(sib := Blackened(c.sib));
      SetParentColor(parent, true, c1, t);
      ghost var c2 := c1.(item := Red(c.item));
      StepAt(c2, t, root);
      Rotate(parent, s, c.up, Make(s, c2.item, t, c2.sib));
      StepAt(SiblingRed(c).up, Make(s, Red(c.item), t, c.sib.Kid(s)), root);
      StepAt(SiblingRed(c), t, root);
    }

    /** Case 3 of delete_fixup: only the inner nephew is red. */
    method TurnNephew(sibling: Cell<V>, s: bool, ghost c: Path<V>, ghost t: Tree<V>)
      requires At(c, t, root) && c.Step? && c.hole == s && sibling == Root(c.sib)
      requires c.sib.Node? && !c.sib.item.red && NoRedRed(c.sib) && IsRed(c.sib.Kid(s)) && !IsRed(c.sib.Kid(!s))
      modifies this`root, PathCells(c), Cells(t)
      ensures At(c.(sib := NephewTurned(s, c.sib)), t, root)
      ensures Cells(NephewTurned(s, c.sib)) == Cells(c.sib)
    {
      hide At, Rep, RepPath, NoRedRed;
      NephewTurnedKeeps(s, c.sib);
      ghost var cs := Step(c.up, !s, c.item, t);
      StepAt(c, t, root);
      StepAt(cs, c.sib, root);
      ghost var cn := Step(cs, s, c.sib.item, c.sib.Kid(!s));
      Look(cs, c.sib, root);
      StepAt(cn, c.sib.Kid(s), root);
      if sibling.Kid(s) != null {
        SetColor(sibling.Kid(s), false, cn, c.sib.Kid(s));
      }
      StepAt(cn, Blackened(c.sib.Kid(s)), root);
      ghost var b := Make(s, c.sib.item, Blackened(c.sib.Kid(s)), c.sib.Kid(!s));
      SetColor(sibling, true, cs, b);
      Rotate(sibling, !s, cs, Coloured(b, true));
      StepAt(cs, NephewTurned(s, c.sib), root);
      StepAt(c.(sib := NephewTurned(s, c.sib)), t, root);
    }

    /** Case 4 of delete_fixup: the outer nephew is red. */
    method RotateSiblingUp(sibling: Cell<V>, parent: Cell<V>, s: bool, ghost c: Path<V>, ghost t: Tree<V>)
      requires At(c, t, root) && c.Step? && c.hole == s && sibling == Root(c.sib) && parent == c.item.cell
      requires c.sib.Node? && !c.sib.item.red && IsRed(c.sib.Kid(!s))
      requires NoRedRed(t) && PathNoRedRed(c, false) && TopBlack(c)
      modifies this`root, PathCells(c), Cells(t)
      ensures At(c.up, SiblingUp(c, t), root)
      ensures PathCells(c.up) + Cells(SiblingUp(c, t)) == PathCells(c) + Cells(t)
    {
      hide At, Rep, RepPath, NoRedRed, PathNoRedRed, TopBlack;
      SiblingUpKeeps(c, t);
      Look(c, t, root);
      SetSiblingColor(sibling, parent.red, c, t);
      ghost var c1 := c.(sib := Coloured(c.sib, c.item.red));
      SetParentColor(parent, false, c1, t);
      ghost var c2 := c1.(item := Black(c.item));
      ghost var cs := Step(c.up, !s, c2.item, t);
      ghost var cn := Step(cs, !s, c2.sib.item, c.sib.Kid(s));
      StepAt(c2, t, root);
      StepAt(cs, c2.sib, root);
      Look(cs, c2.sib, root);
      StepAt(cn, c.sib.Kid(!s), root);
      if sibling.Kid(!s) != null {
        SetColor(sibling.Kid(!s), false, cn, c.sib.Kid(!s));
      }
      ghost var n := Blackened(c.sib.Kid(!s));
      StepAt(cn, n, root);
      StepAt(cs, Make(s, c2.sib.item, c.sib.Kid(s), n), root);
      assert Cells(Make(s, c2.sib.item, c.sib.Kid(s), n)) == Cells(c.sib);
      Rotate(parent, s, c.up, Make(s, c2.item, t, Make(s, c2.sib.item, c.sib.Kid(s), n)));
    }

    /** Case 2 of delete_fixup: no nephew is red, or there is no sibling. */
    method ClimbToParent(sibling: Cell?<V>, parent0: Cell<V>, ghost c0: Path<V>, ghost t0: Tree<V>)
      returns (parent: Cell?<V>, isLeft: bool, ghost t: Tree<V>)
      requires At(c0, t0, root) && c0.Step? && parent0 == c0.item.cell && sibling == Root(c0.sib)
      modifies PathCells(c0), Cells(t0)
      ensures t == SiblingBlack(c0, t0) && At(c0.up, t, root)
      ensures PathCells(c0.up) + Cells(t) == PathCells(c0) + Cells(t0)
      ensures c0.up.Step? ==> parent == c0.up.item.cell && isLeft == c0.up.hole
    {
      hide At, Rep, RepPath;
      SetSiblingColor(sibling, true, c0, t0);
      t := SiblingBlack(c0, t0);
      StepAt(c0.(sib := Coloured(c0.sib, true)), t0, root);
      Look(c0.up, t, root);
      parent := parent0.parent;
      isLeft := parent != null && parent0 == parent.left;
    }

    /** Cases 3 and 4 of delete_fixup: a nephew is red. */
    method RepairRedNephew(sibling0: Cell<V>, parent: Cell<V>, s: bool, ghost c0: Path<V>, ghost t: Tree<V>)
      returns (ghost whole: Tree<V>)
      requires At(c0, t, root) && c0.Step? && parent == c0.item.cell && sibling0 == Root(c0.sib) && s == c0.hole
      requires !IsRed(c0.sib) && (IsRed(c0.sib.left) || IsRed(c0.sib.right))
      requires NoRedRed(t) && PathNoRedRed(c0, false) && TopBlack(c0)
      modifies this`root, PathCells(c0), Cells(t)
      ensures At(Top, whole, root) && Cells(whole) == PathCells(c0) + Cells(t)
      ensures NoRedRed(whole) && InOrder(whole) == InOrder(Plug(c0, t))
      ensures ShortAt(c0, t) ==> Height(whole) >= 0
      ensures Height(t) < 0 ==> Height(whole) < 0
    {
      hide At, Rep, RepPath, Plug, InOrder, TopBlack, ShortAt, Height;
      ghost var c := c0;
      var sibling: Cell<V> := sibling0;
      ghost var cs := Step(c.up, !s, c.item, t);
      StepAt(c, t, root);
      StepAt(cs, c.sib, root);
      LookDown(cs, c.sib, root);
      var far := sibling.Kid(!s);
      if !(far != null && far.red) {
        assert IsRed(c.sib.Kid(s));
        NephewTurnedKeeps(s, c.sib);
        TurnNephew(sibling, s, c, t);
        SiblingSwapped(c, t, NephewTurned(s, c.sib));
        c := c.(sib := NephewTurned(s, c.sib));
        Look(c, t, root);
        sibling := parent.Kid(!s);
      }
      SiblingUpKeeps(c, t);
      SiblingUpBalances(c, t);
      RotateSiblingUp(sibling, parent, s, c, t);
      whole := Plug(c.up, SiblingUp(c, t));
      WholeAt(c.up, SiblingUp(c, t), root);
      PlugCells(c.up, SiblingUp(c, t));
    }

    /** Cases 2 to 4 of delete_fixup, beside a sibling that is missing or black. */
    method RepairBeside(sibling: Cell?<V>, parent0: Cell<V>, s: bool, ghost c0: Path<V>, ghost t0: Tree<V>)
      returns (node: Cell<V>, parent: Cell?<V>, isLeft: bool, ghost c: Path<V>, ghost t: Tree<V>)
      requires At(c0, t0, root) && c0.Step? && parent0 == c0.item.cell && s == c0.hole && sibling == Root(c0.sib)
      requires !IsRed(c0.sib) && NoRedRed(t0) && PathNoRedRed(c0, false) && TopBlack(c0)
      modifies this`root, PathCells(c0), Cells(t0)
      ensures At(c, t, root) && PathCells(c) + Cells(t) == PathCells(c0) + Cells(t0)
      ensures node == Root(t) && (c.Step? ==> parent == c.item.cell && isLeft == c.hole)
      ensures ColoursAt(c, t, true) && InOrder(Plug(c, t)) == InOrder(Plug(c0, t0))
      ensures ShortAt(c0, t0) ==> ShortAt(c, t)
      ensures Height(t0) < 0 || LostBeside(c0, t0) ==> Height(t) < 0
      ensures c.Top? || (c == c0.up && (IsRed(t) <==> c0.item.red))
    {
      hide At, Rep, RepPath, Plug, InOrder, TopBlack, ShortAt, Height, ColoursAt, NoRedRed, PathNoRedRed, LostBeside;
      c, t := c0, t0;
      var black := sibling == null;
      if sibling != null {
        ghost var cs := Step(c.up, !s, c.item, t);
        StepAt(c, t, root);
        StepAt(cs, c.sib, root);
        LookDown(cs, c.sib, root);
        black := !(sibling.left != null && sibling.left.red) && !(sibling.right != null && sibling.right.red);
      }
      if black {
        SiblingBlackKeeps(c, t);
        node := parent0;
        parent, isLeft, t := ClimbToParent(sibling, parent0, c, t);
        c := c.up;
      } else {
        NotBesideNode(c, t);
        t := RepairRedNephew(sibling, parent0, s, c, t);
        WholeIsDone(t);
        c := Top;
        Look(c, t, root);
        node := root;
        parent, isLeft := parent0, false;
      }
    }

    /**
     One round of delete_fixup; the two mirrored branches are one, with s for is_left. The position is where parent and
     s say; node is what hangs there, or NULL although something does.
     */
    method DeleteRound(node0: Cell?<V>, parent0: Cell<V>, s: bool, ghost c0: Path<V>, ghost t0: Tree<V>)
      returns (node: Cell<V>, parent: Cell?<V>, isLeft: bool, ghost c: Path<V>, ghost t: Tree<V>)
      requires At(c0, t0, root) && c0.Step? && parent0 == c0.item.cell && s == c0.hole
      requires (node0 == Root(t0) && !IsRed(t0)) || node0 == null
      requires ColoursAt(c0, t0, node0 == Root(t0))
      modifies this`root, PathCells(c0), Cells(t0)
      ensures At(c, t, root) && PathCells(c) + Cells(t) == PathCells(c0) + Cells(t0)
      ensures node == Root(t) && (c.Step? ==> parent == c.item.cell && isLeft == c.hole)
      ensures ColoursAt(c, t, true) && InOrder(Plug(c, t)) == InOrder(Plug(c0, t0))
      ensures ShortAt(c0, t0) ==> ShortAt(c, t)
      ensures LostAt(c0, t0, node0 == Root(t0)) ==> Height(t) < 0
      ensures Steps(c) < Steps(c0) || IsRed(t)
    {
      hide At, Rep, RepPath, Plug, InOrder, TopBlack, ShortAt, Height, ColoursAt, NoRedRed, PathNoRedRed, LostBeside, PathCells, Cells;
      c, t := c0, t0;
      BlackPosition(c, t, node0 == Root(t0));
      Look(c, t, root);
      var sibling := parent0.Kid(!s);
      if sibling != null && sibling.red {
        NotBesideNode(c, t);
        SiblingRedKeeps(c, t);
        RotateRedSibling(sibling, parent0, s, c, t);
        c := SiblingRed(c);
        Look(c, t, root);
        sibling := parent0.Kid(!s);
      }
      node, parent, isLeft, c, t := RepairBeside(sibling, parent0, s, c, t);
    }

    /** delete_fixup */
    method DeleteFixup(node0: Cell?<V>, parent0: Cell?<V>, isLeft0: bool, ghost c0: Path<V>, ghost t0: Tree<V>)
      returns (ghost whole: Tree<V>)
      requires At(c0, t0, root) && parent0 == Above(c0) && (c0.Step? ==> isLeft0 == c0.hole)
      requires node0 == Root(t0) || node0 == null
      requires ColoursAt(c0, t0, node0 == Root(t0))
      modifies this`root, PathCells(c0), Cells(t0)
      ensures At(Top, whole, root) && Cells(whole) == PathCells(c0) + Cells(t0)
      ensures RightColours(whole) && InOrder(whole) == InOrder(Plug(c0, t0))
      ensures node0 == Root(t0) && ShortAt(c0, t0) ==> Height(whole) >= 0
      ensures LostAt(c0, t0, node0 == Root(t0)) ==> Height(whole) < 0
    {
      hide At, Rep, RepPath, Plug, InOrder, ShortAt, LostAt, Height, ColoursAt, RightColours, PathCells, Cells, Steps;
      var node, parent, isLeft := node0, parent0, isLeft0;
      ghost var c, t, given := c0, t0, node0 == Root(t0);
      Look(c, t, root);
      while node != root && (node == null || !node.red) && parent != null
        invariant At(c, t, root) && PathCells(c) + Cells(t) == PathCells(c0) + Cells(t0)
        invariant given == (node == Root(t)) && (given || node == null)
        invariant c.Step? ==> parent == c.item.cell && isLeft == c.hole && node != root
        invariant c.Top? ==> node == root || parent == null
        invariant node != null ==> (node.red <==> IsRed(t))
        invariant ColoursAt(c, t, given) && InOrder(Plug(c, t)) == InOrder(Plug(c0, t0))
        invariant node0 == Root(t0) && ShortAt(c0, t0) ==> given && ShortAt(c, t)
        invariant LostAt(c0, t0, node0 == Root(t0)) ==> LostAt(c, t, given)
        decreases if IsRed(t) && given then 0 else Steps(c) + 1
      {
        node, parent, isLeft, c, t := DeleteRound(node, parent, isLeft, c, t);
        given := true;
        LostIs(c, t);
        Look(c, t, root);
      }
      DeleteDone(c, t, given);
      if node != null {
        SetColor(node, false, c, t);
      }
      ghost var t' := if given then Blackened(t) else t;
      PlugCells(c, t);
      PlugCells(c, t');
      WholeAt(c, t', root);
      whole := Plug(c, t');
    }

    // ---------- Deletion ----------

    /** transplant: v takes u's place below u's parent. */
    method Transplant(u: Cell<V>, v: Cell?<V>, ghost c: Path<V>, ghost t: Tree<V>, ghost p: Cell?<V>)
      requires RepPath(c, u, root) && u.parent == Above(c) && u !in PathCells(c)
      requires v == Root(t) && Rep(t, p) && Cells(t) !! PathCells(c) && u !in Cells(t)
      modifies this`root, if c.Top? then {} else {c.item.cell}, if v == null then {} else {v}
      ensures At(c, t, root)
      ensures v != null ==> v.left == old(v.left) && v.right == old(v.right) && v.red == old(v.red)
                            && v.key == old(v.key) && v.value == old(v.value)
    {
      hide Rep, RepPath, Cells;
      if t.Node? {
        RepOpen(t, p);
      }
      Hang(u, v, c);
      label Hung:
      if v != null {
        v.parent := u.parent;
      }
      Reparented(t, p, Above(c));
      PathKept@Hung(c, v, root);
    }

    /** min_node, from a node with the tree t0 at base. */
    method MinNode(node: Cell<V>, ghost base: Path<V>, ghost t0: Tree<V>) returns (y: Cell<V>, ghost c: Path<V>, ghost t: Tree<V>)
      requires At(base, t0, root) && node == Root(t0)
      ensures y == Root(t) && t.Node? && t.left.Leaf? && AllLeft(c) && Plug(c, t) == t0
      ensures At(Append(c, base), t, root)
    {
      hide At, Rep, RepPath;
      y, c, t := node, Top, t0;
      while y.left != null
        invariant y == Root(t) && t.Node? && AllLeft(c) && Plug(c, t) == t0 && At(Append(c, base), t, root)
        decreases t
      {
        Look(Append(c, base), t, root);
        y := y.left;
        ghost var c' := Step(c, true, t.item, t.right);
        StepAt(Append(c', base), t.left, root);
        c, t := c', t.left;
      }
      Look(Append(c, base), t, root);
    }

    /** The successor y, deeper than node's right child, leaves its place and takes over node's right subtree. */
    method SpliceOut(node: Cell<V>, y: Cell<V>, ghost c: Path<V>, ghost t: Tree<V>, ghost c2: Path<V>, ghost ty: Tree<V>)
      requires t.Node? && node == t.item.cell && IsLeast(t, c2, ty) && c2.Step? && y == Root(ty)
      requires At(Append(c2, Step(c, false, t.item, t.left)), ty, root)
      modifies this`root, Cells(t)
      ensures Moving(node, y, c, ty.item.(red := t.item.red), t.left, Plug(c2, ty.right), root)
      ensures y.red == ty.item.red && Cells(t) == {node, y} + Cells(t.left) + Cells(Plug(c2, ty.right))
    {
      hide Rep, RepPath, Cells, PathCells, At;
      ghost var base := Step(c, false, t.item, t.left);
      ghost var cy := Append(c2, base);
      ghost var r := Plug(c2, ty.right);
      SplicePlaces(c, t, c2, ty, root);
      Transplant(y, y.right, cy, ty.right, y);
      MoveAt(c2, base, ty.right, root);
      PartsAt(c, t.item, t.left, r, root);
      label Spliced:
      y.right := node.right;
      if y.right != null {
        y.right.parent := y;
      }
      Reparented@Spliced(r, node, y);
      RepKept@Spliced(t.left, node);
      PathKept@Spliced(c, node, root);
    }

    /** transplant(node, y), and y takes over node's left subtree and colour. */
    method TakePlace(node: Cell<V>, y: Cell<V>, ghost c: Path<V>, ghost i: Item<V>, ghost l: Tree<V>, ghost r: Tree<V>)
      requires Moving(node, y, c, i, l, r, root)
      modifies this`root, y, if c.Top? then {} else {c.item.cell}, if node.left == null then {} else {node.left}
      ensures At(c, Node(i, l, r), root)
    {
      hide Rep, RepPath, Cells, PathCells, At;
      if l.Node? { RepOpen(l, node); }
      PathTop(c);
      Hang(node, y, c);
      label Hung:
      y.parent := node.parent;
      y.left := node.left;
      if y.left != null {
        y.left.parent := y;
      }
      y.red := node.red;
      Reparented(l, node, y);
      RepKept(r, y);
      PathKept@Hung(c, y, root);
      RepClose(Node(i, l, r), Above(c));
      AtParts(c, Node(i, l, r), root);
    }

    /** The deletion of a node with two children, up to the rebalancing. */
    method ReplaceBySuccessor(node: Cell<V>, ghost c: Path<V>, ghost t: Tree<V>)
      returns (y: Cell<V>, x: Cell?<V>, wasRed: bool, ghost c2: Path<V>, ghost ty: Tree<V>)
      requires At(c, t, root) && node == Root(t) && t.left.Node? && t.right.Node?
      modifies this`root, PathCells(c), Cells(t)
      ensures IsLeast(t, c2, ty) && AllLeft(c2) && y == Root(ty) && x == Root(ty.right) && wasRed == ty.item.red
      ensures At(c, Succeeded(t, c2, ty), root) && Cells(t) == Cells(Succeeded(t, c2, ty)) + {node}
    {
      hide Rep, RepPath, At, Cells, PathCells;
      ghost var base := Step(c, false, t.item, t.left);
      StepAt(base, t.right, root);
      Look(c, t, root);
      y, c2, ty := MinNode(node.right, base, t.right);
      LeastAtEnd(c2, ty);
      Look(Append(c2, base), ty, root);
      SuccessorParent(c, t, c2, ty, root);
      wasRed, x := y.red, y.right;
      if y.parent != node {
        SpliceOut(node, y, c, t, c2, ty);
      } else {
        MovingNext(c, t, ty, root);
        StepAt(Step(base, false, ty.item, Leaf), ty.right, root);
        PartsAt(base, ty.item, Leaf, ty.right, root);
        label Before:
        if y.right != null {
          y.right.parent := y;
        }
        AtKept@Before(base, ty, root);
        MovingNext(c, t, ty, root);
      }
      ghost var s := Succeeded(t, c2, ty);
      RootInside(t.left);
      PathTop(c);
      TakePlace(node, y, c, s.item, s.left, s.right);
      assert Cells(s) == Cells(s.left) + {y} + Cells(s.right) by { NodeCells(s); }
    }

    /** The deletion of a node with a missing child. */
    method DeleteOuter(node: Cell<V>, ghost c: Path<V>, ghost t: Tree<V>, ghost tx: Tree<V>) returns (ghost whole: Tree<V>)
      requires At(c, t, root) && node == Root(t) && (t.left.Leaf? || t.right.Leaf?) && RightColours(Plug(c, t))
      requires tx == if t.left.Leaf? then t.right else t.left
      modifies this`root, PathCells(c), Cells(t)
      ensures At(Top, whole, root) && Cells(whole) <= PathCells(c) + Cells(t)
      ensures RightColours(whole) && InOrder(whole) == InOrder(Plug(c, tx))
      ensures Height(Plug(c, t)) >= 0 ==> (Height(whole) >= 0 <==> StaysBalanced(c, t))
    {
      hide Rep, RepPath, At, Cells, PathCells, ColoursAt, ShortAt, LostAt, Height, InOrder, RightColours, Plug;
      Look(c, t, root);
      OuterParts(c, t, tx, root);
      var isLeftChild := node.parent != null && node == node.parent.left;
      var wasRed := node.red;
      var x := if node.left == null then node.right else node.left;
      Transplant(node, x, c, tx, node);
      Look(c, tx, root);
      if wasRed {
        RedGoes(c, t, tx);
        whole := Plug(c, tx);
        WholeAt(c, tx, root);
        PlugCells(c, tx);
      } else {
        BlackGoes(c, t, tx);
        var place := FixupPlace(x, node, node, isLeftChild);
        ghost var cp, tp := c, tx;
        if x == null && c.Step? && c.hole {
          LeafGoes(c, t);
          BesideAt(c, root);
          cp, tp := Beside(c), c.sib;
        }
        whole := DeleteFixup(x, place.0, place.1, cp, tp);
      }
    }

    /** The deletion of a node with two children. */
    method DeleteInner(node: Cell<V>, ghost c: Path<V>, ghost t: Tree<V>) returns (ghost whole: Tree<V>)
      requires At(c, t, root) && node == Root(t) && t.left.Node? && t.right.Node? && RightColours(Plug(c, t))
      modifies this`root, PathCells(c), Cells(t)
      ensures At(Top, whole, root) && Cells(whole) <= PathCells(c) + Cells(t)
      ensures RightColours(whole)
      ensures exists t' :: InOrder(t') == InOrder(t.left) + InOrder(t.right) && InOrder(whole) == InOrder(Plug(c, t'))
      ensures Height(Plug(c, t)) >= 0 ==> (Height(whole) >= 0 <==> StaysBalanced(c, t))
    {
      hide Rep, RepPath, At, Cells, PathCells, ColoursAt, ShortAt, LostAt, Height, InOrder, RightColours, Plug, Succeeded, IsLeast;
      Look(c, t, root);
      var isLeftChild := node.parent != null && node == node.parent.left;
      var y, x, wasRed;
      ghost var c2, ty;
      y, x, wasRed, c2, ty := ReplaceBySuccessor(node, c, t);
      ghost var s := Succeeded(t, c2, ty);
      LeastParts(t, c2, ty);
      LeastAtEnd(c2, ty);
      SucceededOrder(t, c2, ty);
      if wasRed {
        RedSuccessor(c, t, c2, ty);
        whole := Plug(c, s);
        WholeAt(c, s, root);
        PlugCells(c, s);
      } else {
        Look(c, s, root);
        if x != null {
          NewWayAt(c, t, c2, ty, root);
          Look(NewWay(c, t, c2, ty), ty.right, root);
        }
        var place := FixupPlace(x, y, node, isLeftChild);
        if x == null {
          ChildlessSuccessor(c, t, c2, ty);
          whole := DeleteFixup(x, place.0, place.1, c, s);
        } else {
          BlackSuccessor(c, t, c2, ty);
          whole := DeleteFixup(x, place.0, place.1, NewWay(c, t, c2, ty), ty.right);
        }
      }
    }

    /** vox_rbtree_delete; -1 for an empty or a missing key. */
    method Delete(key: Key) returns (ret: int, ghost c: Path<V>, ghost t: Tree<V>)
      requires Valid()
      modifies this, Cells(shape)
      ensures Valid() && Cells(shape) <= old(Cells(shape))
      ensures key == [] || Lookup(cmp, old(Entries()), key) == None ==> ret == -1 && shape == old(shape)
      ensures key != [] && Lookup(cmp, old(Entries()), key) != None ==>
                && ret == 0 && Entries() == Removed(cmp, old(Entries()), key) && |Entries()| == |old(Entries())| - 1
                && old(shape) == Plug(c, t) && t.Node? && Compare(cmp, key, t.item.key) == 0
                && (old(Balanced()) ==> (Balanced() <==> StaysBalanced(c, t)))
    {
      hide At, Rep, RepPath, InOrder, Sorted, Orders, RightColours, Compare, Lower, Upper, Removed, Lookup, Height, Cells, PathCells;
      c, t := Top, Leaf;
      if key == [] {
        return -1, c, t;
      }
      var node, parent, d;
      node, parent, d, c, t := FindNode(key);
      Found(cmp, c, t, key);
      if node == null {
        return -1, c, t;
      }
      Look(c, t, root);
      PlugCells(c, t);
      ghost var whole, t';
      if node.left == null || node.right == null {
        t' := if t.left.Leaf? then t.right else t.left;
        OneChildOrder(t);
        whole := DeleteOuter(node, c, t, t');
      } else {
        whole := DeleteInner(node, c, t);
        t' :| InOrder(t') == InOrder(t.left) + InOrder(t.right) && InOrder(whole) == InOrder(Plug(c, t'));
      }
      RemovedAt(cmp, c, t, t', key);
      label Repaired:
      size := size - 1;
      shape := whole;
      AtKept@Repaired(Top, shape, root);
      return 0, c, t;
    }
  }

  /** A balanced tree of three black nodes. */
  method ThreeBlackNodes<V>(cmp: Comparison, value: V) returns (tree: RbTree<V>, ghost top: Item<V>, ghost a: Item<V>, ghost b: Item<V>)
    requires Orders(cmp)
    ensures fresh(tree) && fresh(Cells(tree.shape)) && tree.Valid() && tree.Balanced()
    ensures !top.red && !a.red && !b.red && tree.shape == Three(top, a, b) && a.key == [1]
  {
    hide At, Rep, RepPath, Height, RightColours, InOrder, Cells, Three, Orders, Sorted;
    var root;
    root, top, a, b := ThreeCells(value);
    tree := new RbTree(cmp);
    tree.root, tree.size := root, 3;
    tree.shape := Three(top, a, b);
    ThreeIsRedBlack(top, a, b);
    ThreeStand(top, a, b);
    ThreeSorted(cmp, top, a, b);
  }

  method ThreeCells<V>(value: V) returns (root: Cell<V>, ghost top: Item<V>, ghost a: Item<V>, ghost b: Item<V>)
    ensures fresh(top.cell) && fresh(a.cell) && fresh(b.cell) && root == top.cell
    ensures top.cell != a.cell && a.cell != b.cell && b.cell != top.cell
    ensures Holds(top, null, a.cell, b.cell) && Holds(a, top.cell, null, null) && Holds(b, top.cell, null, null)
    ensures !top.red && !a.red && !b.red && a.key == [1] && |top.key| == 2 && |b.key| == 3
  {
    root := new Cell(null, [1, 1], value);
    var left := new Cell(root, [1], value);
    var right := new Cell(root, [1, 1, 1], value);
    root.left, root.right, root.red, left.red, right.red := left, right, false, false, false;
    top, a, b := Item(root, false, [1, 1], value), Item(left, false, [1], value), Item(right, false, [1, 1, 1], value);
  }

  lemma ThreeSorted<V>(cmp: Comparison, top: Item<V>, a: Item<V>, b: Item<V>)
    requires |a.key| < |top.key| < |b.key|
    ensures Sorted(cmp, [Pair(a), Pair(top), Pair(b)])
  {
  }

  lemma ThreeStand<V>(top: Item<V>, a: Item<V>, b: Item<V>)
    requires Holds(top, null, a.cell, b.cell) && Holds(a, top.cell, null, null) && Holds(b, top.cell, null, null)
    requires top.cell != a.cell && a.cell != b.cell && b.cell != top.cell
    ensures At(Top, Three(top, a, b), top.cell) && Cells(Three(top, a, b)) == {top.cell, a.cell, b.cell}
  {
    RepClose(Node(a, Leaf, Leaf), top.cell);
    RepClose(Node(b, Leaf, Leaf), top.cell);
    RepClose(Three(top, a, b), null);
  }

  /** Deleting the left one of the two leaves loses the equal black heights. */
  method DeleteLeftOfThree<V>(tree: RbTree<V>, ghost top: Item<V>, ghost a: Item<V>, ghost b: Item<V>, key: Key)
    requires tree.Valid() && tree.shape == Three(top, a, b) && !top.red && !a.red && !b.red
    requires key == a.key != []
    modifies tree, Cells(tree.shape)
    ensures old(tree.Balanced()) && tree.Valid() && !tree.Balanced()
    ensures |tree.Entries()| == 2
  {
    ThreeIsRedBlack(top, a, b);
    FirstIsFound(tree.cmp, [Pair(a), Pair(top), Pair(b)], key);
    var ret, c, t := tree.Delete(key);
    LeastOfThree(tree.cmp, top, a, b, c, t);
  }

  lemma FirstIsFound<V>(cmp: Comparison, s: seq<Entry<V>>, key: Key)
    requires Orders(cmp) && s != [] && s[0].0 == key
    ensures Lookup(cmp, s, key) != None
  {
    assert cmp(key, key) < 0 <==> cmp(key, key) > 0;
  }

  /** From the empty tree of a comparison, a valid tree that is out of balance after one deletion. */
  method BalanceIsLost<V>(cmp: Comparison, value: V) returns (tree: RbTree<V>)
    requires Orders(cmp)
    ensures fresh(tree) && tree.Valid() && !tree.Balanced()
  {
    ghost var top, a, b;
    tree, top, a, b := ThreeBlackNodes(cmp, value);
    DeleteLeftOfThree(tree, top, a, b, [1]);
  }
}
