/** The shapes that a red-black tree takes. */
module RbShape {
  import opened Bits
  import opened KeyOrder

  /*
   A place in a tree is a path up to the root; every step of it remembers the node above, on which side of it the
   position lies, and the other subtree of that node. Rebalancing replaces the subtree at such a position, and what the
   whole tree promises (order, colours, black height) is computed from the path and the subtree.
   */

  /** The record behind a node pointer. */
  class Cell<V> {
    var red: bool
    var parent: Cell?<V>
    var left: Cell?<V>
    var right: Cell?<V>
    var key: Key
    var value: V

    constructor (parent: Cell?<V>, key: Key, value: V)
      ensures red && left == null && right == null
      ensures this.parent == parent && this.key == key && this.value == value
    {
      red, this.parent, left, right, this.key, this.value := true, parent, null, null, key, value;
    }

    /** The left child if s, else the right one. */
    function Kid(s: bool): Cell?<V>
      reads this
    {
      if s then left else right
    }
  }

  /** The contents of a node: where it is stored, its colour, key and value. */
  datatype Item<V> = Item(cell: Cell<V>, red: bool, key: Key, value: V)

  datatype Tree<V> = Leaf | Node(item: Item<V>, left: Tree<V>, right: Tree<V>)
  {
    function Kid(s: bool): Tree<V>
      requires Node?
    {
      if s then left else right
    }
  }

  /** Top is the root position; hole tells whether the position is the left child of item. */
  datatype Path<V> = Top | Step(up: Path<V>, hole: bool, item: Item<V>, sib: Tree<V>)

  /** The node whose child on side s is near, with far on the other side. */
  function Make<V>(s: bool, i: Item<V>, near: Tree<V>, far: Tree<V>): Tree<V> {
    if s then Node(i, near, far) else Node(i, far, near)
  }

  function Plug<V>(c: Path<V>, t: Tree<V>): Tree<V> {
    match c
    case Top => t
    case Step(up, hole, i, sib) => Plug(up, Make(hole, i, t, sib))
  }

  function Append<V>(c: Path<V>, base: Path<V>): Path<V> {
    match c
    case Top => base
    case Step(up, hole, i, sib) => Step(Append(up, base), hole, i, sib)
  }

  function Steps<V>(c: Path<V>): nat {
    if c.Top? then 0 else 1 + Steps(c.up)
  }

  function Size<V>(t: Tree<V>): nat {
    if t.Leaf? then 0 else Size(t.left) + 1 + Size(t.right)
  }

  function Depth<V>(t: Tree<V>): nat {
    if t.Leaf? then 0 else 1 + if Depth(t.left) < Depth(t.right) then Depth(t.right) else Depth(t.left)
  }

  lemma {:induction false} PlugAppend<V>(c: Path<V>, base: Path<V>, t: Tree<V>)
    ensures Plug(Append(c, base), t) == Plug(base, Plug(c, t))
    decreases c
  {
    if c.Step? {
      PlugAppend(c.up, base, Make(c.hole, c.item, t, c.sib));
    }
  }

  // ---------- Order ----------

  function Pair<V>(i: Item<V>): Entry<V> { (i.key, i.value) }

  function InOrder<V>(t: Tree<V>): seq<Entry<V>> {
    if t.Leaf? then [] else InOrder(t.left) + [Pair(t.item)] + InOrder(t.right)
  }

  /** What comes before and after the position in the order of the whole tree. */
  function Before<V>(c: Path<V>): seq<Entry<V>> {
    match c
    case Top => []
    case Step(up, hole, i, sib) => if hole then Before(up) else Before(up) + InOrder(sib) + [Pair(i)]
  }

  function After<V>(c: Path<V>): seq<Entry<V>> {
    match c
    case Top => []
    case Step(up, hole, i, sib) => if hole then [Pair(i)] + InOrder(sib) + After(up) else After(up)
  }

  lemma {:induction false} PlugInOrder<V>(c: Path<V>, t: Tree<V>)
    ensures InOrder(Plug(c, t)) == Before(c) + InOrder(t) + After(c)
    decreases c
  {
    if c.Step? {
      PlugInOrder(c.up, Make(c.hole, c.item, t, c.sib));
    }
  }

  lemma {:induction false} SizeIsCount<V>(t: Tree<V>)
    ensures Size(t) == |InOrder(t)|
  {
    if t.Node? {
      SizeIsCount(t.left);
      SizeIsCount(t.right);
    }
  }

  // ---------- Colours ----------

  predicate IsRed<V>(t: Tree<V>) { t.Node? && t.item.red }

  /** No red node has a red child. */
  predicate NoRedRed<V>(t: Tree<V>) {
    t.Node? ==>
      && (t.item.red ==> !IsRed(t.left) && !IsRed(t.right))
      && NoRedRed(t.left) && NoRedRed(t.right)
  }

  function Coloured<V>(t: Tree<V>, red: bool): Tree<V> {
    if t.Leaf? then t else Node(t.item.(red := red), t.left, t.right)
  }

  function Blackened<V>(t: Tree<V>): Tree<V> { Coloured(t, false) }

  predicate RightColours<V>(t: Tree<V>) { !IsRed(t) && NoRedRed(t) }

  /** No red node on or beside the path has a red child, if the position holds a red node exactly when red. */
  predicate PathNoRedRed<V>(c: Path<V>, red: bool) {
    c.Step? ==>
      && (c.item.red ==> !red && !IsRed(c.sib))
      && NoRedRed(c.sib) && PathNoRedRed(c.up, c.item.red)
  }

  lemma {:induction false} PlugNoRedRed<V>(c: Path<V>, t: Tree<V>)
    ensures NoRedRed(Plug(c, t)) <==> NoRedRed(t) && PathNoRedRed(c, IsRed(t))
    decreases c
  {
    if c.Step? {
      PlugNoRedRed(c.up, Make(c.hole, c.item, t, c.sib));
    }
  }

  // ---------- Black heights ----------

  /** The height of a node over subtrees of the heights l and r; -1 stands for unequal heights below. */
  function Over(red: bool, l: int, r: int): int {
    if l != r || l < 0 then -1 else if red then l else l + 1
  }

  /** The number of black nodes on every way down, or -1 if the ways differ. */
  function Height<V>(t: Tree<V>): int {
    if t.Leaf? then 0 else Over(t.item.red, Height(t.left), Height(t.right))
  }

  /** The height of the whole tree if the subtree at the position had height h. */
  function HeightWith<V>(c: Path<V>, h: int): int {
    if c.Top? then h else HeightWith(c.up, Over(c.item.red, h, Height(c.sib)))
  }

  lemma {:induction false} PlugHeight<V>(c: Path<V>, t: Tree<V>)
    ensures Height(Plug(c, t)) == HeightWith(c, Height(t))
    decreases c
  {
    if c.Step? {
      PlugHeight(c.up, Make(c.hole, c.item, t, c.sib));
    }
  }

  lemma {:induction false} HeightOfBad<V>(c: Path<V>, h: int)
    requires h < 0
    ensures HeightWith(c, h) < 0
  {
    if c.Step? {
      HeightOfBad(c.up, -1);
    }
  }

  lemma {:induction false} HeightBound<V>(t: Tree<V>)
    ensures Height(t) >= -1
  {
    if t.Node? {
      HeightBound(t.left);
      HeightBound(t.right);
    }
  }

  /** Root black, no red-red edge, equal black heights. */
  predicate RedBlack<V>(t: Tree<V>) {
    RightColours(t) && Height(t) >= 0
  }

  lemma {:induction false} ManyNodes<V>(t: Tree<V>)
    requires Height(t) >= 0
    ensures Size(t) + 1 >= Pow2(Height(t))
  {
    if t.Node? {
      ManyNodes(t.left);
      ManyNodes(t.right);
    }
  }

  lemma {:induction false} NotDeep<V>(t: Tree<V>)
    requires NoRedRed(t) && Height(t) >= 0
    ensures Depth(t) <= 2 * Height(t) + if IsRed(t) then 1 else 0
  {
    if t.Node? {
      NotDeep(t.left);
      NotDeep(t.right);
    }
  }

  /** A red-black tree of n nodes is at most 2 * log2(n + 1) deep. */
  lemma DepthIsLogarithmic<V>(t: Tree<V>)
    requires RedBlack(t)
    ensures Pow2(Depth(t)) <= (Size(t) + 1) * (Size(t) + 1)
  {
    ManyNodes(t);
    NotDeep(t);
    var h: nat := Height(t);
    if Pow2(h + h) < Pow2(Depth(t)) {
      Pow2Mono(h + h, Depth(t));
    }
    Pow2Add(h, h);
    SquareMonotone(Pow2(h), Size(t) + 1);
  }

  lemma SquareMonotone(a: nat, b: nat)
    requires a <= b
    ensures a * a <= b * b
  {
    assert a * a <= a * b;
    assert a * b <= b * b;
  }

  // ---------- What the memory holds ----------

  function Root<V>(t: Tree<V>): Cell?<V> { if t.Leaf? then null else t.item.cell }

  function Above<V>(c: Path<V>): Cell?<V> { if c.Top? then null else c.item.cell }

  function Cells<V>(t: Tree<V>): set<Cell<V>> {
    if t.Leaf? then {} else Cells(t.left) + {t.item.cell} + Cells(t.right)
  }

  function PathCells<V>(c: Path<V>): set<Cell<V>> {
    if c.Top? then {} else PathCells(c.up) + {c.item.cell} + Cells(c.sib)
  }

  /** The fields of i's record. */
  ghost predicate Holds<V>(i: Item<V>, parent: Cell?<V>, left: Cell?<V>, right: Cell?<V>)
    reads i.cell
  {
    && i.cell.red == i.red && i.cell.key == i.key && i.cell.value == i.value
    && i.cell.parent == parent && i.cell.left == left && i.cell.right == right
  }

  /** The records from t's root down spell out t, under the given parent. */
  ghost predicate Rep<V>(t: Tree<V>, parent: Cell?<V>)
    reads Cells(t)
  {
    t.Node? ==>
      && Holds(t.item, parent, Root(t.left), Root(t.right))
      && t.item.cell !in Cells(t.left) && t.item.cell !in Cells(t.right) && Cells(t.left) !! Cells(t.right)
      && Rep(t.left, t.item.cell) && Rep(t.right, t.item.cell)
  }

  /** The records above and beside the position spell out c; the position's own node is kid, the root is root. */
  ghost predicate RepPath<V>(c: Path<V>, kid: Cell?<V>, root: Cell?<V>)
    reads PathCells(c)
  {
    match c
    case Top => root == kid
    case Step(up, hole, i, sib) =>
      && (if hole then Holds(i, Above(up), kid, Root(sib)) else Holds(i, Above(up), Root(sib), kid))
      && i.cell !in Cells(sib) && i.cell !in PathCells(up) && Cells(sib) !! PathCells(up)
      && Rep(sib, i.cell) && RepPath(up, i.cell, root)
  }

  /** The memory is that of the tree Plug(c, t). */
  ghost predicate At<V>(c: Path<V>, t: Tree<V>, root: Cell?<V>)
    reads PathCells(c), Cells(t)
  {
    Rep(t, Above(c)) && RepPath(c, Root(t), root) && Cells(t) !! PathCells(c)
  }

  /** The first node of a tree in memory, and its subtrees. */
  lemma RepOpen<V>(t: Tree<V>, parent: Cell?<V>)
    requires t.Node? && Rep(t, parent)
    ensures Holds(t.item, parent, Root(t.left), Root(t.right))
    ensures Rep(t.left, t.item.cell) && Rep(t.right, t.item.cell)
    ensures Cells(t) == Cells(t.left) + {t.item.cell} + Cells(t.right)
    ensures t.item.cell !in Cells(t.left) && t.item.cell !in Cells(t.right) && Cells(t.left) !! Cells(t.right)
    ensures Root(t.left) == null || Root(t.left) in Cells(t.left)
    ensures Root(t.right) == null || Root(t.right) in Cells(t.right)
  {
  }

  twostate lemma OldOpen<V>(t: Tree<V>, new parent: Cell?<V>)
    requires parent == null || old(allocated(parent))
    requires t.Node? && old(Rep(t, parent))
    ensures old(Holds(t.item, parent, Root(t.left), Root(t.right)))
    ensures old(Rep(t.left, t.item.cell)) && old(Rep(t.right, t.item.cell))
    ensures Cells(t) == Cells(t.left) + {t.item.cell} + Cells(t.right)
    ensures t.item.cell !in Cells(t.left) && t.item.cell !in Cells(t.right) && Cells(t.left) !! Cells(t.right)
    ensures Root(t.left) == null || Root(t.left) in Cells(t.left)
    ensures Root(t.right) == null || Root(t.right) in Cells(t.right)
  {
  }

  lemma RepClose<V>(t: Tree<V>, parent: Cell?<V>)
    requires t.Node? && Holds(t.item, parent, Root(t.left), Root(t.right))
    requires Rep(t.left, t.item.cell) && Rep(t.right, t.item.cell)
    requires t.item.cell !in Cells(t.left) && t.item.cell !in Cells(t.right) && Cells(t.left) !! Cells(t.right)
    ensures Rep(t, parent) && Cells(t) == Cells(t.left) + {t.item.cell} + Cells(t.right)
  {
  }

  /** Writing elsewhere leaves a tree in memory as it is. */
  twostate lemma RepKept<V>(t: Tree<V>, new parent: Cell?<V>)
    requires parent == null || old(allocated(parent))
    requires old(Rep(t, parent)) && forall o | o in Cells(t) :: old(allocated(o)) ==> unchanged(o)
    ensures Rep(t, parent)
  {
  }

  twostate lemma {:induction false} PathKept<V>(c: Path<V>, new kid: Cell?<V>, new root: Cell?<V>)
    requires (kid == null || old(allocated(kid))) && (root == null || old(allocated(root)))
    requires old(RepPath(c, kid, root)) && forall o | o in PathCells(c) :: old(allocated(o)) ==> unchanged(o)
    ensures RepPath(c, kid, root)
  {
    if c.Step? {
      assert PathCells(c) == PathCells(c.up) + {c.item.cell} + Cells(c.sib);
      RepKept(c.sib, c.item.cell);
      PathKept(c.up, c.item.cell, root);
    }
  }

  lemma {:induction false} CellsAllocated<V>(t: Tree<V>)
    ensures forall o | o in Cells(t) :: allocated(o)
  {
    if t.Node? {
      CellsAllocated(t.left);
      CellsAllocated(t.right);
    }
  }

  lemma {:induction false} PathAllocated<V>(c: Path<V>)
    ensures forall o | o in PathCells(c) :: allocated(o)
  {
    if c.Step? {
      PathAllocated(c.up);
      CellsAllocated(c.sib);
    }
  }

  twostate lemma AtKept<V>(c: Path<V>, new t: Tree<V>, new root: Cell?<V>)
    requires old(allocated(t)) && (root == null || old(allocated(root)))
    requires old(At(c, t, root))
    requires forall o | o in PathCells(c) || o in Cells(t) :: old(allocated(o)) ==> unchanged(o)
    ensures At(c, t, root)
  {
    RepKept(t, Above(c));
    PathKept(c, Root(t), root);
  }

  /** Writing the root's parent field moves a tree under another node. */
  twostate lemma Reparented<V>(t: Tree<V>, new parent: Cell?<V>, new to: Cell?<V>)
    requires parent == null || old(allocated(parent))
    requires old(Rep(t, parent)) && forall o | o in Cells(t) && o != Root(t) :: old(allocated(o)) ==> unchanged(o)
    requires t.Node? ==> Holds(t.item, to, Root(t.left), Root(t.right))
    ensures Rep(t, to)
  {
    if t.Node? {
      assert Cells(t) == Cells(t.left) + {t.item.cell} + Cells(t.right);
      assert t.item.cell !in Cells(t.left) && t.item.cell !in Cells(t.right);
      RepKept(t.left, t.item.cell);
      RepKept(t.right, t.item.cell);
    }
  }

  lemma {:induction false} PlugCells<V>(c: Path<V>, t: Tree<V>)
    ensures Cells(Plug(c, t)) == PathCells(c) + Cells(t)
    decreases c
  {
    if c.Step? {
      PlugCells(c.up, Make(c.hole, c.item, t, c.sib));
    }
  }

  lemma RootInside<V>(t: Tree<V>)
    ensures t.Node? ==> Root(t) in Cells(t)
  {
  }

  lemma PathTop<V>(c: Path<V>)
    ensures c.Step? ==> c.item.cell in PathCells(c)
  {
  }

  lemma {:induction false} AppendCells<V>(c: Path<V>, base: Path<V>)
    ensures PathCells(Append(c, base)) == PathCells(c) + PathCells(base)
  {
    if c.Step? {
      AppendCells(c.up, base);
    }
  }

  /** Moving the position one step up or down leaves the memory the same. */
  lemma StepAt<V>(c: Path<V>, t: Tree<V>, root: Cell?<V>)
    requires c.Step?
    ensures At(c, t, root) <==> At(c.up, Make(c.hole, c.item, t, c.sib), root)
  {
  }

  /** Moving the position up or down along c leaves the memory the same. */
  lemma {:induction false} MoveAt<V>(c: Path<V>, base: Path<V>, t: Tree<V>, root: Cell?<V>)
    ensures At(Append(c, base), t, root) <==> At(base, Plug(c, t), root)
    decreases c
  {
    if c.Step? {
      StepAt(Append(c, base), t, root);
      MoveAt(c.up, base, Make(c.hole, c.item, t, c.sib), root);
    }
  }

  lemma {:induction false} RootOnPath<V>(c: Path<V>, kid: Cell?<V>, root: Cell?<V>)
    requires RepPath(c, kid, root) && c.Step?
    ensures root in PathCells(c)
  {
    if c.up.Step? {
      RootOnPath(c.up, c.item.cell, root);
    }
  }

  /** What the records at the position, above it and beside it hold. */
  lemma Look<V>(c: Path<V>, t: Tree<V>, root: Cell?<V>)
    requires At(c, t, root)
    ensures c.Top? ==> root == Root(t)
    ensures c.Step? ==> root != null && root != Root(t)
    ensures t.Node? ==> Holds(t.item, Above(c), Root(t.left), Root(t.right)) && t.item.cell in Cells(t)
    ensures c.Step? ==>
              && c.item.cell.red == c.item.red && c.item.cell.parent == Above(c.up) && c.item.cell in PathCells(c)
              && c.item.cell.Kid(c.hole) == Root(t) && c.item.cell.Kid(!c.hole) == Root(c.sib)
              && c.item.cell != Root(t) && (t.Node? ==> Root(t) != Root(c.sib))
              && (c.sib.Node? ==> Holds(c.sib.item, c.item.cell, Root(c.sib.left), Root(c.sib.right)) && c.sib.item.cell in PathCells(c))
  {
    if c.Step? {
      RootOnPath(c, Root(t), root);
    }
  }

  /** The colours of the children as the code reads them. */
  lemma LookDown<V>(c: Path<V>, t: Tree<V>, root: Cell?<V>)
    requires At(c, t, root) && t.Node?
    ensures t.item.cell.left == Root(t.left) && t.item.cell.right == Root(t.right)
    ensures IsRed(t.left) <==> t.item.cell.left != null && t.item.cell.left.red
    ensures IsRed(t.right) <==> t.item.cell.right != null && t.item.cell.right.red
  {
    hide At;
    Look(c, t, root);
    StepAt(Step(c, true, t.item, t.right), t.left, root);
    StepAt(Step(c, false, t.item, t.left), t.right, root);
    Look(Step(c, true, t.item, t.right), t.left, root);
    Look(Step(c, false, t.item, t.left), t.right, root);
  }

  lemma WholeAt<V>(c: Path<V>, t: Tree<V>, root: Cell?<V>)
    ensures At(c, t, root) <==> At(Top, Plug(c, t), root)
  {
    AppendTop(c);
    MoveAt(c, Top, t, root);
  }

  lemma {:induction false} AppendTop<V>(c: Path<V>)
    ensures Append(c, Top) == c
  {
    if c.Step? {
      AppendTop(c.up);
    }
  }
}
