/** Taking a node out of a tree, as vox_rbtree_delete does before it rebalances. */
module RbSplice {
  import opened KeyOrder
  import opened RbFixup
  import opened RbShape

  // ---------- Entries ----------

  lemma SortedWithout<V>(cmp: Comparison, a: seq<Entry<V>>, e: Entry<V>, b: seq<Entry<V>>)
    requires Sorted(cmp, a + [e] + b)
    ensures Sorted(cmp, a + b)
  {
    hide Compare;
    var s, s' := a + [e] + b, a + b;
    forall i, j | 0 <= i < j < |s'| ensures Compare(cmp, s'[i].0, s'[j].0) < 0 {
      var i', j' := if i < |a| then i else i + 1, if j < |a| then j else j + 1;
      assert s'[i] == s[i'] && s'[j] == s[j'];
    }
  }

  /** Any tree in the place of t that holds t's entries but its root's is the removal of that entry. */
  lemma RemovedAt<V>(cmp: Comparison, c: Path<V>, t: Tree<V>, t': Tree<V>, key: Key)
    requires Orders(cmp) && t.Node? && Compare(cmp, key, t.item.key) == 0 && Lower(cmp, Before(c) + InOrder(t.left), key)
    requires Sorted(cmp, InOrder(Plug(c, t))) && InOrder(t') == InOrder(t.left) + InOrder(t.right)
    ensures Sorted(cmp, InOrder(Plug(c, t'))) && |InOrder(Plug(c, t'))| == |InOrder(Plug(c, t))| - 1
    ensures InOrder(Plug(c, t')) == Removed(cmp, InOrder(Plug(c, t)), key)
  {
    hide Orders, Compare, Lower, Removed, Sorted, Before, After, Plug;
    var a, b := Before(c) + InOrder(t.left), InOrder(t.right) + After(c);
    PlugInOrder(c, t);
    PlugInOrder(c, t');
    assert InOrder(t) == InOrder(t.left) + [Pair(t.item)] + InOrder(t.right);
    assert InOrder(Plug(c, t)) == a + [Pair(t.item)] + b;
    assert InOrder(Plug(c, t')) == a + b;
    LookupHit(cmp, a, Pair(t.item), b, key);
    SortedWithout(cmp, a, Pair(t.item), b);
  }

  // ---------- A node with at most one child ----------

  /** A red node with a missing child goes without a trace. */
  lemma RedGoes<V>(c: Path<V>, t: Tree<V>, x: Tree<V>)
    requires IsRed(t) && ((x == t.left && t.right.Leaf?) || (x == t.right && t.left.Leaf?))
    requires RightColours(Plug(c, t))
    ensures RightColours(Plug(c, x)) && (Height(Plug(c, t)) >= 0 ==> Height(Plug(c, x)) >= 0)
  {
    PlugNoRedRed(c, t);
    PlugNoRedRed(c, x);
    PlugHeight(c, t);
    PlugHeight(c, x);
    if c.Step? {
      TopIsRoot(c, t);
      TopIsRoot(c, x);
    }
    if Height(t) < 0 {
      HeightOfBad(c, Height(t));
    }
  }

  /** A black node with a missing child leaves its place one black node short. */
  lemma BlackGoes<V>(c: Path<V>, t: Tree<V>, x: Tree<V>)
    requires t.Node? && !IsRed(t) && ((x == t.left && t.right.Leaf?) || (x == t.right && t.left.Leaf?))
    requires RightColours(Plug(c, t))
    ensures ColoursAt(c, x, true) && (Height(Plug(c, t)) >= 0 ==> ShortAt(c, x))
  {
    PlugNoRedRed(c, t);
    PlugHeight(c, t);
    if c.Step? {
      TopIsRoot(c, t);
    }
    if Height(t) < 0 {
      HeightOfBad(c, Height(t));
    }
  }

  /** The other side of a childless position's parent, which is what delete_fixup works on for a left leaf. */
  function Beside<V>(c: Path<V>): Path<V>
    requires c.Step?
  {
    Step(c.up, !c.hole, c.item, Leaf)
  }

  lemma LeafGoes<V>(c: Path<V>, t: Tree<V>)
    requires c.Step? && t.Node? && !IsRed(t) && t.left == t.right == Leaf && RightColours(Plug(c, t))
    ensures Plug(Beside(c), c.sib) == Plug(c, Leaf) && ColoursAt(Beside(c), c.sib, c.sib.Leaf?)
    ensures Height(Plug(c, t)) >= 0 ==> LostAt(Beside(c), c.sib, c.sib.Leaf?)
  {
    BlackGoes(c, t, Leaf);
    PlugHeight(c, t);
    if Height(c.sib) != 1 {
      HeightOfBad(c.up, -1);
    }
  }

  // ---------- A node with two children ----------

  /** What a node t with two children becomes: the least node of its right subtree, at the end of c2, takes its place. */
  function Succeeded<V>(t: Tree<V>, c2: Path<V>, y: Tree<V>): Tree<V>
    requires t.Node? && y.Node?
  {
    Node(y.item.(red := t.item.red), t.left, Plug(c2, y.right))
  }

  ghost predicate IsLeast<V>(t: Tree<V>, c2: Path<V>, y: Tree<V>) {
    t.Node? && y.Node? && y.left == Leaf && Plug(c2, y) == t.right && Before(c2) == []
  }

  lemma SucceededOrder<V>(t: Tree<V>, c2: Path<V>, y: Tree<V>)
    requires IsLeast(t, c2, y)
    ensures InOrder(Succeeded(t, c2, y)) == InOrder(t.left) + InOrder(t.right)
  {
    hide Before, After, Plug;
    PlugInOrder(c2, y);
    PlugInOrder(c2, y.right);
    assert InOrder(y) == [] + [Pair(y.item)] + InOrder(y.right);
    assert InOrder(t.right) == [Pair(y.item)] + InOrder(y.right) + After(c2);
    assert InOrder(Plug(c2, y.right)) == InOrder(y.right) + After(c2);
  }

  /** The colours on the way to the successor's old place, with nothing there. */
  lemma WayDown<V>(c: Path<V>, t: Tree<V>, c2: Path<V>, y: Tree<V>, x: Tree<V>)
    requires IsLeast(t, c2, y) && RightColours(Plug(c, t)) && NoRedRed(x) && !IsRed(x)
    ensures var t' := Node(y.item.(red := t.item.red), t.left, Plug(c2, x));
            NoRedRed(t') && RightColours(Plug(c, t')) && PathNoRedRed(c, IsRed(t')) && TopBlack(c) && (c.Top? ==> !IsRed(t'))
  {
    var t' := Node(y.item.(red := t.item.red), t.left, Plug(c2, x));
    PlugNoRedRed(c, t);
    PlugNoRedRed(c, t');
    PlugNoRedRed(c2, y);
    PlugNoRedRed(c2, x);
    if c2.Step? {
      TopIsRoot(c2, y);
      TopIsRoot(c2, x);
    }
    if c.Step? {
      TopIsRoot(c, t);
      TopIsRoot(c, t');
    }
  }

  lemma RedSuccessor<V>(c: Path<V>, t: Tree<V>, c2: Path<V>, y: Tree<V>)
    requires IsLeast(t, c2, y) && IsRed(y) && RightColours(Plug(c, t))
    ensures RightColours(Plug(c, Succeeded(t, c2, y)))
    ensures Height(Plug(c, t)) >= 0 ==> Height(Plug(c, Succeeded(t, c2, y))) >= 0
  {
    PlugNoRedRed(c, t);
    PlugNoRedRed(c2, y);
    WayDown(c, t, c2, y, y.right);
    PlugHeight(c, t);
    PlugHeight(c, Succeeded(t, c2, y));
    PlugHeight(c2, y);
    PlugHeight(c2, y.right);
    SoundBelow(c, t);
    SoundBelow(c2, y);
  }

  /** A balanced tree is balanced at every position. */
  lemma SoundBelow<V>(c: Path<V>, t: Tree<V>)
    ensures Height(Plug(c, t)) >= 0 ==> Height(t) >= 0
    ensures Height(t) >= 0 && t.Node? ==> Height(t.left) >= 0 && Height(t.right) >= 0
  {
    PlugHeight(c, t);
    if Height(t) < 0 {
      HeightOfBad(c, Height(t));
    }
  }

  /** The way to the successor's old place, through its new one. */
  function NewWay<V>(c: Path<V>, t: Tree<V>, c2: Path<V>, y: Tree<V>): Path<V>
    requires t.Node? && y.Node?
  {
    Append(c2, Step(c, false, y.item.(red := t.item.red), t.left))
  }

  /** A black successor with a child leaves its old place one black node short. */
  lemma BlackSuccessor<V>(c: Path<V>, t: Tree<V>, c2: Path<V>, y: Tree<V>)
    requires IsLeast(t, c2, y) && !IsRed(y) && RightColours(Plug(c, t))
    ensures Plug(NewWay(c, t, c2, y), y.right) == Plug(c, Succeeded(t, c2, y))
    ensures ColoursAt(NewWay(c, t, c2, y), y.right, true)
    ensures Height(Plug(c, t)) >= 0 ==> ShortAt(NewWay(c, t, c2, y), y.right)
  {
    var base, w := Step(c, false, y.item.(red := t.item.red), t.left), NewWay(c, t, c2, y);
    PlugNoRedRed(c, t);
    PlugNoRedRed(c2, y);
    WayDown(c, t, c2, y, Leaf);
    PlugAppend(c2, base, Leaf);
    PlugAppend(c2, base, y);
    PlugAppend(c2, base, y.right);
    PlugNoRedRed(w, Leaf);
    assert w.Step? by { AppendStep(c2, base); }
    TopIsRoot(w, Leaf);
    PlugHeight(w, y);
    SameHeight(c, t, Node(base.item, t.left, Plug(c2, y)));
    SoundBelow(c, t);
    SoundBelow(c2, y);
  }

  lemma AppendStep<V>(c: Path<V>, base: Path<V>)
    requires base.Step?
    ensures Append(c, base).Step?
  {
  }

  lemma SameHeight<V>(c: Path<V>, t: Tree<V>, t': Tree<V>)
    requires Height(t) == Height(t')
    ensures Height(Plug(c, t)) == Height(Plug(c, t'))
  {
    PlugHeight(c, t);
    PlugHeight(c, t');
  }

  /** A black successor without children leaves an imbalance below its new place. */
  lemma ChildlessSuccessor<V>(c: Path<V>, t: Tree<V>, c2: Path<V>, y: Tree<V>)
    requires IsLeast(t, c2, y) && !IsRed(y) && y.right.Leaf? && RightColours(Plug(c, t))
    ensures ColoursAt(c, Succeeded(t, c2, y), false)
    ensures Height(Plug(c, t)) >= 0 ==> LostAt(c, Succeeded(t, c2, y), false)
  {
    WayDown(c, t, c2, y, Leaf);
    PlugNoRedRed(c, Succeeded(t, c2, y));
    PathWeaker(c, t.item.red);
    if Height(Plug(c, t)) >= 0 {
      SoundBelow(c, t);
      SoundBelow(c2, y);
      PlugHeight(c2, y);
      PlugHeight(c2, Leaf);
      if c2.Step? {
        if Height(c2.sib) != 1 {
          HeightOfBad(c2.up, -1);
        }
        HeightOfBad(c2.up, -1);
      }
    }
  }

  lemma PathWeaker<V>(c: Path<V>, red: bool)
    requires PathNoRedRed(c, red)
    ensures PathNoRedRed(c, false)
  {
  }

  /**
   Whether deleting the node t at c keeps the black heights equal: the node taken out is red, or it has a child to take
   over its blackness, or it is the only node, or it is a leaf on the right of its parent.
   */
  ghost predicate StaysBalanced<V>(c: Path<V>, t: Tree<V>)
    requires t.Node?
  {
    if t.left.Leaf? || t.right.Leaf? then
      t.item.red || t.left.Node? || t.right.Node? || c.Top? || !c.hole
    else
      Least(t.right).item.red || Least(t.right).right.Node?
  }

  function Least<V>(t: Tree<V>): (r: Tree<V>)
    requires t.Node?
    ensures r.Node? && r.left.Leaf?
  {
    if t.left.Leaf? then t else Least(t.left)
  }

  lemma {:induction false} LeastAtEnd<V>(c2: Path<V>, y: Tree<V>)
    requires y.Node? && y.left.Leaf? && AllLeft(c2)
    ensures Plug(c2, y).Node? && Least(Plug(c2, y)) == y && Before(c2) == []
    decreases c2
  {
    LeastPlug(c2, y);
  }

  lemma LeastParts<V>(t: Tree<V>, c2: Path<V>, y: Tree<V>)
    requires IsLeast(t, c2, y)
    ensures t.Node? && y.Node? && y.left.Leaf? && t.right == Plug(c2, y) && Root(Succeeded(t, c2, y)) == y.item.cell
  {
  }

  lemma OneChildOrder<V>(t: Tree<V>)
    requires t.Node? && (t.left.Leaf? || t.right.Leaf?)
    ensures InOrder(if t.left.Leaf? then t.right else t.left) == InOrder(t.left) + InOrder(t.right)
  {
  }

  predicate AllLeft<V>(c: Path<V>) { c.Step? ==> c.hole && AllLeft(c.up) }

  lemma {:induction false} LeastPlug<V>(c: Path<V>, t: Tree<V>)
    requires t.Node? && AllLeft(c)
    ensures Plug(c, t).Node? && Least(Plug(c, t)) == Least(t) && Before(c) == []
    decreases c
  {
    if c.Step? {
      LeastPlug(c.up, Make(true, c.item, t, c.sib));
    }
  }

  // ---------- An input on which the balance is lost ----------

  /** Three black nodes in balance. */
  function Three<V>(top: Item<V>, a: Item<V>, b: Item<V>): Tree<V> { Node(top, Node(a, Leaf, Leaf), Node(b, Leaf, Leaf)) }

  function LeftOfThree<V>(top: Item<V>, b: Item<V>): Path<V> { Step(Top, true, top, Node(b, Leaf, Leaf)) }

  lemma ThreeIsRedBlack<V>(top: Item<V>, a: Item<V>, b: Item<V>)
    requires !top.red && !a.red && !b.red
    ensures RedBlack(Three(top, a, b)) && InOrder(Three(top, a, b)) == [Pair(a), Pair(top), Pair(b)]
    ensures !StaysBalanced(LeftOfThree(top, b), Node(a, Leaf, Leaf))
  {
    var l, r := Node(a, Leaf, Leaf), Node(b, Leaf, Leaf);
    assert Height(l) == Height(r) == 1 && NoRedRed(l) && NoRedRed(r);
    assert InOrder(l) == [Pair(a)] && InOrder(r) == [Pair(b)];
  }

  lemma {:induction false} PlugIsDeeper<V>(c: Path<V>, t: Tree<V>)
    ensures Depth(Plug(c, t)) >= Steps(c) + Depth(t)
    decreases c
  {
    if c.Step? {
      PlugIsDeeper(c.up, Make(c.hole, c.item, t, c.sib));
    }
  }

  /** The least key of three stands at the left leaf and nowhere else. */
  lemma LeastOfThree<V>(cmp: Comparison, top: Item<V>, a: Item<V>, b: Item<V>, c: Path<V>, t: Tree<V>)
    requires Plug(c, t) == Three(top, a, b) && t.Node? && Sorted(cmp, [Pair(a), Pair(top), Pair(b)])
    requires Compare(cmp, a.key, t.item.key) == 0
    ensures c == LeftOfThree(top, b) && t == Node(a, Leaf, Leaf)
  {
    var s := [Pair(a), Pair(top), Pair(b)];
    assert Compare(cmp, s[0].0, s[1].0) < 0 && Compare(cmp, s[0].0, s[2].0) < 0;
    PlugIsDeeper(c, t);
    assert Depth(Node(a, Leaf, Leaf)) == Depth(Node(b, Leaf, Leaf)) == 1;
    assert Steps(c) <= 1;
    assert c.Step? ==> c.up.Top?;
  }
}
