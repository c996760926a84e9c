/**
 The rebalancing cases of vox_rbtree.c on trees: what each case of insert_fixup and delete_fixup makes of the subtree it
 works on, and what it keeps.
 */
module RbFixup {
  import opened RbShape

  /** What a rotation at the root of t towards side s makes of t. */
  function Rotated<V>(t: Tree<V>, s: bool): Tree<V>
    requires t.Node? && t.Kid(!s).Node?
  {
    var y := t.Kid(!s);
    Make(s, y.item, Make(s, t.item, t.Kid(s), y.Kid(s)), y.Kid(!s))
  }

  lemma RotatedOrder<V>(t: Tree<V>, s: bool)
    requires t.Node? && t.Kid(!s).Node?
    ensures InOrder(Rotated(t, s)) == InOrder(t)
  {
    var y := t.Kid(!s);
    if s {
      assert InOrder(Rotated(t, s)) == InOrder(t.left) + [Pair(t.item)] + InOrder(y.left) + [Pair(y.item)] + InOrder(y.right);
    } else {
      assert InOrder(Rotated(t, s)) == InOrder(y.left) + [Pair(y.item)] + InOrder(y.right) + [Pair(t.item)] + InOrder(t.right);
    }
  }

  lemma RotatedCells<V>(t: Tree<V>, s: bool)
    requires t.Node? && t.Kid(!s).Node?
    ensures Cells(Rotated(t, s)) == Cells(t)
  {
  }

  // ---------- Replacing a subtree ----------

  lemma ReplacedOrder<V>(c: Path<V>, t: Tree<V>, t': Tree<V>)
    requires InOrder(t) == InOrder(t')
    ensures InOrder(Plug(c, t)) == InOrder(Plug(c, t'))
  {
    PlugInOrder(c, t);
    PlugInOrder(c, t');
  }

  lemma ReplacedHeight<V>(c: Path<V>, t: Tree<V>, t': Tree<V>)
    requires Height(t) == Height(t')
    ensures Height(Plug(c, t)) == Height(Plug(c, t'))
  {
    PlugHeight(c, t);
    PlugHeight(c, t');
  }

  /** The node on top of the path, which is the root of the whole tree, is black. */
  predicate TopBlack<V>(c: Path<V>) {
    c.Step? ==> if c.up.Top? then !c.item.red else TopBlack(c.up)
  }

  lemma {:induction false} TopIsRoot<V>(c: Path<V>, t: Tree<V>)
    requires c.Step?
    ensures TopBlack(c) <==> !IsRed(Plug(c, t))
    decreases c
  {
    if c.up.Step? {
      TopIsRoot(c.up, Make(c.hole, c.item, t, c.sib));
    }
  }

  /** How far insert_fixup may still have to climb. */
  function ToClimb<V>(c: Path<V>): nat { if c.Step? && c.item.red then Steps(c) else 0 }

  function Red<V>(i: Item<V>): Item<V> { i.(red := true) }

  function Black<V>(i: Item<V>): Item<V> { i.(red := false) }

  // ---------- Insertion ----------

  /** The red node at the position may have a red parent; all else is in order. */
  predicate RedAt<V>(c: Path<V>, t: Tree<V>) {
    IsRed(t) && NoRedRed(t) && PathNoRedRed(c, false) && TopBlack(c)
  }

  /** Below a red parent there is a grandparent, and it is black. */
  lemma RedParent<V>(c: Path<V>, t: Tree<V>)
    requires RedAt(c, t) && c.Step? && c.item.red
    ensures c.up.Step? && !c.up.item.red && !IsRed(c.sib) && NoRedRed(c.sib)
    ensures PathNoRedRed(c.up.up, false) && NoRedRed(c.up.sib) && TopBlack(c.up) && TopBlack(c.up.up)
  {
    assert PathNoRedRed(c.up, true);
  }

  /** Case 1, a red uncle: parent and uncle turn black, the grandparent red. */
  function UncleRed<V>(c: Path<V>, t: Tree<V>): Tree<V>
    requires c.Step? && c.up.Step?
  {
    Make(c.up.hole, Red(c.up.item), Make(c.hole, Black(c.item), t, c.sib), Blackened(c.up.sib))
  }

  lemma UncleRedKeeps<V>(c: Path<V>, t: Tree<V>)
    requires RedAt(c, t) && c.Step? && c.item.red && IsRed(c.up.sib)
    ensures RedAt(c.up.up, UncleRed(c, t))
    ensures InOrder(Plug(c.up.up, UncleRed(c, t))) == InOrder(Plug(c, t))
    ensures Height(Plug(c.up.up, UncleRed(c, t))) == Height(Plug(c, t))
  {
    RedParent(c, t);
    var g := Make(c.up.hole, c.up.item, Make(c.hole, c.item, t, c.sib), c.up.sib);
    assert Plug(c, t) == Plug(c.up.up, g);
    assert InOrder(Blackened(c.up.sib)) == InOrder(c.up.sib);
    var p := Make(c.hole, c.item, t, c.sib);
    assert Height(g) == Over(false, Height(p), Height(c.up.sib));
    assert Height(UncleRed(c, t)) == Over(true, Height(Blackened(p)), Height(Blackened(c.up.sib)));
    HeightBound(c.up.sib);
    ReplacedOrder(c.up.up, g, UncleRed(c, t));
    ReplacedHeight(c.up.up, g, UncleRed(c, t));
  }

  /** Case 2, an inner node: rotating at the parent makes the parent the outer one. */
  function InnerPath<V>(c: Path<V>, t: Tree<V>): Path<V>
    requires c.Step? && c.up.Step? && t.Node?
  {
    Step(c.up, c.up.hole, t.item, t.Kid(!c.up.hole))
  }

  function InnerTree<V>(c: Path<V>, t: Tree<V>): Tree<V>
    requires c.Step? && c.up.Step? && t.Node?
  {
    Make(c.up.hole, c.item, c.sib, t.Kid(c.up.hole))
  }

  lemma InnerKeeps<V>(c: Path<V>, t: Tree<V>)
    requires RedAt(c, t) && c.Step? && c.item.red && c.hole != c.up.hole && !IsRed(c.up.sib)
    ensures var p := Make(c.hole, c.item, t, c.sib);
            p.Kid(!c.up.hole) == t && Rotated(p, c.up.hole) == Make(c.up.hole, t.item, InnerTree(c, t), t.Kid(!c.up.hole))
    ensures RedAt(InnerPath(c, t), InnerTree(c, t)) && InnerPath(c, t).item.red && InnerTree(c, t).Node?
    ensures InOrder(Plug(InnerPath(c, t), InnerTree(c, t))) == InOrder(Plug(c, t))
    ensures Height(Plug(InnerPath(c, t), InnerTree(c, t))) == Height(Plug(c, t))
  {
    RedParent(c, t);
    var p := Make(c.hole, c.item, t, c.sib);
    var p' := Rotated(p, c.up.hole);
    assert Plug(c, t) == Plug(c.up, p);
    assert Plug(InnerPath(c, t), InnerTree(c, t)) == Plug(c.up, p');
    RotatedOrder(p, c.up.hole);
    ReplacedOrder(c.up, p, p');
    ReplacedHeight(c.up, p, p');
  }

  /** Case 3, an outer node: parent black, grandparent red and rotated below it. */
  function OuterPath<V>(c: Path<V>): Path<V>
    requires c.Step? && c.up.Step?
  {
    var s := c.up.hole;
    Step(c.up.up, s, Black(c.item), Make(!s, Red(c.up.item), c.up.sib, c.sib))
  }

  lemma OuterKeeps<V>(c: Path<V>, t: Tree<V>)
    requires RedAt(c, t) && c.Step? && c.item.red && c.hole == c.up.hole && !IsRed(c.up.sib)
    ensures var g := Make(c.up.hole, Red(c.up.item), Make(c.hole, Black(c.item), t, c.sib), c.up.sib);
            g.Kid(c.up.hole).Node? && Plug(OuterPath(c), t) == Plug(c.up.up, Rotated(g, !c.up.hole))
            && Rotated(g, !c.up.hole) == Make(c.up.hole, OuterPath(c).item, t, OuterPath(c).sib)
    ensures RedAt(OuterPath(c), t) && !OuterPath(c).item.red
    ensures InOrder(Plug(OuterPath(c), t)) == InOrder(Plug(c, t))
    ensures Height(Plug(OuterPath(c), t)) == Height(Plug(c, t))
  {
    RedParent(c, t);
    var s := c.up.hole;
    var g := Make(s, c.up.item, Make(s, c.item, t, c.sib), c.up.sib);
    var g' := Make(s, Red(c.up.item), Make(s, Black(c.item), t, c.sib), c.up.sib);
    assert Plug(c, t) == Plug(c.up.up, g);
    assert InOrder(g') == InOrder(g);
    assert Height(g) == Over(false, Over(true, Height(t), Height(c.sib)), Height(c.up.sib));
    assert Height(Rotated(g', !s)) == Over(false, Height(t), Over(true, Height(c.sib), Height(c.up.sib)));
    RotatedOrder(g', !s);
    ReplacedOrder(c.up.up, g, Rotated(g', !s));
    ReplacedHeight(c.up.up, g, Rotated(g', !s));
  }

  /** Once the parent is black, or there is none, colouring the root black completes the repair. */
  lemma InsertDone<V>(c: Path<V>, t: Tree<V>)
    requires RedAt(c, t) && (c.Step? ==> !c.item.red)
    ensures RightColours(Blackened(Plug(c, t))) && InOrder(Blackened(Plug(c, t))) == InOrder(Plug(c, t))
    ensures Height(Blackened(Plug(c, t))) >= 0 <==> Height(Plug(c, t)) >= 0
  {
    PlugNoRedRed(c, t);
  }

  // ---------- Deletion ----------

  /**
   Colours are in order apart from the node at the position, which is still to be coloured black if it is the one
   delete_fixup was given. A NULL node says that the position is taken to be empty, whatever hangs there.
   */
  predicate ColoursAt<V>(c: Path<V>, t: Tree<V>, given: bool) {
    && NoRedRed(Blackened(t)) && PathNoRedRed(c, false) && TopBlack(c)
    && (!given ==> NoRedRed(t) && PathNoRedRed(c, IsRed(t)) && (c.Top? ==> !IsRed(t)))
  }

  /** Every way through the position has one black node too few, and all else is balanced. */
  predicate ShortAt<V>(c: Path<V>, t: Tree<V>) {
    Height(t) >= 0 && HeightWith(c, Height(t) + 1) >= 0
  }

  /** There is an imbalance at or below the position, or at its parent next to a missing sibling. */
  predicate LostAt<V>(c: Path<V>, t: Tree<V>, given: bool) {
    Height(t) < 0 || (!given && LostBeside(c, t))
  }

  predicate LostBeside<V>(c: Path<V>, t: Tree<V>) {
    c.Step? && c.sib.Leaf? && Height(Make(c.hole, c.item, t, c.sib)) < 0
  }

  /** Case 1, a red sibling: it turns black, the parent red, and the parent is rotated below it. */
  function SiblingRed<V>(c: Path<V>): Path<V>
    requires c.Step? && c.sib.Node?
  {
    var s := c.hole;
    Step(Step(c.up, s, Black(c.sib.item), c.sib.Kid(!s)), s, Red(c.item), c.sib.Kid(s))
  }

  lemma SiblingRedKeeps<V>(c: Path<V>, t: Tree<V>)
    requires c.Step? && IsRed(c.sib) && PathNoRedRed(c, false) && TopBlack(c)
    ensures var p := Make(c.hole, Red(c.item), t, Blackened(c.sib));
            p.Kid(!c.hole).Node? && Plug(SiblingRed(c), t) == Plug(c.up, Rotated(p, c.hole))
            && Rotated(p, c.hole) == Make(c.hole, Black(c.sib.item), Make(c.hole, Red(c.item), t, c.sib.Kid(c.hole)), c.sib.Kid(!c.hole))
    ensures PathNoRedRed(SiblingRed(c), false) && TopBlack(SiblingRed(c)) && !IsRed(SiblingRed(c).sib)
    ensures InOrder(Plug(SiblingRed(c), t)) == InOrder(Plug(c, t))
    ensures ShortAt(c, t) ==> ShortAt(SiblingRed(c), t)
  {
    var s := c.hole;
    var p, p' := Make(s, c.item, t, c.sib), Make(s, Red(c.item), t, Blackened(c.sib));
    assert InOrder(p') == InOrder(p);
    RotatedOrder(p', s);
    ReplacedOrder(c.up, p, Rotated(p', s));
  }

  /** While the node at the position is not red, its colours are in order as they are. */
  lemma BlackPosition<V>(c: Path<V>, t: Tree<V>, given: bool)
    requires ColoursAt(c, t, given) && (given ==> !IsRed(t))
    ensures NoRedRed(t) && PathNoRedRed(c, false) && TopBlack(c)
    ensures !IsRed(t) ==> t == Blackened(t)
  {
  }

  /** Case 2, no red nephew: the sibling turns red and the position moves up to the parent. */
  function SiblingBlack<V>(c: Path<V>, t: Tree<V>): Tree<V>
    requires c.Step?
  {
    Make(c.hole, c.item, t, Coloured(c.sib, true))
  }

  lemma SiblingBlackKeeps<V>(c: Path<V>, t: Tree<V>)
    requires c.Step? && !IsRed(c.sib) && (c.sib.Node? ==> !IsRed(c.sib.left) && !IsRed(c.sib.right))
    requires NoRedRed(t) && PathNoRedRed(c, false) && TopBlack(c)
    ensures ColoursAt(c.up, SiblingBlack(c, t), true)
    ensures InOrder(Plug(c.up, SiblingBlack(c, t))) == InOrder(Plug(c, t))
    ensures ShortAt(c, t) ==> ShortAt(c.up, SiblingBlack(c, t))
    ensures Height(t) < 0 || LostBeside(c, t) ==> Height(SiblingBlack(c, t)) < 0
  {
    var p := Make(c.hole, c.item, t, c.sib);
    assert InOrder(SiblingBlack(c, t)) == InOrder(p);
    ReplacedOrder(c.up, p, SiblingBlack(c, t));
    HeightBound(c.sib);
    HeightBound(t);
    if ShortAt(c, t) && Height(c.sib) != Height(t) + 1 {
      HeightOfBad(c.up, -1);
    }
  }

  /** Case 3, only the inner nephew red: it is rotated into the sibling's place. */
  function NephewTurned<V>(s: bool, sib: Tree<V>): Tree<V>
    requires sib.Node? && sib.Kid(s).Node?
  {
    var n := sib.Kid(s);
    Make(s, Black(n.item), n.Kid(s), Make(s, Red(sib.item), n.Kid(!s), sib.Kid(!s)))
  }

  lemma NephewTurnedKeeps<V>(s: bool, sib: Tree<V>)
    requires sib.Node? && !sib.item.red && NoRedRed(sib) && IsRed(sib.Kid(s)) && !IsRed(sib.Kid(!s))
    ensures var b := Make(s, Red(sib.item), Blackened(sib.Kid(s)), sib.Kid(!s));
            b.Kid(s).Node? && Rotated(b, !s) == NephewTurned(s, sib)
    ensures NoRedRed(NephewTurned(s, sib)) && IsRed(NephewTurned(s, sib).Kid(!s))
    ensures InOrder(NephewTurned(s, sib)) == InOrder(sib) && Height(NephewTurned(s, sib)) == Height(sib)
  {
    var b := Make(s, Red(sib.item), Blackened(sib.Kid(s)), sib.Kid(!s));
    assert InOrder(b) == InOrder(sib);
    RotatedOrder(b, !s);
  }

  /** Another black sibling of the same entries and height changes nothing that counts. */
  lemma SiblingSwapped<V>(c: Path<V>, t: Tree<V>, sib: Tree<V>)
    requires c.Step? && NoRedRed(sib) && !IsRed(sib) && InOrder(sib) == InOrder(c.sib) && Height(sib) == Height(c.sib)
    requires PathNoRedRed(c, false) && TopBlack(c)
    ensures var c' := c.(sib := sib);
            && PathNoRedRed(c', false) && TopBlack(c') && InOrder(Plug(c', t)) == InOrder(Plug(c, t))
            && (ShortAt(c, t) ==> ShortAt(c', t))
  {
    assert InOrder(Make(c.hole, c.item, t, sib)) == InOrder(Make(c.hole, c.item, t, c.sib));
    ReplacedOrder(c.up, Make(c.hole, c.item, t, c.sib), Make(c.hole, c.item, t, sib));
  }

  /** Case 4, a red outer nephew: the sibling takes the parent's place and colour, with black children. */
  function SiblingUp<V>(c: Path<V>, t: Tree<V>): Tree<V>
    requires c.Step? && c.sib.Node?
  {
    var s := c.hole;
    Make(s, c.sib.item.(red := c.item.red), Make(s, Black(c.item), t, c.sib.Kid(s)), Blackened(c.sib.Kid(!s)))
  }

  lemma SiblingUpKeeps<V>(c: Path<V>, t: Tree<V>)
    requires c.Step? && c.sib.Node? && !c.sib.item.red && IsRed(c.sib.Kid(!c.hole))
    requires NoRedRed(t) && PathNoRedRed(c, false) && TopBlack(c)
    ensures var p := Make(c.hole, Black(c.item), t,
                          Make(c.hole, c.sib.item.(red := c.item.red), c.sib.Kid(c.hole), Blackened(c.sib.Kid(!c.hole))));
            p.Kid(!c.hole).Node? && Rotated(p, c.hole) == SiblingUp(c, t)
    ensures NoRedRed(Plug(c.up, SiblingUp(c, t)))
    ensures InOrder(Plug(c.up, SiblingUp(c, t))) == InOrder(Plug(c, t))
  {
    var p := Make(c.hole, c.item, t, c.sib);
    var p' := Make(c.hole, Black(c.item), t,
                   Make(c.hole, c.sib.item.(red := c.item.red), c.sib.Kid(c.hole), Blackened(c.sib.Kid(!c.hole))));
    var r := SiblingUp(c, t);
    assert InOrder(Blackened(c.sib.Kid(!c.hole))) == InOrder(c.sib.Kid(!c.hole));
    assert InOrder(p'.Kid(!c.hole)) == InOrder(c.sib);
    assert InOrder(p') == InOrder(p);
    RotatedOrder(p', c.hole);
    ReplacedOrder(c.up, p, r);
    assert NoRedRed(c.sib.left) && NoRedRed(c.sib.right);
    assert NoRedRed(Blackened(c.sib.Kid(!c.hole)));
    PlugNoRedRed(c.up, r);
  }

  lemma SiblingUpBalances<V>(c: Path<V>, t: Tree<V>)
    requires c.Step? && c.sib.Node? && !c.sib.item.red && IsRed(c.sib.Kid(!c.hole))
    ensures ShortAt(c, t) ==> Height(Plug(c.up, SiblingUp(c, t))) >= 0
    ensures Height(t) < 0 ==> Height(Plug(c.up, SiblingUp(c, t))) < 0
  {
    var r := SiblingUp(c, t);
    PlugHeight(c.up, r);
    HeightBound(c.sib.left);
    HeightBound(c.sib.right);
    var a, b := Height(c.sib.Kid(c.hole)), Height(c.sib.Kid(!c.hole));
    assert Height(c.sib) == Over(false, a, b);
    assert Height(r) == Over(c.item.red, Over(false, Height(t), a), Height(Blackened(c.sib.Kid(!c.hole))));
    if Height(t) < 0 {
      HeightOfBad(c.up, Height(r));
    }
    if ShortAt(c, t) && Height(c.sib) != Height(t) + 1 {
      HeightOfBad(c.up, -1);
    }
  }

  /** Colouring the given node black ends the repair: nothing is short any more. */
  lemma DeleteDone<V>(c: Path<V>, t: Tree<V>, given: bool)
    requires ColoursAt(c, t, given) && (c.Step? && given ==> IsRed(t))
    ensures var t' := if given then Blackened(t) else t;
            && RightColours(Plug(c, t')) && InOrder(Plug(c, t')) == InOrder(Plug(c, t))
            && (given && ShortAt(c, t) ==> Height(Plug(c, t')) >= 0)
            && (LostAt(c, t, given) ==> Height(Plug(c, t')) < 0)
  {
    var t' := if given then Blackened(t) else t;
    PlugNoRedRed(c, t');
    PlugHeight(c, t');
    ReplacedOrder(c, t, t');
    if c.Step? {
      TopIsRoot(c, t');
    }
    if LostAt(c, t, given) {
      HeightOfBad(c, -1);
      if Height(t) >= 0 {
        HeightOfBad(c.up, -1);
      }
      HeightBound(t);
    }
  }

  lemma NotBesideNode<V>(c: Path<V>, t: Tree<V>)
    requires c.Step? && c.sib.Node?
    ensures !LostBeside(c, t)
  {
  }

  lemma LostIs<V>(c: Path<V>, t: Tree<V>)
    ensures LostAt(c, t, true) <==> Height(t) < 0
  {
  }

  lemma WholeIsDone<V>(t: Tree<V>)
    requires NoRedRed(t)
    ensures ColoursAt(Top, t, true) && Plug(Top, t) == t && (Height(t) >= 0 ==> ShortAt(Top, t))
  {
  }
}
