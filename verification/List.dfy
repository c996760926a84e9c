/** The circular list of vox_list.h: nodes linked both ways through a sentinel that the list head embeds. */
module List {

  class Node {
    var prev: Node
    var next: Node

    /** vox_list_node_init: a node that points to itself. */
    constructor ()
      ensures prev == this && next == this
    {
      prev, next := this, this;
    }
  }

  /** The i-th node of the ring, counted modulo its length. */
  function At(ring: seq<Node>, i: int): Node
    requires ring != []
  {
    ring[if i < 0 then |ring| - 1 else if i >= |ring| then 0 else i]
  }

  ghost predicate Linked(ring: seq<Node>, i: nat)
    requires i < |ring|
    reads ring[i]
  {
    ring[i].next == At(ring, i + 1) && ring[i].prev == At(ring, i - 1)
  }

  ghost predicate Distinct(ring: seq<Node>) {
    forall i, j | 0 <= i < j < |ring| :: ring[i] != ring[j]
  }

  /** Every node points to its neighbours in the ring, both ways. */
  ghost predicate Ring(ring: seq<Node>)
    reads ring
  {
    ring != [] && Distinct(ring) && forall i {:trigger Linked(ring, i)} | 0 <= i < |ring| :: Linked(ring, i)
  }

  twostate lemma Pushed(r: seq<Node>, new node: Node)
    requires old(Ring(r)) && node !in r
    requires var last := r[|r| - 1];
             && node.next == r[0] && node.prev == last && r[0].prev == node && last.next == node
             && (|r| > 1 ==> r[0].next == old(r[0].next) && last.prev == old(last.prev))
    requires forall i | 0 < i < |r| - 1 :: unchanged(r[i])
    ensures Ring(r + [node])
  {
    var t := r + [node];
    forall i | 0 <= i < |t| ensures Linked(t, i) {
      if i < |r| {
        assert old(Linked(r, i));
      }
    }
  }

  twostate lemma Removed(r: seq<Node>, new k: nat)
    requires old(Ring(r)) && 0 < k < |r|
    requires var prev, next := r[k - 1], At(r, k + 1);
             && next.prev == prev && prev.next == next
             && (prev != next ==> next.next == old(next.next) && prev.prev == old(prev.prev))
    requires forall i | 0 <= i < |r| && i != k && r[i] != r[k - 1] && r[i] != At(r, k + 1) :: unchanged(r[i])
    ensures Ring(r[..k] + r[k + 1..])
  {
    var t := r[..k] + r[k + 1..];
    assert old(Linked(r, k));
    forall i | 0 <= i < |t| ensures Linked(t, i) {
      var j := if i < k then i else i + 1;
      assert t[i] == r[j] && old(Linked(r, j));
      assert At(t, i + 1) == if i == k - 1 then At(r, k + 1) else At(r, j + 1);
      assert At(t, i - 1) == if j == (if k + 1 < |r| then k + 1 else 0) then r[k - 1] else At(r, j - 1);
    }
  }

  twostate lemma RingKept(r: seq<Node>)
    requires old(Ring(r)) && forall i | 0 <= i < |r| :: unchanged(r[i])
    ensures Ring(r)
  {
    forall i | 0 <= i < |r| ensures Linked(r, i) {
      assert old(Linked(r, i));
    }
  }

  /** Nodes of different rings differ. */
  lemma Spread(r: seq<Node>, q: seq<Node>)
    requires forall n | n in r :: n !in q
    ensures forall i, j | 0 <= i < |r| && 0 <= j < |q| :: r[i] != q[j]
  {
    assert forall i | 0 <= i < |r| :: r[i] in r && r[i] !in q;
  }

  twostate lemma Spliced(r: seq<Node>, new q: seq<Node>)
    requires old(allocated(q)) && old(Ring(r)) && old(Ring(q)) && |q| > 1
    requires forall i, j | 0 <= i < |r| && 0 <= j < |q| :: r[i] != q[j]
    requires var at, first, last := r[|r| - 1], q[1], q[|q| - 1];
             && first.prev == at && at.next == first && last.next == r[0] && r[0].prev == last
             && (|r| > 1 ==> r[0].next == old(r[0].next) && at.prev == old(at.prev))
             && (|q| > 2 ==> first.next == old(first.next) && last.prev == old(last.prev))
    requires forall i | 0 < i < |r| - 1 :: unchanged(r[i])
    requires forall i | 1 < i < |q| - 1 :: unchanged(q[i])
    ensures Ring(r + q[1..])
  {
    var t := r + q[1..];
    forall i | 0 <= i < |t| ensures Linked(t, i) {
      if i < |r| {
        assert old(Linked(r, i));
      } else {
        assert t[i] == q[i - |r| + 1] && old(Linked(q, i - |r| + 1));
      }
    }
  }

  class List {
    const head: Node
    var size: nat
    /** The nodes in order, without the sentinel. */
    ghost var nodes: seq<Node>

    ghost predicate Valid()
      reads this, [head] + nodes
    {
      Ring([head] + nodes) && size == |nodes|
    }

    /** vox_list_init */
    constructor ()
      ensures Valid() && nodes == [] && fresh(head)
    {
      head := new Node();
      size, nodes := 0, [];
      new;
      assert Linked([head], 0);
    }

    /** vox_list_empty */
    predicate Empty()
      requires Valid()
      reads this, [head] + nodes
      ensures Empty() <==> nodes == []
    {
      assert Linked([head] + nodes, 0);
      head.next == head
    }

    /** vox_list_push_back of an isolated node. */
    method PushBack(node: Node)
      requires Valid() && node !in [head] + nodes
      modifies this`size, this`nodes, head, if nodes == [] then head else nodes[|nodes| - 1], node
      ensures Valid() && nodes == old(nodes) + [node]
    {
      ghost var r := [head] + nodes;
      assert Linked(r, 0) && Linked(r, |r| - 1);
      assert head.prev == r[|r| - 1];
      var last := head.prev;
      node.next := head;
      node.prev := last;
      head.prev := node;
      last.next := node;
      size := size + 1;
      nodes := nodes + [node];
      assert [head] + nodes == r + [node];
      Pushed(r, node);
    }

    /** vox_list_remove: the node leaves its neighbours linked and is isolated. */
    method Remove(node: Node, ghost k: nat)
      requires Valid() && k < |nodes| && nodes[k] == node
      modifies this`size, this`nodes, node, At([head] + nodes, k), At([head] + nodes, k + 2)
      ensures Valid() && nodes == old(nodes[..k] + nodes[k + 1..]) && node.prev == node && node.next == node
    {
      ghost var r := [head] + nodes;
      assert Linked(r, k + 1);
      assert node == r[k + 1];
      var prev, next := node.prev, node.next;
      next.prev := prev;
      prev.next := next;
      node.prev := node;
      node.next := node;
      size := size - 1;
      nodes := nodes[..k] + nodes[k + 1..];
      assert [head] + nodes == r[..k + 1] + r[k + 2..];
      Removed(r, k + 1);
    }

    /** vox_list_splice: the nodes of other move to the end of this list. */
    method Splice(other: List)
      requires Valid() && other.Valid() && other != this && head != other.head
      requires forall n | n in [head] + nodes :: n !in [other.head] + other.nodes
      modifies this, other, head, other.head, if nodes == [] then head else nodes[|nodes| - 1]
      modifies if other.nodes == [] then other.head else other.nodes[0],
               if other.nodes == [] then other.head else other.nodes[|other.nodes| - 1]
      ensures Valid() && nodes == old(nodes + other.nodes)
      ensures other.Valid() && other.nodes == []
    {
      if other.Empty() {
        assert nodes + other.nodes == nodes;
        return;
      }
      hide Ring, Linked, Distinct;
      ghost var r, q := [head] + nodes, [other.head] + other.nodes;
      Ends(r);
      Ends(q);
      Spread(r, q);
      Join(r, q, other);
      size := size + other.size;
      nodes := nodes + other.nodes;
      assert [head] + nodes == r + q[1..];
      label Joined:
      other.head.prev := other.head;
      other.head.next := other.head;
      other.size := 0;
      other.nodes := [];
      Alone(other.head);
      Apart(r, q);
      RingKept@Joined([head] + nodes);
    }

    /** The four assignments that link one ring's nodes behind another's. */
    method Join(ghost r: seq<Node>, ghost q: seq<Node>, other: List)
      requires Ring(r) && Ring(q) && |q| > 1 && r[0] == head && q[0] == other.head
      requires forall i, j | 0 <= i < |r| && 0 <= j < |q| :: r[i] != q[j]
      modifies head, r[|r| - 1], q[1], q[|q| - 1]
      ensures Ring(r + q[1..])
    {
      Ends(r);
      Ends(q);
      hide Ring, Linked, Distinct;
      var first := other.head.next;
      var last := other.head.prev;
      var at := head.prev;
      first.prev := at;
      at.next := first;
      last.next := head;
      head.prev := last;
      Spliced(r, q);
    }
  }

  /** The ends of a ring, and that no node between them is one of them. */
  lemma Ends(r: seq<Node>)
    requires Ring(r)
    ensures |r| > 0 && r[0].prev == r[|r| - 1] && r[|r| - 1].next == r[0] && r[0].next == At(r, 1)
    ensures forall i | 0 < i < |r| - 1 :: r[i] != r[0] && r[i] != r[|r| - 1]
    ensures forall i | 1 < i < |r| - 1 :: r[i] != r[1]
    ensures |r| > 1 ==> r[0] != r[|r| - 1]
    ensures forall i | 1 <= i < |r| :: r[i] != r[0]
  {
    assert Linked(r, 0) && Linked(r, |r| - 1);
  }

  lemma Alone(n: Node)
    requires n.prev == n && n.next == n
    ensures Ring([n])
  {
    assert Linked([n], 0);
  }

  /** The sentinel of the emptied list is none of the joined nodes. */
  lemma Apart(r: seq<Node>, q: seq<Node>)
    requires |q| > 0 && (forall i, j | 0 <= i < |r| && 0 <= j < |q| :: r[i] != q[j])
    requires forall i | 1 <= i < |q| :: q[i] != q[0]
    ensures forall i | 0 <= i < |r + q[1..]| :: (r + q[1..])[i] != q[0]
  {
  }
}
