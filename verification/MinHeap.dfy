/** The array heap of vox_mheap.c: push, pop and removal of any element, for any comparison that orders the elements. */
module MinHeap {
  import opened Prelude
  import opened Bits

  type Comparison<!T> = (T, T) -> int

  /** The elements are ordered by cmp, with ties; only the sign of a comparison counts. */
  ghost predicate Orders<T(!new)>(cmp: Comparison<T>) {
    && (forall a, b :: cmp(a, b) < 0 <==> cmp(b, a) > 0)
    && (forall a, b, c :: cmp(a, b) <= 0 && cmp(b, c) <= 0 ==> cmp(a, c) <= 0)
  }

  predicate Le<T>(cmp: Comparison<T>, a: T, b: T) { cmp(a, b) <= 0 }

  lemma LeChain<T(!new)>(cmp: Comparison<T>, a: T, b: T, c: T)
    requires Orders(cmp) && Le(cmp, a, b) && Le(cmp, b, c)
    ensures Le(cmp, a, c)
  {
  }

  lemma LeTotal<T(!new)>(cmp: Comparison<T>, a: T, b: T)
    requires Orders(cmp)
    ensures Le(cmp, a, a) && (Le(cmp, a, b) || Le(cmp, b, a))
    ensures cmp(a, b) < 0 ==> Le(cmp, a, b)
    ensures cmp(a, b) >= 0 ==> Le(cmp, b, a)
  {
    assert cmp(a, a) < 0 <==> cmp(a, a) > 0;
    assert cmp(a, b) < 0 <==> cmp(b, a) > 0;
    assert cmp(b, a) < 0 <==> cmp(a, b) > 0;
  }

  function Parent(i: nat): nat
    requires i > 0
  {
    (i - 1) / 2
  }

  // ---------- Heap order ----------

  /** Position j is not below its parent. */
  predicate InPlace<T>(cmp: Comparison<T>, s: seq<T>, j: nat)
    requires 0 < j < |s|
  {
    Le(cmp, s[Parent(j)], s[j])
  }

  predicate HeapOrdered<T>(cmp: Comparison<T>, s: seq<T>) {
    forall j {:trigger InPlace(cmp, s, j)} | 0 < j < |s| :: InPlace(cmp, s, j)
  }

  /** The children of k are not below the parent of k. */
  predicate Bridged<T>(cmp: Comparison<T>, s: seq<T>, k: nat)
    requires k < |s|
  {
    k > 0 ==> forall j {:trigger Parent(j)} | 0 < j < |s| && Parent(j) == k :: Le(cmp, s[Parent(k)], s[j])
  }

  /** Only k may be smaller than its parent. */
  predicate UpTo<T>(cmp: Comparison<T>, s: seq<T>, k: nat)
    requires k < |s|
  {
    Bridged(cmp, s, k) && forall j {:trigger InPlace(cmp, s, j)} | 0 < j < |s| && j != k :: InPlace(cmp, s, j)
  }

  /** Only k may be out of order, with its parent or its children. */
  predicate Around<T>(cmp: Comparison<T>, s: seq<T>, k: nat)
    requires k < |s|
  {
    Bridged(cmp, s, k)
    && forall j {:trigger InPlace(cmp, s, j)} | 0 < j < |s| && j != k && Parent(j) != k :: InPlace(cmp, s, j)
  }

  function Swap<T>(s: seq<T>, i: nat, j: nat): (r: seq<T>)
    requires i < |s| && j < |s|
    ensures |r| == |s|
  {
    s[i := s[j]][j := s[i]]
  }

  lemma SwapKeeps<T>(s: seq<T>, i: nat, j: nat)
    requires i < |s| && j < |s|
    ensures multiset(Swap(s, i, j)) == multiset(s)
  {
  }

  /** The root is the least element. */
  lemma {:induction false} RootIsLeast<T(!new)>(cmp: Comparison<T>, s: seq<T>, j: nat)
    requires Orders(cmp) && HeapOrdered(cmp, s) && j < |s|
    ensures Le(cmp, s[0], s[j])
  {
    hide Orders, Le;
    if j == 0 {
      LeTotal(cmp, s[0], s[0]);
    } else {
      RootIsLeast(cmp, s, Parent(j));
      assert InPlace(cmp, s, j) by { assert HeapOrdered(cmp, s); }
      LeChain(cmp, s[0], s[Parent(j)], s[j]);
    }
  }

  /** Moving k above its parent p leaves at most p out of order with its own parent. */
  lemma SiftUp<T(!new)>(cmp: Comparison<T>, s: seq<T>, k: nat)
    requires Orders(cmp) && 0 < k < |s| && UpTo(cmp, s, k) && cmp(s[k], s[Parent(k)]) < 0
    ensures UpTo(cmp, Swap(s, k, Parent(k)), Parent(k))
  {
    hide Orders, Le;
    var p := Parent(k);
    var t := Swap(s, k, p);
    LeTotal(cmp, s[k], s[p]);
    forall j | 0 < j < |t| && j != p ensures InPlace(cmp, t, j) {
      if j != k {
        assert InPlace(cmp, s, j);
        if Parent(j) == p {
          LeChain(cmp, s[k], s[p], s[j]);
        }
      }
    }
    if p > 0 {
      assert InPlace(cmp, s, p);
      forall j | 0 < j < |t| && Parent(j) == p ensures Le(cmp, t[Parent(p)], t[j]) {
        if j != k {
          assert InPlace(cmp, s, j);
          LeChain(cmp, s[Parent(p)], s[p], s[j]);
        }
      }
    }
  }

  /** The smaller child m of k moves up: only k's former element may still be out of order, with m's children. */
  lemma SiftDown<T(!new)>(cmp: Comparison<T>, s: seq<T>, k: nat, m: nat)
    requires Orders(cmp) && k < |s| && Around(cmp, s, k) && 0 < m < |s| && Parent(m) == k && cmp(s[m], s[k]) < 0
    requires forall j {:trigger Parent(j)} | 0 < j < |s| && Parent(j) == k :: Le(cmp, s[m], s[j])
    ensures var t := Swap(s, k, m);
            && Around(cmp, t, m) && InPlace(cmp, t, m)
            && (k > 0 ==> InPlace(cmp, t, k))
  {
    hide Orders, Le;
    var t := Swap(s, k, m);
    LeTotal(cmp, s[m], s[k]);
    forall j | 0 < j < |t| && j != m && Parent(j) != m ensures InPlace(cmp, t, j) {
      if j != k && Parent(j) != k {
        assert InPlace(cmp, s, j);
      }
    }
    forall j | 0 < j < |t| && Parent(j) == m ensures Le(cmp, t[Parent(m)], t[j]) {
      assert InPlace(cmp, s, j);
    }
    if k > 0 {
      assert Le(cmp, s[Parent(k)], s[m]);
    }
  }

  lemma OrderedIsUpTo<T(!new)>(cmp: Comparison<T>, s: seq<T>, k: nat)
    requires Orders(cmp) && HeapOrdered(cmp, s) && k < |s|
    ensures UpTo(cmp, s, k)
  {
    hide Orders, Le;
    if k > 0 {
      forall j | 0 < j < |s| && Parent(j) == k ensures Le(cmp, s[Parent(k)], s[j]) {
        assert InPlace(cmp, s, j) && InPlace(cmp, s, k);
        LeChain(cmp, s[Parent(k)], s[k], s[j]);
      }
    }
  }

  /** Dropping the last element keeps the order. */
  lemma OrderedPrefix<T>(cmp: Comparison<T>, s: seq<T>, n: nat)
    requires HeapOrdered(cmp, s) && n <= |s|
    ensures HeapOrdered(cmp, s[..n])
  {
    forall j | 0 < j < n ensures InPlace(cmp, s[..n], j) {
      assert InPlace(cmp, s, j);
    }
  }

  /** Putting any element at k disturbs the order only around k. */
  lemma Replaced<T(!new)>(cmp: Comparison<T>, s: seq<T>, k: nat, x: T)
    requires Orders(cmp) && HeapOrdered(cmp, s) && k < |s|
    ensures Around(cmp, s[k := x], k)
  {
    hide Orders, Le;
    var t := s[k := x];
    OrderedIsUpTo(cmp, s, k);
    forall j | 0 < j < |t| && j != k && Parent(j) != k ensures InPlace(cmp, t, j) {
      assert InPlace(cmp, s, j);
    }
    if k > 0 {
      forall j | 0 < j < |t| && Parent(j) == k ensures Le(cmp, t[Parent(k)], t[j]) {
        assert Bridged(cmp, s, k);
      }
    }
  }

  /** An element appended at the end is at most out of order with its parent. */
  lemma Appended<T>(cmp: Comparison<T>, s: seq<T>, x: T)
    requires HeapOrdered(cmp, s)
    ensures UpTo(cmp, s + [x], |s|)
  {
    var t := s + [x];
    forall j | 0 < j < |t| && j != |s| ensures InPlace(cmp, t, j) {
      assert InPlace(cmp, s, j);
    }
  }

  lemma DropLast<T>(s: seq<T>)
    requires s != []
    ensures multiset(s) == multiset(s[..|s| - 1]) + multiset{s[|s| - 1]}
  {
    assert s == s[..|s| - 1] + [s[|s| - 1]];
  }

  lemma ReplacedBag<T>(s: seq<T>, k: nat)
    requires k < |s| - 1
    ensures multiset(s) == multiset(s[..|s| - 1][k := s[|s| - 1]]) + multiset{s[k]}
  {
    DropLast(s);
    assert s[..|s| - 1][k] == s[k];
  }

  /** What is left when the element at k is overwritten by the last one and the size goes down by one. */
  function Without<T>(s: seq<T>, k: nat): seq<T>
    requires k < |s|
  {
    if k == |s| - 1 then s[..k] else s[..|s| - 1][k := s[|s| - 1]]
  }

  lemma WithoutBag<T>(s: seq<T>, k: nat)
    requires k < |s|
    ensures multiset(s) == multiset(Without(s, k)) + multiset{s[k]}
    ensures multiset(Without(s, k)) == multiset(s) - multiset{s[k]}
  {
    if k == |s| - 1 {
      DropLast(s);
    } else {
      ReplacedBag(s, k);
    }
  }

  lemma WithoutOrder<T(!new)>(cmp: Comparison<T>, s: seq<T>, k: nat)
    requires Orders(cmp) && HeapOrdered(cmp, s) && k < |s|
    ensures if k == |s| - 1 then HeapOrdered(cmp, Without(s, k)) else Around(cmp, Without(s, k), k)
  {
    hide Orders, HeapOrdered, Around;
    OrderedPrefix(cmp, s, |s| - 1);
    if k < |s| - 1 {
      Replaced(cmp, s[..|s| - 1], k, s[|s| - 1]);
    }
  }

  lemma Overwritten<T>(s: seq<T>, k: nat, t: seq<T>)
    requires k < |s| && |t| == |s| - 1 && forall j | 0 <= j < |t| :: t[j] == if j == k then s[|s| - 1] else s[j]
    ensures t == Without(s, k)
  {
  }

  // ---------- The heap ----------

  class Heap<T(!new, ==)> {
    var elements: array<T>
    var size: nat
    const cmp: Comparison<T>

    ghost predicate Shaped()
      reads this, elements
    {
      Orders(cmp) && 0 < elements.Length < TWO_64 && size <= elements.Length
    }

    ghost function Elements(): seq<T>
      reads this, elements
      requires size <= elements.Length
    {
      elements[..size]
    }

    ghost predicate Valid()
      reads this, elements
    {
      Shaped() && HeapOrdered(cmp, Elements())
    }

    /** The initial capacity is 16 unless the configuration asks for another one; fill is what the memory holds. */
    constructor (cmp: Comparison<T>, initialCapacity: nat, fill: T)
      requires Orders(cmp) && initialCapacity < TWO_64
      ensures Valid() && Elements() == [] && this.cmp == cmp && fresh(elements)
    {
      var capacity := if initialCapacity > 0 then initialCapacity else 16;
      elements := new T[capacity](i => fill);
      size := 0;
      this.cmp := cmp;
    }

    method SwapAt(i: nat, j: nat)
      requires Shaped() && i < size && j < size
      modifies elements
      ensures Shaped() && Elements() == Swap(old(Elements()), i, j)
      ensures multiset(Elements()) == multiset(old(Elements()))
    {
      SwapKeeps(Elements(), i, j);
      elements[i], elements[j] := elements[j], elements[i];
    }

    method HeapifyUp(index0: nat)
      requires Shaped() && index0 < size && UpTo(cmp, Elements(), index0)
      modifies elements
      ensures Valid() && multiset(Elements()) == multiset(old(Elements()))
      ensures HeapOrdered(cmp, old(Elements())) ==> Elements() == old(Elements())
    {
      hide Orders, UpTo, Le, HeapOrdered;
      var index: nat := index0;
      while index > 0
        invariant Shaped() && index < size && UpTo(cmp, Elements(), index)
        invariant multiset(Elements()) == multiset(old(Elements()))
        invariant HeapOrdered(cmp, old(Elements())) ==> Elements() == old(Elements())
      {
        var p := (index - 1) / 2;
        NotBelow(cmp, Elements(), index);
        if cmp(elements[index], elements[p]) >= 0 {
          break;
        }
        SiftUp(cmp, Elements(), index);
        SwapAt(index, p);
        index := p;
      }
      UpDone(cmp, Elements(), index);
    }

    /** If the element at index sinks, all is in order; if not, it may only be smaller than its parent. */
    method HeapifyDown(index0: nat)
      requires Shaped() && index0 < size && Around(cmp, Elements(), index0)
      modifies elements
      ensures Shaped() && multiset(Elements()) == multiset(old(Elements()))
      ensures UpTo(cmp, Elements(), index0)
      ensures Elements() == old(Elements()) || HeapOrdered(cmp, Elements())
      ensures index0 == 0 ==> HeapOrdered(cmp, Elements())
    {
      hide Orders, UpTo, Le, HeapOrdered, Around, InPlace;
      var index: nat := index0;
      while true
        invariant Shaped() && index < size && Around(cmp, Elements(), index)
        invariant multiset(Elements()) == multiset(old(Elements()))
        invariant index == index0 ==> Elements() == old(Elements())
        invariant index0 <= index && (index != index0 ==> InPlace(cmp, Elements(), index))
        decreases size - index
      {
        var smallest := index;
        var left := 2 * index + 1;
        var right := 2 * index + 2;
        if left < size && cmp(elements[left], elements[smallest]) < 0 {
          smallest := left;
        }
        if right < size && cmp(elements[right], elements[smallest]) < 0 {
          smallest := right;
        }
        LeastChild(cmp, Elements(), index, smallest);
        if smallest == index {
          break;
        }
        SiftDown(cmp, Elements(), index, smallest);
        SwapAt(index, smallest);
        index := smallest;
      }
      DownDone(cmp, Elements(), index);
      if index != index0 {
        OrderedIsUpTo(cmp, Elements(), index0);
      }
    }

    /** expand_heap; -1 if twice the capacity does not fit in 64 bits. */
    method Expand() returns (ret: int)
      requires Valid()
      modifies this
      ensures Valid() && Elements() == old(Elements()) && (elements == old(elements) || fresh(elements))
      ensures ret == if old(elements.Length) < TWO_64 / 2 then 0 else -1
      ensures ret == 0 ==> elements.Length == 2 * old(elements.Length)
    {
      var capacity := elements.Length;
      var newCapacity := capacity * 2 % TWO_64;
      if newCapacity < capacity {
        return -1;
      }
      var fill := elements[0];
      var bigger := new T[newCapacity](i => fill);
      forall i | 0 <= i < size {
        bigger[i] := elements[i];
      }
      assert bigger[..size] == elements[..size];
      elements := bigger;
      assert Elements() == old(Elements());
      ret := 0;
    }

    /** vox_mheap_push */
    method Push(elem: T) returns (ret: int)
      requires Valid()
      modifies this, elements
      ensures Valid() && (elements == old(elements) || fresh(elements))
      ensures ret == if old(size) < old(elements.Length) || old(elements.Length) < TWO_64 / 2 then 0 else -1
      ensures ret == 0 ==> multiset(Elements()) == multiset(old(Elements())) + multiset{elem}
      ensures ret != 0 ==> Elements() == old(Elements())
    {
      hide HeapOrdered, Orders, UpTo;
      if size >= elements.Length {
        ret := Expand();
        if ret != 0 {
          return -1;
        }
      }
      ghost var s := Elements();
      elements[size] := elem;
      size := size + 1;
      assert Elements() == s + [elem];
      Appended(cmp, s, elem);
      HeapifyUp(size - 1);
      ret := 0;
    }

    /** vox_mheap_pop: an element that no other is smaller than, or None (NULL) if there is none. */
    method Pop() returns (r: Option<T>)
      requires Valid()
      modifies this, elements
      ensures Valid() && elements == old(elements)
      ensures r == if old(size) == 0 then None else Some(old(elements[0]))
      ensures r == None ==> Elements() == old(Elements())
      ensures r.Some? ==> multiset(old(Elements())) == multiset(Elements()) + multiset{r.value}
      ensures r.Some? ==> forall j | 0 <= j < |old(Elements())| :: Le(cmp, r.value, old(Elements())[j])
    {
      hide HeapOrdered, Orders, Around, UpTo, Without, Le;
      if size == 0 {
        return None;
      }
      ghost var s := Elements();
      forall j | 0 <= j < |s| ensures Le(cmp, s[0], s[j]) {
        RootIsLeast(cmp, s, j);
      }
      WithoutOrder(cmp, s, 0);
      WithoutBag(s, 0);
      r := Some(elements[0]);
      MoveLast(0);
      if size > 0 {
        HeapifyDown(0);
      }
    }

    /** The search of vox_mheap_remove: the first position of elem, or size. */
    method IndexOf(elem: T) returns (index: nat)
      requires size <= elements.Length
      ensures index <= size && (index < size ==> elements[index] == elem)
      ensures index < size <==> elem in Elements()
    {
      index := 0;
      while index < size && elements[index] != elem
        invariant index <= size && elem !in elements[..index]
      {
        index := index + 1;
      }
    }

    /** The removal of vox_mheap_remove: the last element takes the place, sinks, and rises if it did not sink. */
    method TakeOut(index: nat)
      requires Valid() && index < size
      modifies this, elements
      ensures Valid() && elements == old(elements)
      ensures multiset(old(Elements())) == multiset(Elements()) + multiset{old(Elements()[index])}
    {
      hide HeapOrdered, Orders, Around, UpTo, Without;
      ghost var s := Elements();
      WithoutOrder(cmp, s, index);
      WithoutBag(s, index);
      if index == size - 1 {
        size := size - 1;
        Overwritten(s, index, Elements());
        return;
      }
      MoveLast(index);
      Settle(index);
    }

    /** The last element takes the place of the one at index. */
    method MoveLast(index: nat)
      requires Shaped() && index < size
      modifies `size, elements
      ensures Shaped() && size == old(size) - 1 && Elements() == Without(old(Elements()), index)
    {
      hide Orders;
      ghost var s := Elements();
      elements[index] := elements[size - 1];
      size := size - 1;
      Overwritten(s, index, Elements());
    }

    /** The element at index, which may be out of order both ways, sinks or rises to where it belongs. */
    method Settle(index: nat)
      requires Shaped() && index < size && Around(cmp, Elements(), index)
      modifies elements
      ensures Valid() && multiset(Elements()) == multiset(old(Elements()))
    {
      hide HeapOrdered, Orders, Around, UpTo;
      HeapifyDown(index);
      if index > 0 {
        HeapifyUp(index);
      }
    }

    /** vox_mheap_remove: takes out one occurrence of elem; -1 if there is none. */
    method Remove(elem: T) returns (ret: int)
      requires Valid()
      modifies this, elements
      ensures Valid() && elements == old(elements)
      ensures ret == if elem in old(Elements()) then 0 else -1
      ensures ret == 0 ==> multiset(old(Elements())) == multiset(Elements()) + multiset{elem}
      ensures ret != 0 ==> Elements() == old(Elements())
    {
      hide HeapOrdered, Orders;
      var index := IndexOf(elem);
      if index == size {
        return -1;
      }
      TakeOut(index);
      ret := 0;
    }

    /** As many pops as there are elements yield them in order. */
    method Drain() returns (r: seq<T>)
      requires Valid()
      modifies this, elements
      ensures Valid() && size == 0
      ensures multiset(r) == multiset(old(Elements()))
      ensures forall i, j | 0 <= i < j < |r| :: Le(cmp, r[i], r[j])
    {
      hide HeapOrdered, Orders, Le, Ascending, NoneBelow;
      ghost var s := Elements();
      r := [];
      NothingDrained(cmp, s);
      while size > 0
        invariant Valid() && elements == old(elements)
        invariant multiset(s) == multiset(r) + multiset(Elements())
        invariant Ascending(cmp, r) && NoneBelow(cmp, r, Elements())
        decreases size
      {
        ghost var before := Elements();
        var x := Pop();
        Drained(cmp, r, before, x.value, Elements());
        r := r + [x.value];
      }
      AscendingMeans(cmp, r);
    }
  }

  ghost predicate Ascending<T>(cmp: Comparison<T>, r: seq<T>) {
    forall i, j | 0 <= i < j < |r| :: Le(cmp, r[i], r[j])
  }

  ghost predicate NoneBelow<T>(cmp: Comparison<T>, r: seq<T>, s: seq<T>) {
    forall i, j | 0 <= i < |r| && 0 <= j < |s| :: Le(cmp, r[i], s[j])
  }

  lemma NothingDrained<T>(cmp: Comparison<T>, s: seq<T>)
    ensures Ascending(cmp, []) && NoneBelow(cmp, [], s)
  {
  }

  lemma AscendingMeans<T>(cmp: Comparison<T>, r: seq<T>)
    requires Ascending(cmp, r)
    ensures forall i, j | 0 <= i < j < |r| :: Le(cmp, r[i], r[j])
  {
  }

  /** One element x that is not above the others has left s, and s' is what is left. */
  lemma Drained<T>(cmp: Comparison<T>, r: seq<T>, s: seq<T>, x: T, s': seq<T>)
    requires Ascending(cmp, r) && NoneBelow(cmp, r, s) && s != [] && x == s[0] && multiset(s) == multiset(s') + multiset{x}
    requires forall j | 0 <= j < |s| :: Le(cmp, x, s[j])
    ensures Ascending(cmp, r + [x]) && NoneBelow(cmp, r + [x], s')
  {
    hide Le;
    forall j | 0 <= j < |s'| ensures s'[j] in s {
      assert s'[j] in multiset(s');
      assert s'[j] in multiset(s);
    }
  }

  lemma NotBelow<T(!new)>(cmp: Comparison<T>, s: seq<T>, k: nat)
    requires Orders(cmp) && 0 < k < |s|
    ensures HeapOrdered(cmp, s) ==> cmp(s[k], s[Parent(k)]) >= 0
    ensures cmp(s[k], s[Parent(k)]) >= 0 ==> InPlace(cmp, s, k)
  {
    LeTotal(cmp, s[k], s[Parent(k)]);
    LeTotal(cmp, s[Parent(k)], s[k]);
    if HeapOrdered(cmp, s) {
      assert InPlace(cmp, s, k);
    }
  }

  lemma UpDone<T>(cmp: Comparison<T>, s: seq<T>, k: nat)
    requires k < |s| && UpTo(cmp, s, k) && (k > 0 ==> InPlace(cmp, s, k))
    ensures HeapOrdered(cmp, s)
  {
  }

  /** What the two comparisons of a sifting step find. */
  lemma LeastChild<T(!new)>(cmp: Comparison<T>, s: seq<T>, k: nat, m: nat)
    requires Orders(cmp) && k < |s|
    requires var l, r := 2 * k + 1, 2 * k + 2;
             var m1 := if l < |s| && cmp(s[l], s[k]) < 0 then l else k;
             m == if r < |s| && cmp(s[r], s[m1]) < 0 then r else m1
    ensures m < |s| && (m != k ==> m > k && Parent(m) == k && cmp(s[m], s[k]) < 0)
    ensures forall j {:trigger Parent(j)} | 0 < j < |s| && Parent(j) == k :: Le(cmp, s[m], s[j])
  {
    var l, r := 2 * k + 1, 2 * k + 2;
    if l < |s| {
      LeTotal(cmp, s[l], s[k]);
      LeTotal(cmp, s[k], s[l]);
    }
    if r < |s| {
      LeTotal(cmp, s[r], s[k]);
      LeTotal(cmp, s[r], s[l]);
      LeTotal(cmp, s[l], s[r]);
      if cmp(s[r], s[l]) < 0 && cmp(s[l], s[k]) < 0 {
        Below(cmp, s[r], s[l], s[k]);
      }
      if cmp(s[l], s[k]) >= 0 && cmp(s[r], s[k]) < 0 {
        LeChain(cmp, s[r], s[k], s[l]);
      }
    }
    LeTotal(cmp, s[m], s[m]);
    forall j | 0 < j < |s| && Parent(j) == k ensures Le(cmp, s[m], s[j]) {
      assert j == l || j == r;
    }
  }

  lemma Below<T(!new)>(cmp: Comparison<T>, a: T, b: T, c: T)
    requires Orders(cmp) && cmp(a, b) < 0 && cmp(b, c) < 0
    ensures cmp(a, c) < 0
  {
    assert cmp(b, c) < 0 <==> cmp(c, b) > 0;
    LeTotal(cmp, a, b);
    LeTotal(cmp, a, c);
    if Le(cmp, c, a) {
      LeChain(cmp, c, a, b);
    }
  }

  lemma DownDone<T>(cmp: Comparison<T>, s: seq<T>, k: nat)
    requires k < |s| && Around(cmp, s, k)
    requires forall j {:trigger Parent(j)} | 0 < j < |s| && Parent(j) == k :: Le(cmp, s[k], s[j])
    ensures UpTo(cmp, s, k)
    ensures k == 0 || InPlace(cmp, s, k) ==> HeapOrdered(cmp, s)
  {
    forall j | 0 < j < |s| && j != k ensures InPlace(cmp, s, j) {
      if Parent(j) == k {
        assert Le(cmp, s[k], s[j]);
      }
    }
  }
}
