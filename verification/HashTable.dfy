/** The open-addressing hash table of vox_htable.c: linear probing, tombstones and doubling, for any hash function. */
module HashTable {
  import opened Prelude
  import opened Bits

  type Key = seq<bv8>

  datatype Entry<+V> = Empty | Deleted | Occupied(key: Key, value: V)

  // ---------- Probing ----------

  /** The j-th slot of the probe sequence that starts at home. */
  function Probe(home: nat, j: nat, cap: nat): nat
    requires home < cap && j < cap
  {
    if home + j < cap then home + j else home + j - cap
  }

  /** How many steps the probe sequence from home takes to slot i. */
  function Distance(home: nat, i: nat, cap: nat): (d: nat)
    requires home < cap && i < cap
    ensures d < cap && Probe(home, d, cap) == i
    ensures forall j | 0 <= j < cap && Probe(home, j, cap) == i :: j == d
  {
    if i >= home then i - home else i - home + cap
  }

  /** `hash & (capacity - 1)` */
  function Home(hash: Key -> nat, k: Key, cap: nat): nat
    requires cap > 0
  {
    And(hash(k), cap - 1)
  }

  lemma HomeInRange(hash: Key -> nat, k: Key, cap: nat)
    requires IsPow2(cap)
    ensures cap > 0 && Home(hash, k, cap) < cap
  {
    HomeIs(hash, k, cap);
  }

  lemma HomeIs(hash: Key -> nat, k: Key, cap: nat)
    requires IsPow2(cap)
    ensures cap > 0 && Home(hash, k, cap) == hash(k) % cap
  {
    var e: nat :| cap == Pow2(e);
    AndMask(hash(k), e);
  }

  /** `(index + 1) & (capacity - 1)` is the next slot, wrapping at the end. */
  lemma NextIndex(i: nat, cap: nat)
    requires IsPow2(cap) && i < cap
    ensures And(i + 1, cap - 1) == if i + 1 == cap then 0 else i + 1
  {
    var e: nat :| cap == Pow2(e);
    AndMask(i + 1, e);
    if i + 1 < cap {
      ModUnique(i + 1, cap, 0, i + 1);
    } else {
      ModUnique(i + 1, cap, 1, 0);
    }
  }

  // ---------- The abstract state of an entry array ----------

  ghost predicate UniqueKeys<V>(es: seq<Entry<V>>) {
    forall i, j | 0 <= i < j < |es| && es[i].Occupied? && es[j].Occupied? :: es[i].key != es[j].key
  }

  /** Slot i can be reached from home over slots that are not empty. */
  ghost predicate OpenPath<V>(es: seq<Entry<V>>, home: nat, i: nat)
    requires home < |es| && i < |es|
  {
    forall j | 0 <= j < Distance(home, i, |es|) :: !es[Probe(home, j, |es|)].Empty?
  }

  /** No empty slot lies on the probe path of a stored key. */
  ghost predicate PathsOpen<V>(es: seq<Entry<V>>, hash: Key -> nat)
    requires IsPow2(|es|)
  {
    forall i | 0 <= i < |es| && es[i].Occupied? :: PathOpenAt(es, hash, i)
  }

  ghost predicate PathOpenAt<V>(es: seq<Entry<V>>, hash: Key -> nat, i: nat)
    requires IsPow2(|es|) && i < |es| && es[i].Occupied?
  {
    HomeInRange(hash, es[i].key, |es|);
    OpenPath(es, Home(hash, es[i].key, |es|), i)
  }

  ghost predicate TableOk<V>(es: seq<Entry<V>>, hash: Key -> nat) {
    IsPow2(|es|) && UniqueKeys(es) && PathsOpen(es, hash)
  }

  ghost predicate Stored<V>(es: seq<Entry<V>>, k: Key) {
    exists i :: 0 <= i < |es| && es[i].Occupied? && es[i].key == k
  }

  /** The finite map that the occupied slots spell out. */
  ghost function Contents<V>(es: seq<Entry<V>>): (m: map<Key, V>)
    ensures forall k :: k in m <==> Stored(es, k)
  {
    if es == [] then map[]
    else
      var n := |es| - 1;
      var m := Contents(es[..n]);
      assert forall i | 0 <= i < n :: es[..n][i] == es[i];
      if es[n].Occupied? then
        assert forall k :: Stored(es, k) <==> Stored(es[..n], k) || k == es[n].key;
        m[es[n].key := es[n].value]
      else
        assert forall k :: Stored(es, k) <==> Stored(es[..n], k);
        m
  }

  lemma UniquePrefix<V>(es: seq<Entry<V>>, n: nat)
    requires UniqueKeys(es) && n < |es|
    ensures UniqueKeys(es[..n])
    ensures forall i | 0 <= i < n && es[i].Occupied? && es[n].Occupied? :: es[i].key != es[n].key
  {
  }

  lemma {:induction false} ContentsValue<V>(es: seq<Entry<V>>, i: nat)
    requires UniqueKeys(es) && i < |es| && es[i].Occupied?
    ensures es[i].key in Contents(es) && Contents(es)[es[i].key] == es[i].value
    decreases |es|
  {
    hide UniqueKeys, Stored;
    var n := |es| - 1;
    UniquePrefix(es, n);
    if i < n {
      assert es[..n][i] == es[i];
      ContentsValue(es[..n], i);
    }
  }

  function CountOccupied<V>(es: seq<Entry<V>>): nat {
    if es == [] then 0 else CountOccupied(es[..|es| - 1]) + if es[|es| - 1].Occupied? then 1 else 0
  }

  function CountDeleted<V>(es: seq<Entry<V>>): nat {
    if es == [] then 0 else CountDeleted(es[..|es| - 1]) + if es[|es| - 1].Deleted? then 1 else 0
  }

  ghost predicate HasEmpty<V>(es: seq<Entry<V>>) {
    exists i :: 0 <= i < |es| && es[i].Empty?
  }

  lemma {:induction false} CountUpdate<V>(es: seq<Entry<V>>, i: nat, x: Entry<V>)
    requires i < |es|
    ensures CountOccupied(es[i := x]) ==
            CountOccupied(es) - (if es[i].Occupied? then 1 else 0) + (if x.Occupied? then 1 else 0)
    ensures CountDeleted(es[i := x]) ==
            CountDeleted(es) - (if es[i].Deleted? then 1 else 0) + (if x.Deleted? then 1 else 0)
  {
    var n := |es| - 1;
    if i == n {
      assert es[i := x][..n] == es[..n];
    } else {
      assert es[i := x][..n] == es[..n][i := x];
      CountUpdate(es[..n], i, x);
    }
  }

  /** Fewer used slots than slots leaves an empty one. */
  lemma {:induction false} RoomLeft<V>(es: seq<Entry<V>>)
    ensures CountOccupied(es) + CountDeleted(es) <= |es|
    ensures CountOccupied(es) + CountDeleted(es) < |es| <==> HasEmpty(es)
  {
    if es != [] {
      var n := |es| - 1;
      RoomLeft(es[..n]);
      assert forall i | 0 <= i < n :: es[..n][i] == es[i];
      if HasEmpty(es[..n]) {
        var i :| 0 <= i < n && es[..n][i].Empty?;
        assert es[i].Empty?;
      }
    }
  }

  lemma ContentsSnoc<V>(es: seq<Entry<V>>, x: Entry<V>)
    requires UniqueKeys(es + [x])
    ensures UniqueKeys(es)
    ensures x.Occupied? ==> x.key !in Contents(es) && Contents(es + [x]) == Contents(es)[x.key := x.value]
    ensures !x.Occupied? ==> Contents(es + [x]) == Contents(es)
  {
    var es' := es + [x];
    assert es'[..|es|] == es && es'[|es|] == x;
    forall i, j | 0 <= i < j < |es| && es[i].Occupied? && es[j].Occupied? ensures es[i].key != es[j].key {
      assert es'[i] == es[i] && es'[j] == es[j];
    }
    forall i | 0 <= i < |es| && es[i].Occupied? && x.Occupied? ensures es[i].key != x.key {
      assert es'[i] == es[i];
    }
  }

  /** The counter of occupied slots is the size of the map. */
  lemma {:induction false} CountIsSize<V>(es: seq<Entry<V>>)
    requires UniqueKeys(es)
    ensures CountOccupied(es) == |Contents(es)|
  {
    if es == [] {
      assert Contents(es) == map[];
    } else {
      var n := |es| - 1;
      assert es == es[..n] + [es[n]];
      ContentsSnoc(es[..n], es[n]);
      CountIsSize(es[..n]);
    }
  }

  // ---------- Updates ----------

  /** A new key in a slot that its probe path reaches. */
  lemma InsertOk<V>(es: seq<Entry<V>>, hash: Key -> nat, k: Key, v: V, i: nat)
    requires TableOk(es, hash) && !Stored(es, k) && i < |es| && !es[i].Occupied?
    requires (HomeInRange(hash, k, |es|); OpenPath(es, Home(hash, k, |es|), i))
    ensures TableOk(es[i := Occupied(k, v)], hash)
    ensures Contents(es[i := Occupied(k, v)]) == Contents(es)[k := v]
  {
    var es' := es[i := Occupied(k, v)];
    forall a | 0 <= a < |es'| && es'[a].Occupied? ensures PathOpenAt(es', hash, a) {
      if a != i { assert PathOpenAt(es, hash, a); }
    }
    ContentsUpdate(es, i, k, v);
  }

  lemma ContentsUpdate<V>(es: seq<Entry<V>>, i: nat, k: Key, v: V)
    requires UniqueKeys(es) && i < |es| && UniqueKeys(es[i := Occupied(k, v)])
    requires es[i].Occupied? ==> es[i].key == k
    ensures Contents(es[i := Occupied(k, v)]) == Contents(es)[k := v]
  {
    hide Contents;
    var es' := es[i := Occupied(k, v)];
    var m, m' := Contents(es), Contents(es');
    ContentsValue(es', i);
    assert es'[i] == Occupied(k, v);
    forall x | x != k ensures x in m <==> x in m'
                      ensures x in m ==> m'[x] == m[x] {
      SameSlots(es, es', i, x);
    }
    assert m'.Keys == m.Keys + {k};
  }

  /** A key that the changed slot neither held nor holds is stored as before. */
  lemma SameSlots<V>(es: seq<Entry<V>>, es': seq<Entry<V>>, i: nat, x: Key)
    requires UniqueKeys(es) && UniqueKeys(es') && i < |es| == |es'| && es' == es[i := es'[i]]
    requires es[i].Occupied? ==> es[i].key != x
    requires es'[i].Occupied? ==> es'[i].key != x
    ensures x in Contents(es) <==> x in Contents(es')
    ensures x in Contents(es) ==> Contents(es)[x] == Contents(es')[x]
  {
    if x in Contents(es) {
      var a: nat :| a < |es| && es[a].Occupied? && es[a].key == x;
      assert es'[a] == es[a];
      ContentsValue(es, a);
      ContentsValue(es', a);
    }
    if x in Contents(es') {
      var a: nat :| a < |es'| && es'[a].Occupied? && es'[a].key == x;
      assert es'[a] == es[a];
      ContentsValue(es, a);
    }
  }

  /** Overwriting the value of a stored key. */
  lemma UpdateOk<V>(es: seq<Entry<V>>, hash: Key -> nat, k: Key, v: V, i: nat)
    requires TableOk(es, hash) && i < |es| && es[i].Occupied? && es[i].key == k
    ensures TableOk(es[i := Occupied(k, v)], hash)
    ensures Contents(es[i := Occupied(k, v)]) == Contents(es)[k := v]
  {
    var es' := es[i := Occupied(k, v)];
    forall a | 0 <= a < |es'| && es'[a].Occupied? ensures PathOpenAt(es', hash, a) {
      assert PathOpenAt(es, hash, a);
    }
    ContentsUpdate(es, i, k, v);
  }

  /** A tombstone in place of a stored key keeps every other path open. */
  lemma DeleteOk<V>(es: seq<Entry<V>>, hash: Key -> nat, i: nat)
    requires TableOk(es, hash) && i < |es| && es[i].Occupied?
    ensures TableOk(es[i := Deleted], hash)
    ensures Contents(es[i := Deleted]) == Contents(es) - {es[i].key}
  {
    var es' := es[i := Deleted];
    forall a | 0 <= a < |es'| && es'[a].Occupied? ensures PathOpenAt(es', hash, a) {
      assert PathOpenAt(es, hash, a);
    }
    DeleteContents(es, i);
  }

  lemma DeleteContents<V>(es: seq<Entry<V>>, i: nat)
    requires UniqueKeys(es) && i < |es| && es[i].Occupied?
    ensures Contents(es[i := Deleted]) == Contents(es) - {es[i].key}
  {
    var es' := es[i := Deleted];
    var m, m' := Contents(es), Contents(es');
    var k := es[i].key;
    forall x | x != k ensures x in m <==> x in m'
                      ensures x in m ==> m'[x] == m[x] {
      SameSlots(es, es', i, x);
    }
    forall a | 0 <= a < |es'| && es'[a].Occupied? ensures es'[a].key != k {
      assert es[a] == es'[a];
    }
    assert m'.Keys == m.Keys - {k};
  }

  // ---------- The probe loop ----------

  /** The probe from home has passed d slots, none of them empty and none holding k. */
  ghost predicate Passed<V>(es: seq<Entry<V>>, home: nat, k: Key, d: nat)
    requires home < |es| && d <= |es|
  {
    forall j | 0 <= j < d :: var e := es[Probe(home, j, |es|)]; !e.Empty? && (e.Occupied? ==> e.key != k)
  }

  /** Slot i is the first slot on the way from home that is free. */
  ghost predicate FirstFree<V>(es: seq<Entry<V>>, home: nat, i: nat)
    requires home < |es| && i < |es|
  {
    !es[i].Occupied? && forall j | 0 <= j < Distance(home, i, |es|) :: es[Probe(home, j, |es|)].Occupied?
  }

  /** Slot i is the first free one of the d slots that the probe has passed, if any of them is free. */
  ghost predicate FreeSoFar<V>(es: seq<Entry<V>>, home: nat, i: Option<nat>, d: nat)
    requires home < |es| && d <= |es|
  {
    if i.None? then forall j | 0 <= j < d :: es[Probe(home, j, |es|)].Occupied?
    else i.value < |es| && FirstFree(es, home, i.value)
  }

  lemma FreeStep<V>(es: seq<Entry<V>>, home: nat, i: Option<nat>, d: nat)
    requires home < |es| && d < |es| && FreeSoFar(es, home, i, d)
    ensures var slot := Probe(home, d, |es|);
            FreeSoFar(es, home, if i == None && !es[slot].Occupied? then Some(slot) else i, d + 1)
  {
    assert Distance(home, Probe(home, d, |es|), |es|) == d;
  }

  lemma NothingPassed<V>(es: seq<Entry<V>>, home: nat)
    requires home < |es|
    ensures FreeSoFar(es, home, None, 0)
  {
  }

  lemma FreeAtLast<V>(es: seq<Entry<V>>, home: nat, i: Option<nat>, d: nat)
    requires home < |es| && d <= |es| && FreeSoFar(es, home, i, d) && i.Some?
    ensures i.value < |es| && FirstFree(es, home, i.value)
  {
  }

  /** An empty slot, or a full circle, ends the search: k is not stored. */
  lemma NotStored<V>(es: seq<Entry<V>>, hash: Key -> nat, k: Key, d: nat)
    requires TableOk(es, hash) && d <= |es|
    requires (HomeInRange(hash, k, |es|); Passed(es, Home(hash, k, |es|), k, d))
    requires (HomeInRange(hash, k, |es|); d == |es| || es[Probe(Home(hash, k, |es|), d, |es|)].Empty?)
    ensures !Stored(es, k)
  {
    HomeInRange(hash, k, |es|);
    var home := Home(hash, k, |es|);
    forall i | 0 <= i < |es| && es[i].Occupied? ensures es[i].key != k {
      assert PathOpenAt(es, hash, i);
    }
  }

  lemma PassedIsOpen<V>(es: seq<Entry<V>>, home: nat, k: Key, d: nat)
    requires home < |es| && d < |es| && Passed(es, home, k, d)
    ensures OpenPath(es, home, Probe(home, d, |es|))
  {
  }

  /** A probe that came full circle has seen every slot. */
  lemma FullCircle<V>(es: seq<Entry<V>>, home: nat, k: Key)
    requires home < |es| && Passed(es, home, k, |es|)
    ensures !HasEmpty(es)
  {
    forall i | 0 <= i < |es| ensures !es[i].Empty? {
      assert es[Probe(home, Distance(home, i, |es|), |es|)] == es[i];
    }
  }

  class Table<V(0)> {
    const hash: Key -> nat
    const threshold: real
    var entries: array<Entry<V>>
    var size: nat
    var deletedCount: nat

    ghost predicate Valid()
      reads this, entries
    {
      && TableOk(entries[..], hash)
      && size == CountOccupied(entries[..]) && deletedCount == CountDeleted(entries[..])
      && 0.0 < threshold <= 1.0
    }

    /** The finite map that the table stands for. */
    ghost function Map(): map<Key, V>
      reads this, entries
      requires Valid()
    {
      Contents(entries[..])
    }

    /** find_entry: the slot of the key; otherwise where it would go. */
    method FindEntry(k: Key, forInsert: bool) returns (r: Option<nat>)
      requires TableOk(entries[..], hash)
      ensures r.Some? ==> r.value < entries.Length
      ensures r.Some? && entries[r.value].Occupied? ==> entries[r.value].key == k
      ensures r.Some? && !entries[r.value].Occupied? ==>
                !Stored(entries[..], k) &&
                (HomeInRange(hash, k, entries.Length); OpenPath(entries[..], Home(hash, k, entries.Length), r.value))
      ensures r.Some? && !entries[r.value].Occupied? ==>
                if forInsert then (HomeInRange(hash, k, entries.Length); FirstFree(entries[..], Home(hash, k, entries.Length), r.value))
                else entries[r.value].Empty?
      ensures r == None ==> !Stored(entries[..], k) && !HasEmpty(entries[..])
    {
      hide UniqueKeys, PathsOpen, HasEmpty, Stored, OpenPath, IsPow2, FirstFree, FreeSoFar;
      HomeInRange(hash, k, entries.Length);
      NothingPassed(entries[..], Home(hash, k, entries.Length));
      var cap := entries.Length;
      var start := And(hash(k), cap - 1);
      var index := start;
      var firstDeleted: Option<nat> := None;
      ghost var d := 0;
      while true
        invariant 0 <= d < cap && index == Probe(start, d, cap)
        invariant Passed(entries[..], start, k, d)
        invariant FreeSoFar(entries[..], start, firstDeleted, d)
        invariant firstDeleted.Some? ==> firstDeleted.value < cap && entries[firstDeleted.value].Deleted?
                                         && OpenPath(entries[..], start, firstDeleted.value)
        decreases cap - d
      {
        FreeStep(entries[..], start, firstDeleted, d);
        var entry := entries[index];
        match entry {
          case Empty =>
            NotStored(entries[..], hash, k, d);
            PassedIsOpen(entries[..], start, k, d);
            FreeAtLast(entries[..], start, if firstDeleted.Some? then firstDeleted else Some(index), d + 1);
            if forInsert && firstDeleted.Some? { return firstDeleted; }
            return Some(index);
          case Deleted =>
            if firstDeleted == None {
              PassedIsOpen(entries[..], start, k, d);
              firstDeleted := Some(index);
            }
          case Occupied(key, _) =>
            if key == k { return Some(index); }
        }
        NextIndex(index, cap);
        index := And(index + 1, cap - 1);
        d := d + 1;
        if index == start {
          NotStored(entries[..], hash, k, d);
          break;
        }
      }
      FullCircle(entries[..], start, k);
      r := None;
    }

    /** vox_htable_create_with_config: 0 and out-of-range load factors select the defaults. */
    constructor (hash: Key -> nat, initialCapacity: nat, loadFactor: real)
      requires initialCapacity <= TWO_64 / 2
      ensures Valid() && fresh(entries) && Map() == map[] && this.hash == hash
      ensures entries.Length == if initialCapacity == 0 then 16 else NextPowerOfTwo(initialCapacity)
      ensures threshold == if 0.0 < loadFactor <= 1.0 then loadFactor else 0.75
    {
      var capacity := 16;
      if initialCapacity > 0 { capacity := NextPowerOfTwo(initialCapacity); }
      NextPowerOfTwoIsLeast(initialCapacity);
      assert Pow2(4) == 16;
      this.hash := hash;
      threshold := if 0.0 < loadFactor <= 1.0 then loadFactor else 0.75;
      entries := new Entry<V>[capacity](_ => Empty);
      size, deletedCount := 0, 0;
      new;
      AllEmpty(entries[..]);
    }

    /** needs_resize: the used share of the slots has reached the threshold. */
    predicate NeedsResize()
      reads this, entries
    {
      entries.Length > 0 && (size + deletedCount) as real / entries.Length as real >= threshold
    }

    /** The loop body of the resize: an entry goes to the slot that find_entry gives, without a size check. */
    method Reinsert(k: Key, v: V)
      requires Valid() && deletedCount == 0 && size < entries.Length && k !in Map()
      modifies this`size, entries
      ensures Valid() && Map() == old(Map())[k := v] && size == old(size) + 1
    {
      ghost var before := entries[..];
      RoomLeft(before);
      var r := FindEntry(k, true);
      entries[r.value] := Occupied(k, v);
      assert entries[..] == before[r.value := Occupied(k, v)];
      InsertOk(before, hash, k, v, r.value);
      CountUpdate(before, r.value, Occupied(k, v));
      NoDeleted(before, r.value);
      size := size + 1;
    }

    /** vox_htable_resize: every stored entry is inserted into an array of the new capacity. */
    method Resize(newCapacity: nat)
      requires Valid() && newCapacity == 2 * entries.Length
      modifies this
      ensures Valid() && fresh(entries) && entries.Length == newCapacity && deletedCount == 0
      ensures Map() == old(Map()) && size == old(size) && size + deletedCount < entries.Length
    {
      RoomLeft(entries[..]);
      DoublePow2(entries.Length);
      hide HasEmpty, PathsOpen, Contents, CountOccupied, CountDeleted, UniqueKeys, IsPow2;
      var oldEntries := entries;
      ghost var olds := entries[..];
      entries := new Entry<V>[newCapacity](_ => Empty);
      size, deletedCount := 0, 0;
      FreshTable(entries[..], hash);
      EmptyPrefix(olds);
      for i := 0 to oldEntries.Length
        invariant oldEntries[..] == olds && fresh(entries) && entries.Length == newCapacity
        invariant Valid() && deletedCount == 0
        invariant Map() == Contents(olds[..i]) && size == CountOccupied(olds[..i])
      {
        OneMore(olds, i);
        if oldEntries[i].Occupied? {
          Reinsert(oldEntries[i].key, oldEntries[i].value);
        }
      }
      assert olds[..|olds|] == olds;
    }

    /** vox_htable_set: refuses an empty key; otherwise maps the key to the value. */
    method Set(k: Key, v: V) returns (ok: bool)
      requires Valid()
      modifies this, entries
      ensures Valid() && (entries == old(entries) || fresh(entries))
      ensures ok <==> k != []
      ensures Map() == if ok then old(Map())[k := v] else old(Map())
      ensures var full := (old(size) + old(deletedCount)) as real / old(entries.Length) as real >= threshold;
              if ok && full then fresh(entries) && entries.Length == 2 * old(entries.Length) else entries == old(entries)
      ensures !ok ==> unchanged(this, entries)
    {
      if k == [] { return false; }
      if NeedsResize() {
        Resize(entries.Length * 2);
      }
      ghost var before := entries[..];
      SlotAvailable();
      var r := FindEntry(k, true);
      var i := r.value;
      CountUpdate(before, i, Occupied(k, v));
      if entries[i].Occupied? {
        entries[i] := Occupied(k, v);
        assert entries[..] == before[i := Occupied(k, v)];
        UpdateOk(before, hash, k, v, i);
        return true;
      }
      if entries[i].Deleted? {
        NoDeleted(before, i);
        deletedCount := deletedCount - 1;
      }
      entries[i] := Occupied(k, v);
      assert entries[..] == before[i := Occupied(k, v)];
      InsertOk(before, hash, k, v, i);
      size := size + 1;
      ok := true;
    }

    /** Before every insertion, resized or not, some slot is empty, for any load factor in (0, 1]. */
    lemma SlotAvailable()
      requires Valid() && (!NeedsResize() || size + deletedCount < entries.Length)
      ensures HasEmpty(entries[..])
    {
      RoomLeft(entries[..]);
      if !NeedsResize() { BelowThreshold(size + deletedCount, entries.Length, threshold); }
    }

    /** vox_htable_get. */
    method Get(k: Key) returns (v: Option<V>)
      requires Valid()
      ensures v == if k != [] && k in Map() then Some(Map()[k]) else None
    {
      if k == [] { return None; }
      var r := FindEntry(k, false);
      if r.Some? && entries[r.value].Occupied? {
        ContentsValue(entries[..], r.value);
        return Some(entries[r.value].value);
      }
      v := None;
    }

    /** vox_htable_delete: fails when the key is not stored. */
    method Delete(k: Key) returns (ok: bool)
      requires Valid()
      modifies this, entries
      ensures Valid() && entries == old(entries)
      ensures ok <==> k != [] && k in old(Map())
      ensures Map() == if ok then old(Map()) - {k} else old(Map())
    {
      if k == [] { return false; }
      var r := FindEntry(k, false);
      if r == None || !entries[r.value].Occupied? { return false; }
      ghost var before := entries[..];
      CountUpdate(before, r.value, Deleted);
      NoDeleted(before, r.value);
      entries[r.value] := Deleted;
      assert entries[..] == before[r.value := Deleted];
      DeleteOk(before, hash, r.value);
      size := size - 1;
      deletedCount := deletedCount + 1;
      ok := true;
    }

    /** vox_htable_clear. */
    method Clear()
      requires Valid()
      modifies this, entries
      ensures Valid() && entries == old(entries) && Map() == map[]
    {
      for i := 0 to entries.Length
        invariant entries == old(entries)
        invariant forall j | 0 <= j < i :: entries[j] == Empty
      {
        if !entries[i].Empty? { entries[i] := Empty; }
      }
      size, deletedCount := 0, 0;
      AllEmpty(entries[..]);
    }
  }

  lemma {:induction false} AllEmpty<V>(es: seq<Entry<V>>)
    requires forall i | 0 <= i < |es| :: es[i] == Empty
    ensures CountOccupied(es) == CountDeleted(es) == 0
    ensures UniqueKeys(es) && Contents(es) == map[]
    decreases |es|
  {
    if es != [] { AllEmpty(es[..|es| - 1]); }
  }

  lemma FreshTable<V>(es: seq<Entry<V>>, hash: Key -> nat)
    requires IsPow2(|es|) && forall i | 0 <= i < |es| :: es[i] == Empty
    ensures TableOk(es, hash) && Contents(es) == map[] && CountOccupied(es) == CountDeleted(es) == 0
  {
    AllEmpty(es);
  }

  lemma EmptyPrefix<V>(es: seq<Entry<V>>)
    ensures Contents(es[..0]) == map[] && CountOccupied(es[..0]) == 0
  {
  }

  /** What one more entry adds to the contents of a prefix. */
  lemma OneMore<V>(es: seq<Entry<V>>, i: nat)
    requires UniqueKeys(es) && i < |es|
    ensures var c, c' := Contents(es[..i]), Contents(es[..i + 1]);
            if es[i].Occupied? then es[i].key !in c && c' == c[es[i].key := es[i].value] else c' == c
    ensures CountOccupied(es[..i + 1]) == CountOccupied(es[..i]) + (if es[i].Occupied? then 1 else 0)
    ensures es[i].Occupied? ==> CountOccupied(es[..i]) < |es|
  {
    assert es[..i + 1] == es[..i] + [es[i]];
    assert es[..i + 1][..i] == es[..i];
    assert UniqueKeys(es[..i + 1]);
    ContentsSnoc(es[..i], es[i]);
    CountMono(es, i);
    RoomLeft(es);
  }

  lemma DoublePow2(n: nat)
    requires IsPow2(n)
    ensures IsPow2(2 * n)
  {
    var e: nat :| n == Pow2(e);
    assert 2 * n == Pow2(e + 1);
  }

  /** A prefix holds no more occupied slots than the whole, and fewer if the next slot is occupied. */
  lemma {:induction false} CountMono<V>(es: seq<Entry<V>>, i: nat)
    requires i < |es|
    ensures CountOccupied(es[..i]) + (if es[i].Occupied? then 1 else 0) <= CountOccupied(es)
    decreases |es|
  {
    var n := |es| - 1;
    if i < n {
      CountMono(es[..n], i);
      assert es[..n][..i] == es[..i];
    }
  }

  /** The counter of a kind is positive where one is seen. */
  lemma {:induction false} NoDeleted<V>(es: seq<Entry<V>>, i: nat)
    requires i < |es|
    ensures es[i].Deleted? ==> CountDeleted(es) > 0
    ensures es[i].Occupied? ==> CountOccupied(es) > 0
    decreases |es|
  {
    var n := |es| - 1;
    if i < n { NoDeleted(es[..n], i); }
  }

  lemma BelowThreshold(used: nat, cap: nat, threshold: real)
    requires cap > 0 && used as real / cap as real < threshold <= 1.0
    ensures used < cap
  {
    var u, c := used as real, cap as real;
    assert u / c * c == u;
    assert u / c * c < 1.0 * c;
  }
}
