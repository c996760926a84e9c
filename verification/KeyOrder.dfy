/** The order of keys in vox_rbtree.c and what an ordered sequence of entries means as a map. */
module KeyOrder {
  import opened Prelude

  type Key = seq<bv8>

  type Entry<V> = (Key, V)

  type Comparison = (Key, Key) -> int

  /** What a key_cmp callback promises on keys of one length, as memcmp does: a total order, up to keys that it takes for equal. */
  ghost predicate Orders(cmp: Comparison) {
    && (forall a, b | |a| == |b| :: cmp(a, b) < 0 <==> cmp(b, a) > 0)
    && (forall a, b, c | |a| == |b| == |c| && cmp(a, b) <= 0 && cmp(b, c) <= 0 :: cmp(a, c) <= 0)
  }

  /** Shorter keys come first; key_cmp decides among keys of one length. */
  function Compare(cmp: Comparison, a: Key, b: Key): int {
    if |a| < |b| then -1 else if |a| > |b| then 1 else cmp(a, b)
  }

  lemma CompareFlip(cmp: Comparison, a: Key, b: Key)
    requires Orders(cmp)
    ensures Compare(cmp, a, b) < 0 <==> Compare(cmp, b, a) > 0
    ensures Compare(cmp, a, b) == 0 <==> Compare(cmp, b, a) == 0
  {
    if |a| == |b| {
      assert cmp(a, b) < 0 <==> cmp(b, a) > 0;
      assert cmp(b, a) < 0 <==> cmp(a, b) > 0;
    }
  }

  lemma CompareChain(cmp: Comparison, a: Key, b: Key, c: Key)
    requires Orders(cmp) && Compare(cmp, a, b) <= 0 && Compare(cmp, b, c) <= 0
    ensures Compare(cmp, a, c) <= 0
    ensures Compare(cmp, a, c) == 0 ==> Compare(cmp, a, b) == 0 && Compare(cmp, b, c) == 0
  {
    if |a| == |b| == |c| {
      if cmp(a, c) == 0 {
        assert cmp(c, a) <= 0 by { assert cmp(a, c) >= 0; assert cmp(a, c) < 0 <==> cmp(c, a) > 0; }
        assert cmp(c, b) <= 0 && cmp(b, a) <= 0;
        assert cmp(a, b) < 0 <==> cmp(b, a) > 0;
        assert cmp(b, c) < 0 <==> cmp(c, b) > 0;
      }
    }
  }

  ghost predicate Sorted<V>(cmp: Comparison, s: seq<Entry<V>>) {
    forall i, j | 0 <= i < j < |s| :: Compare(cmp, s[i].0, s[j].0) < 0
  }

  ghost predicate Lower<V>(cmp: Comparison, s: seq<Entry<V>>, key: Key) {
    forall i | 0 <= i < |s| :: Compare(cmp, s[i].0, key) < 0
  }

  ghost predicate Upper<V>(cmp: Comparison, s: seq<Entry<V>>, key: Key) {
    forall i | 0 <= i < |s| :: Compare(cmp, key, s[i].0) < 0
  }

  // ---------- The map an ordered sequence stands for ----------

  function Lookup<V>(cmp: Comparison, s: seq<Entry<V>>, key: Key): Option<V> {
    if s == [] then None
    else if Compare(cmp, s[0].0, key) == 0 then Some(s[0].1)
    else Lookup(cmp, s[1..], key)
  }

  /** Ordered insertion; an entry of an equal key keeps its key and takes the new value. */
  function Inserted<V>(cmp: Comparison, s: seq<Entry<V>>, key: Key, value: V): seq<Entry<V>> {
    if s == [] then [(key, value)]
    else if Compare(cmp, key, s[0].0) < 0 then [(key, value)] + s
    else if Compare(cmp, key, s[0].0) == 0 then [(s[0].0, value)] + s[1..]
    else [s[0]] + Inserted(cmp, s[1..], key, value)
  }

  function Removed<V>(cmp: Comparison, s: seq<Entry<V>>, key: Key): seq<Entry<V>> {
    if s == [] then []
    else if Compare(cmp, s[0].0, key) == 0 then s[1..]
    else [s[0]] + Removed(cmp, s[1..], key)
  }

  lemma {:induction false} LookupMissing<V>(cmp: Comparison, a: seq<Entry<V>>, b: seq<Entry<V>>, key: Key)
    requires Orders(cmp) && Lower(cmp, a, key) && Upper(cmp, b, key)
    ensures Lookup(cmp, a + b, key) == None && Removed(cmp, a + b, key) == a + b
  {
    hide Orders, Compare;
    if a + b != [] {
      var e := (a + b)[0];
      CompareFlip(cmp, e.0, key);
      if a != [] {
        assert (a + b)[1..] == a[1..] + b && (a + b)[0] == a[0];
        LookupMissing(cmp, a[1..], b, key);
      } else {
        assert a + b == b && (a + b)[1..] == a + b[1..];
        LookupMissing(cmp, a, b[1..], key);
      }
    }
  }

  lemma {:induction false} LookupHit<V>(cmp: Comparison, a: seq<Entry<V>>, e: Entry<V>, b: seq<Entry<V>>, key: Key)
    requires Orders(cmp) && Lower(cmp, a, key) && Compare(cmp, key, e.0) == 0
    ensures Lookup(cmp, a + [e] + b, key) == Some(e.1)
    ensures Removed(cmp, a + [e] + b, key) == a + b
  {
    hide Orders, Compare;
    CompareFlip(cmp, e.0, key);
    var s := a + [e] + b;
    if a == [] {
      assert s[0] == e && s[1..] == b;
      assert a + b == b;
    } else {
      assert s[0] == a[0] && s[1..] == a[1..] + [e] + b;
      LookupHit(cmp, a[1..], e, b, key);
      assert Removed(cmp, s, key) == [a[0]] + (a[1..] + b);
    }
  }

  lemma {:induction false} InsertedBetween<V>(cmp: Comparison, a: seq<Entry<V>>, b: seq<Entry<V>>, key: Key, value: V)
    requires Orders(cmp) && Lower(cmp, a, key) && Upper(cmp, b, key)
    ensures Inserted(cmp, a + b, key, value) == a + [(key, value)] + b
  {
    hide Orders, Compare;
    if a == [] {
      assert a + b == b;
    } else {
      CompareFlip(cmp, a[0].0, key);
      assert (a + b)[1..] == a[1..] + b;
      InsertedBetween(cmp, a[1..], b, key, value);
    }
  }

  lemma {:induction false} InsertedHit<V>(cmp: Comparison, a: seq<Entry<V>>, e: Entry<V>, b: seq<Entry<V>>, key: Key, value: V)
    requires Orders(cmp) && Lower(cmp, a, key) && Compare(cmp, key, e.0) == 0
    ensures Inserted(cmp, a + [e] + b, key, value) == a + [(e.0, value)] + b
  {
    hide Orders, Compare;
    var s := a + [e] + b;
    if a == [] {
      assert s[0] == e && s[1..] == b;
    } else {
      CompareFlip(cmp, a[0].0, key);
      assert s[0] == a[0] && s[1..] == a[1..] + [e] + b;
      InsertedHit(cmp, a[1..], e, b, key, value);
      assert Inserted(cmp, s, key, value) == [a[0]] + (a[1..] + [(e.0, value)] + b);
    }
  }

  /** Insertion is the update of a map: the inserted key is found with its value, every other key as before. */
  lemma {:induction false} InsertedIsUpdate<V>(cmp: Comparison, s: seq<Entry<V>>, key: Key, value: V, k: Key)
    requires Orders(cmp) && Sorted(cmp, s)
    ensures Lookup(cmp, Inserted(cmp, s, key, value), k) == if Compare(cmp, key, k) == 0 then Some(value) else Lookup(cmp, s, k)
  {
    if s != [] {
      var d := Compare(cmp, key, s[0].0);
      CompareFlip(cmp, key, s[0].0);
      CompareFlip(cmp, s[0].0, k);
      CompareFlip(cmp, key, k);
      if d == 0 {
        EqualKeys(cmp, key, s[0].0, k);
      } else if d > 0 {
        var t := Inserted(cmp, s, key, value);
        assert t[1..] == Inserted(cmp, s[1..], key, value);
        InsertedIsUpdate(cmp, s[1..], key, value, k);
        if Compare(cmp, key, k) == 0 && Compare(cmp, s[0].0, k) == 0 {
          CompareChain(cmp, key, k, s[0].0);
        }
      }
    }
  }

  /** Removal takes away the removed key and no other. */
  lemma {:induction false} RemovedIsGone<V>(cmp: Comparison, s: seq<Entry<V>>, key: Key, k: Key)
    requires Orders(cmp) && Sorted(cmp, s)
    ensures Lookup(cmp, Removed(cmp, s, key), k) == if Compare(cmp, key, k) == 0 then None else Lookup(cmp, s, k)
  {
    if s != [] {
      CompareFlip(cmp, s[0].0, key);
      EqualKeys(cmp, key, s[0].0, k);
      if Compare(cmp, s[0].0, key) == 0 {
        if Compare(cmp, key, k) == 0 {
          forall i | 0 <= i < |s[1..]| ensures Compare(cmp, k, s[1..][i].0) < 0 {
            var e := s[1..][i];
            assert e == s[i + 1];
            CompareFlip(cmp, s[0].0, k);
            CompareChain(cmp, k, s[0].0, e.0);
          }
          assert [] + s[1..] == s[1..];
          LookupMissing(cmp, [], s[1..], k);
        }
      } else {
        assert Removed(cmp, s, key)[1..] == Removed(cmp, s[1..], key);
        RemovedIsGone(cmp, s[1..], key, k);
        if Compare(cmp, key, k) == 0 && Compare(cmp, s[0].0, k) == 0 {
          CompareFlip(cmp, key, k);
          CompareChain(cmp, s[0].0, k, key);
          CompareChain(cmp, key, k, s[0].0);
        }
      }
    }
  }

  /** A key compares with equal keys alike. */
  lemma EqualKeys(cmp: Comparison, a: Key, b: Key, k: Key)
    requires Orders(cmp)
    ensures Compare(cmp, a, b) == 0 ==> (Compare(cmp, a, k) == 0 <==> Compare(cmp, b, k) == 0)
  {
    if Compare(cmp, a, b) == 0 {
      CompareFlip(cmp, a, b);
      CompareFlip(cmp, a, k);
      CompareFlip(cmp, b, k);
      if Compare(cmp, a, k) == 0 {
        CompareChain(cmp, b, a, k);
        CompareChain(cmp, k, a, b);
      } else if Compare(cmp, b, k) == 0 {
        CompareChain(cmp, a, b, k);
        CompareChain(cmp, k, b, a);
      }
    }
  }

  /** Going left of an entry narrows the sought key to what comes before it. */
  lemma NarrowedLeft<V>(cmp: Comparison, a: seq<Entry<V>>, e: Entry<V>, b: seq<Entry<V>>, key: Key)
    requires Orders(cmp) && Sorted(cmp, a + [e] + b) && Compare(cmp, key, e.0) < 0
    ensures Upper(cmp, [e] + b, key)
  {
    hide Orders, Compare;
    var s := a + [e] + b;
    forall i | 0 <= i < |[e] + b| ensures Compare(cmp, key, ([e] + b)[i].0) < 0 {
      assert ([e] + b)[i] == s[|a| + i];
      if i > 0 {
        assert Compare(cmp, s[|a|].0, s[|a| + i].0) < 0;
        CompareChain(cmp, key, e.0, s[|a| + i].0);
      }
    }
  }

  /** Going right of an entry, or stopping at it, leaves all before it lower. */
  lemma NarrowedRight<V>(cmp: Comparison, a: seq<Entry<V>>, e: Entry<V>, b: seq<Entry<V>>, key: Key)
    requires Orders(cmp) && Sorted(cmp, a + [e] + b) && Compare(cmp, key, e.0) >= 0
    ensures Lower(cmp, a, key)
    ensures Compare(cmp, key, e.0) > 0 ==> Lower(cmp, a + [e], key)
  {
    hide Orders, Compare;
    var s := a + [e] + b;
    CompareFlip(cmp, key, e.0);
    forall i | 0 <= i < |a| ensures Compare(cmp, a[i].0, key) < 0 {
      assert a[i] == s[i] && e == s[|a|];
      CompareChain(cmp, s[i].0, e.0, key);
    }
  }
}
