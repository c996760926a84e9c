/**
 The size-class allocator of vox_mpool.c. What malloc returns is a parameter of the operations that may call it; the
 bytes of user memory are kept by address.
 */
module MemPool {
  import opened PoolModel

  /** The byte at an address; memory that was never written holds zeros. */
  function Byte(data: map<Addr, bv8>, a: Addr): bv8 {
    if a in data then data[a] else 0
  }

  class Pool {
    /** initial_block_count */
    const count: nat
    var slots: seq<Slot>
    var hdr: map<Addr, Header>
    var chunkNext: map<Addr, Addr>
    var bigs: map<Addr, Big>
    var large: Addr
    var used: nat
    var data: map<Addr, bv8>

    ghost var free: seq<seq<Addr>>
    ghost var chunks: seq<seq<Addr>>
    ghost var larges: seq<Addr>
    /** The blocks in use, by the address of their meta field, eight bytes before the pointer that the owner has. */
    ghost var live: map<Addr, Block>
    ghost var held: map<Addr, nat>
    ghost var places: map<Addr, Place>

    ghost function V(): View
      reads this
    {
      View(count, slots, hdr, chunkNext, bigs, large, used, free, chunks, larges, live, held, places)
    }

    ghost predicate Valid()
      reads this
    {
      PoolOk(V())
    }

    /** vox_mpool_create_with_config; 64 blocks to a chunk unless the configuration says otherwise. */
    constructor (initialBlockCount: nat)
      ensures Valid() && live == map[] && used == 0 && count == if initialBlockCount > 0 then initialBlockCount else 64
    {
      count := if initialBlockCount > 0 then initialBlockCount else 64;
      slots := seq(SLOTS, i => Slot(NULL, NULL, 0, 0));
      hdr, chunkNext, bigs, large, used, data := map[], map[], map[], NULL, 0, map[];
      free, chunks := seq(SLOTS, i => []), seq(SLOTS, i => []);
      larges, live, held, places := [], map[], map[], map[];
      new;
      forall i | 0 <= i < SLOTS ensures SlotOk(V(), i) && LiveCount(live, i) == 0 {
        assert OfSlot(live, i) == {};
      }
    }

    /** How many bytes an allocation of this size asks malloc for. */
    ghost function Asked(size: nat): nat
      reads this
      requires |free| == SLOTS
    {
      var i := SlotIndex(size);
      if size == 0 then 0
      else if i < 0 then CHUNK + LARGE_HEADER + META + size
      else if free[i] == [] then CHUNK + Offset(i, count)
      else 0
    }

    /** What an allocation of this size gives its owner. */
    function Capacity(size: nat): (n: nat)
      ensures n >= size
    {
      if SlotIndex(size) < 0 then size else UserSize(SlotIndex(size))
    }

    /** vox_mpool_expand_slot */
    method ExpandSlot(i: nat, grant: Addr) returns (ret: int)
      requires Valid() && i < SLOTS && (grant != NULL ==> Grants(V(), grant, CHUNK + Offset(i, count)))
      modifies `slots, `hdr, `chunkNext, `free, `chunks, `held, `places
      ensures Valid() && ret == if grant == NULL then -1 else 0
      ensures ret != 0 ==> V() == old(V())
      ensures ret == 0 ==> free[i] == Blocks(i, grant, count) + old(free[i])
      ensures forall r | r in old(held) :: r in held && held[r] == old(held[r])
    {
      hide PoolOk, Blocks, Grants, Offset, BlockSize, Expanded;
      if grant == NULL {
        return -1;
      }
      ghost var v := V();
      CountPositive(v);
      FreshGrant(v, i, grant);
      var first := ThreadBlocks(i, grant, slots[i].head);
      ExpandedOk(v, i, grant, hdr);
      AddChunk(i, grant, first, v);
      ret := 0;
    }

    /** The fields of the slot after a new chunk; v is the pool before the expansion. */
    method AddChunk(i: nat, grant: Addr, first: Addr, ghost v: View)
      requires i < SLOTS && Sizes(v) && V() == v.(hdr := hdr) && grant !in v.held && first == grant + CHUNK
      modifies `slots, `chunkNext, `free, `chunks, `held, `places
      ensures V() == Expanded(v, i, grant, hdr) && free[i] == Blocks(i, grant, count) + old(free[i])
      ensures forall r | r in old(held) :: r in held && held[r] == old(held[r])
    {
      hide Blocks, Offset, BlockSize, Expanded;
      ExpandedFields(v, i, grant, hdr);
      ghost var v' := Expanded(v, i, grant, hdr);
      chunkNext := chunkNext[grant := slots[i].chunks];
      slots := slots[i := Slot(first, grant, slots[i].total + count, slots[i].free + count)];
      free, chunks, held, places := v'.free, v'.chunks, v'.held, v'.places;
      assert V() == v';
    }

    lemma FreshGrant(v: View, i: nat, r: Addr)
      requires PoolOk(v) && i < SLOTS && Grants(v, r, CHUNK + Offset(i, v.count))
      ensures r !in v.held
    {
      hide PoolOk, Grants, Offset, Blocks;
      CountPositive(v);
      BlocksAreFresh(v, i, r, Blocks(i, r, v.count)[0]);
    }

    /** What a new chunk changes. */
    lemma ExpandedFields(v: View, i: nat, r: Addr, h: map<Addr, Header>)
      requires Sizes(v) && i < SLOTS && r !in v.held
      ensures var v' := Expanded(v, i, r, h);
              && v' == v.(slots := v.slots[i := Slot(r + CHUNK, r, v.slots[i].total + v.count, v.slots[i].free + v.count)], hdr := h,
                          chunkNext := v.chunkNext[r := v.slots[i].chunks], free := v'.free, chunks := v'.chunks, held := v'.held,
                          places := v'.places)
              && Sizes(v') && v'.free[i] == Blocks(i, r, v.count) + v.free[i]
              && forall q | q in v.held :: q in v'.held && v'.held[q] == v.held[q]
    {
    }

    lemma CountPositive(v: View)
      requires PoolOk(v)
      ensures v.count > 0 && Sizes(v)
    {
    }

    /** The loop that links the blocks of a new chunk, and the last of them to the old list. */
    method ThreadBlocks(i: nat, chunk: Addr, head: Addr) returns (first: Addr)
      requires i < SLOTS && count > 0
      modifies `hdr
      ensures first == chunk + CHUNK && Threaded(old(hdr), hdr, Blocks(i, chunk, count), head)
    {
      hide BlockSize, Offset, Blocks, NoRepeats, Linked, Threaded;
      ghost var b, hdr0 := Blocks(i, chunk, count), hdr;
      BlocksInOrder(i, chunk, count);
      StartLinking(hdr0, b);
      NoOffset(i);
      var ptr := chunk + CHUNK;
      first := NULL;
      var last := NULL;
      for j := 0 to count
        invariant ptr == BlockAt(Place(i, chunk, j)) && (j < count ==> ptr == b[j])
        invariant j > 0 ==> first == chunk + CHUNK && last == b[j - 1]
        invariant Linked(hdr0, hdr, b, if j > 0 then j - 1 else 0)
      {
        if j == 0 {
          first := ptr;
        } else {
          LinkNext(hdr0, hdr, b, j - 1);
          hdr := hdr[last := Free(ptr)];
        }
        last := ptr;
        NextOffset(i, j);
        ptr := ptr + BlockSize(i);
      }
      LinkLast(hdr0, hdr, b, head);
      hdr := hdr[last := Free(head)];
    }

    /** The blocks lie one after the other, the first right behind the chunk's own fields. */
    lemma BlocksInOrder(i: nat, chunk: Addr, n: nat)
      requires i < SLOTS && n > 0
      ensures var b := Blocks(i, chunk, n);
              && NoRepeats(b) && b[0] == chunk + CHUNK
              && forall j | 0 <= j < n :: b[j] == BlockAt(Place(i, chunk, j))
    {
      hide NoRepeats;
      BlocksDiffer(i, chunk, n);
      FirstBlock(i, chunk, n);
    }

    /** The first n blocks of b are linked to their successors, and no other header has changed. */
    ghost predicate Linked(h0: map<Addr, Header>, h: map<Addr, Header>, b: seq<Addr>, n: nat) {
      && n < |b|
      && (forall k | 0 <= k < n :: b[k] in h && h[b[k]] == Free(b[k + 1]))
      && (forall a | a in h0 && a !in b :: a in h && h[a] == h0[a])
    }

    lemma StartLinking(h0: map<Addr, Header>, b: seq<Addr>)
      requires b != []
      ensures Linked(h0, h0, b, 0)
    {
    }

    lemma LinkNext(h0: map<Addr, Header>, h: map<Addr, Header>, b: seq<Addr>, n: nat)
      requires Linked(h0, h, b, n) && n + 1 < |b| && NoRepeats(b)
      ensures Linked(h0, h[b[n] := Free(b[n + 1])], b, n + 1)
    {
    }

    lemma LinkLast(h0: map<Addr, Header>, h: map<Addr, Header>, b: seq<Addr>, head: Addr)
      requires b != [] && Linked(h0, h, b, |b| - 1) && NoRepeats(b)
      ensures Threaded(h0, h[b[|b| - 1] := Free(head)], b, head)
    {
    }

    lemma NoOffset(i: nat)
      requires i < SLOTS
      ensures Offset(i, 0) == 0
    {
    }

    lemma NextOffset(i: nat, j: nat)
      requires i < SLOTS
      ensures Offset(i, j + 1) == Offset(i, j) + BlockSize(i)
    {
    }

    // ---------- Allocation ----------

    /** The large branch of vox_mpool_alloc_internal. */
    method AllocLarge(size: nat, grant: Addr) returns (ptr: Addr)
      requires Valid() && size <= SIZE_MAX && SlotIndex(size) < 0
      requires grant != NULL ==> Grants(V(), grant, CHUNK + LARGE_HEADER + META + size)
      modifies `bigs, `large, `larges, `hdr, `live, `held, `used
      ensures Valid()
      ensures ptr == NULL <==> size > SIZE_MAX - (CHUNK + LARGE_HEADER + META) || grant == NULL
      ensures ptr == NULL ==> V() == old(V())
      ensures ptr != NULL ==> ptr >= META && ptr - META !in old(live) && live == old(live)[ptr - META := Block(LARGE, size)]
      ensures ptr != NULL ==> used == old(used) + size
    {
      hide PoolOk, Grants, LargeAdded;
      if size > SIZE_MAX - (CHUNK + LARGE_HEADER + META) || grant == NULL {
        return NULL;
      }
      LargeAddedOk(V(), grant, size);
      HeadIsKnown(V());
      PushLarge(grant, size);
      ptr := grant + CHUNK + LARGE_HEADER + META;
    }

    /** The header fields of a new large block, at the front of the list. */
    method PushLarge(grant: Addr, size: nat)
      requires large != NULL ==> large in bigs
      modifies `bigs, `large, `larges, `hdr, `live, `held, `used
      ensures V() == LargeAdded(old(V()), grant, size) && used == old(used) + size
      ensures live == old(live)[grant + CHUNK + LARGE_HEADER := Block(LARGE, size)]
    {
      hide LargeAdded;
      ghost var v := V();
      LargeAddedFields(v, grant, size);
      ghost var v' := LargeAdded(v, grant, size);
      hdr := hdr[grant + CHUNK + LARGE_HEADER := Meta(LARGE)];
      if large != NULL {
        bigs := bigs[large := bigs[large].(prev := grant)];
      }
      bigs := bigs[grant := Big(large, NULL, size)];
      large := grant;
      used := used + size;
      larges, live, held := v'.larges, v'.live, v'.held;
      assert V() == v';
    }

    lemma LargeAddedFields(v: View, c: Addr, size: nat)
      ensures var v' := LargeAdded(v, c, size);
              var b := if v.large != NULL && v.large in v.bigs then v.bigs[v.large := v.bigs[v.large].(prev := c)] else v.bigs;
              && v' == v.(bigs := b[c := Big(v.large, NULL, size)], large := c, hdr := v.hdr[c + CHUNK + LARGE_HEADER := Meta(LARGE)],
                          used := v.used + size, larges := v'.larges, live := v'.live, held := v'.held)
              && v'.live == v.live[c + CHUNK + LARGE_HEADER := Block(LARGE, size)]
    {
    }

    lemma HeadIsKnown(v: View)
      requires PoolOk(v)
      ensures v.large != NULL ==> v.large in v.bigs
    {
      if v.large != NULL {
        assert BigNode(v.bigs, v.larges, 0);
      }
    }

    lemma TakenFields(v: View, i: nat)
      requires Sizes(v) && i < SLOTS && v.free[i] != [] && v.free[i][0] in v.hdr && v.hdr[v.free[i][0]].Free?
      requires v.slots[i].head == v.free[i][0] && v.slots[i].free == |v.free[i]|
      ensures var a, v' := v.free[i][0], Taken(v, i);
              && v' == v.(slots := v.slots[i := v.slots[i].(head := v.hdr[a].next, free := v.slots[i].free - 1)], hdr := v.hdr[a := Meta(i)],
                          used := v.used + UserSize(i), free := v'.free, live := v'.live)
              && v'.live == v.live[a := Block(i, UserSize(i))]
    {
    }

    /** The end of vox_mpool_alloc_internal: the first free block is taken. */
    method TakeFirst(i: nat) returns (ptr: Addr)
      requires Valid() && i < SLOTS && free[i] != []
      modifies `slots, `hdr, `free, `live, `used
      ensures Valid() && ptr >= META && ptr - META !in old(live)
      ensures live == old(live)[ptr - META := Block(i, UserSize(i))] && used == old(used) + UserSize(i)
      ensures ptr - META == old(free[i][0])
    {
      hide PoolOk, Taken;
      ghost var v := V();
      SizesHold(v);
      FirstFree(v, i);
      TakenOk(v, i);
      ghost var v' := Taken(v, i);
      TakenFields(v, i);
      var block := slots[i].head;
      slots := slots[i := slots[i].(head := hdr[block].next, free := slots[i].free - 1)];
      hdr := hdr[block := Meta(i)];
      used := used + UserSize(i);
      free, live := v'.free, v'.live;
      assert V() == v';
      ptr := block + META;
    }

    /** vox_mpool_alloc */
    method Alloc(size: nat, grant: Addr) returns (ptr: Addr)
      requires Valid() && size <= SIZE_MAX
      requires grant != NULL && Asked(size) > 0 ==> Grants(V(), grant, Asked(size))
      modifies this
      ensures Valid() && data == old(data)
      ensures ptr == NULL <==>
                || size == 0
                || size > SIZE_MAX - (CHUNK + LARGE_HEADER + META)
                || (old(Asked(size)) > 0 && grant == NULL)
      ensures ptr == NULL ==> V() == old(V())
      ensures ptr != NULL ==>
                && ptr >= META && ptr - META !in old(live)
                && live == old(live)[ptr - META := Block(if SlotIndex(size) < 0 then LARGE else SlotIndex(size), Capacity(size))]
                && used == old(used) + Capacity(size)
      ensures ptr != NULL ==> ptr % 8 == 0
    {
      hide PoolOk, Grants, Offset, Blocks;
      SizesHold(V());
      if size == 0 {
        return NULL;
      }
      var i := SlotIndex(size);
      if i < 0 {
        ptr := AllocLarge(size, grant);
      } else {
        HeadIsNull(V(), i);
        if slots[i].head == NULL {
          var ret := ExpandSlot(i, grant);
          if ret != 0 {
            return NULL;
          }
          SizesHold(V());
        }
        ptr := TakeFirst(i);
      }
      if ptr != NULL {
        LiveInside(V(), ptr - META);
      }
    }

    lemma SizesHold(v: View)
      requires PoolOk(v)
      ensures Sizes(v)
    {
    }

    lemma HeadIsNull(v: View, i: nat)
      requires PoolOk(v) && i < SLOTS
      ensures Sizes(v) && (v.slots[i].head == NULL <==> v.free[i] == [])
    {
      assert SlotOk(v, i);
    }

    // ---------- Freeing ----------

    lemma GivenFields(v: View, a: Addr)
      requires Sizes(v) && a in v.live && v.live[a].slot < SLOTS && v.used >= v.live[a].size
      requires v.slots[v.live[a].slot].free == |v.free[v.live[a].slot]|
      ensures var i, v' := v.live[a].slot, Given(v, a);
              && v' == v.(hdr := v.hdr[a := Free(v.slots[i].head)], slots := v.slots[i := v.slots[i].(head := a, free := v.slots[i].free + 1)],
                          used := v.used - v.live[a].size, free := v'.free, live := v'.live)
              && v'.live == v.live - {a}
    {
    }

    /** vox_mpool_free of a pointer that this pool has given out. */
    method FreeBlock(ptr: Addr)
      requires Valid() && (ptr != NULL ==> ptr >= META && ptr - META in live)
      modifies this
      ensures Valid() && data == old(data)
      ensures ptr == NULL ==> V() == old(V())
      ensures ptr != NULL ==> live == old(live) - {ptr - META} && used == old(used) - old(live[ptr - META].size)
      ensures ptr != NULL ==>
                held == if old(live[ptr - META].slot) == LARGE then old(held) - {ptr - META - CHUNK - LARGE_HEADER} else old(held)
    {
      hide PoolOk;
      if ptr == NULL {
        return;
      }
      var meta := ptr - META;
      MetaIs(V(), meta);
      if hdr[meta].slot == LARGE {
        FreeLarge(meta);
        return;
      }
      GiveBack(meta);
    }

    /** The end of vox_mpool_free_internal: the block goes to the front of its slot's free list. */
    method GiveBack(meta: Addr)
      requires Valid() && meta in live && live[meta].slot < SLOTS && meta in hdr && hdr[meta] == Meta(live[meta].slot)
      modifies `slots, `hdr, `free, `live, `used
      ensures Valid() && live == old(live) - {meta} && used == old(used) - old(live[meta].size)
    {
      hide PoolOk, Given;
      var i := hdr[meta].slot;
      ghost var v := V();
      MetaIs(v, meta);
      GivenOk(v, meta);
      FreeCount(v, i);
      ghost var v' := Given(v, meta);
      GivenFields(v, meta);
      hdr := hdr[meta := Free(slots[i].head)];
      slots := slots[i := slots[i].(head := meta, free := slots[i].free + 1)];
      used := used - UserSize(i);
      free, live := v'.free, v'.live;
      assert V() == v';
    }

    lemma MetaIs(v: View, a: Addr)
      requires PoolOk(v) && a in v.live
      ensures Sizes(v) && a in v.hdr && v.hdr[a] == Meta(v.live[a].slot)
      ensures v.live[a].size > 0 && (v.live[a].slot == LARGE || (v.live[a].slot < SLOTS && v.live[a].size == UserSize(v.live[a].slot)))
    {
      assert LiveOk(v, a);
    }

    /** The large branch of vox_mpool_free_internal: the block leaves the list and goes back to the system. */
    method FreeLarge(meta: Addr)
      requires Valid() && meta in live && live[meta].slot == LARGE
      modifies `bigs, `large, `larges, `live, `held, `used
      ensures Valid() && live == old(live) - {meta} && used == old(used) - old(live[meta].size)
      ensures held == old(held) - {meta - CHUNK - LARGE_HEADER}
    {
      hide PoolOk, LargeRemoved, Unlinked, BigChain, NoRepeats;
      ghost var v := V();
      ghost var c, k := LargeNode(v, meta);
      var chunk := meta - CHUNK - LARGE_HEADER;
      ghost var v' := LargeRemoved(v, chunk, k);
      var size := bigs[chunk].size;
      Unlink(chunk, larges, k);
      used := used - size;
      larges, live, held := v'.larges, v'.live, v'.held;
      assert V() == v';
    }

    /** The k-th node c of the list is that of the large block at a, and this is what its removal leaves. */
    ghost predicate Removes(v: View, a: Addr, c: Addr, k: nat) {
      && a == c + CHUNK + LARGE_HEADER && k < |v.larges| && v.larges[k] == c && a in v.live && c in v.bigs
      && v.bigs[c].size == v.live[a].size && v.used >= v.bigs[c].size
      && var v' := LargeRemoved(v, c, k);
      && v' == v.(bigs := Unlinked(v.bigs, c), large := if v.bigs[c].prev != NULL then v.large else v.bigs[c].next,
                  used := v.used - v.bigs[c].size, larges := v'.larges, live := v'.live, held := v'.held)
      && v'.larges == v.larges[..k] + v.larges[k + 1..] && v'.live == v.live - {a} && v'.held == v.held - {c}
    }

    lemma LargeNode(v: View, a: Addr) returns (c: Addr, k: nat)
      requires PoolOk(v) && a in v.live && v.live[a].slot == LARGE
      ensures Removes(v, a, c, k) && PoolOk(LargeRemoved(v, c, k)) && BigChain(v.bigs, v.large, v.larges) && NoRepeats(v.larges)
    {
      hide PoolOk, LargeRemoved, Unlinked, BigChain, NoRepeats;
      LargeAt(v, a);
      LargeList(v);
      c := a - CHUNK - LARGE_HEADER;
      k :| 0 <= k < |v.larges| && v.larges[k] == c;
      LargeRemovedOk(v, c, k);
      LargeRemovedFields(v, c, k);
    }

    /** The removal of a chunk, the k-th of the list s of large blocks: the links are those of the list without it. */
    method Unlink(chunk: Addr, ghost s: seq<Addr>, ghost k: nat)
      requires BigChain(bigs, large, s) && NoRepeats(s) && k < |s| && s[k] == chunk
      modifies `bigs, `large
      ensures BigChain(bigs, large, s[..k] + s[k + 1..]) && chunk in old(bigs)
      ensures bigs == Unlinked(old(bigs), chunk)
      ensures large == if old(bigs[chunk].prev) != NULL then old(large) else old(bigs[chunk].next)
    {
      Neighbours(bigs, large, s, k);
      BigUnlinked(bigs, large, s, k);
      hide BigChain, NoRepeats;
      var prev, next := bigs[chunk].prev, bigs[chunk].next;
      if prev != NULL {
        bigs := bigs[prev := bigs[prev].(next := next)];
      } else {
        large := next;
      }
      if next != NULL {
        bigs := bigs[next := bigs[next].(prev := prev)];
      }
    }

    lemma LargeRemovedFields(v: View, c: Addr, k: nat)
      requires c in v.bigs && k < |v.larges| && v.used >= v.bigs[c].size
      ensures var v' := LargeRemoved(v, c, k);
              && v' == v.(bigs := Unlinked(v.bigs, c), large := if v.bigs[c].prev != NULL then v.large else v.bigs[c].next,
                          used := v.used - v.bigs[c].size, larges := v'.larges, live := v'.live, held := v'.held)
              && v'.larges == v.larges[..k] + v.larges[k + 1..] && v'.live == v.live - {c + CHUNK + LARGE_HEADER} && v'.held == v.held - {c}
    {
    }

    lemma Neighbours(bigs: map<Addr, Big>, head: Addr, s: seq<Addr>, k: nat)
      requires BigChain(bigs, head, s) && k < |s|
      ensures s[k] in bigs
      ensures var b := bigs[s[k]]; (b.prev != NULL ==> b.prev in bigs) && (b.next != NULL ==> b.next in bigs)
    {
      assert BigNode(bigs, s, k);
      if k > 0 { assert BigNode(bigs, s, k - 1); }
      if k + 1 < |s| { assert BigNode(bigs, s, k + 1); }
    }

    lemma LargeList(v: View)
      requires PoolOk(v)
      ensures BigChain(v.bigs, v.large, v.larges) && NoRepeats(v.larges)
    {
    }

    /** vox_mpool_get_size */
    method GetSize(ptr: Addr) returns (size: nat)
      requires Valid() && (ptr != NULL ==> ptr >= META && ptr - META in live)
      ensures size == if ptr == NULL then 0 else live[ptr - META].size
    {
      hide PoolOk;
      if ptr == NULL {
        return 0;
      }
      MetaIs(V(), ptr - META);
      if hdr[ptr - META].slot == LARGE {
        LargeAt(V(), ptr - META);
        size := bigs[ptr - META - CHUNK - LARGE_HEADER].size;
      } else {
        size := UserSize(hdr[ptr - META].slot);
      }
    }

    // ---------- Reallocation ----------

    /** memcpy between blocks that do not overlap. */
    method Copy(to: Addr, from: Addr, n: nat)
      requires Disjoint(to, n, from, n)
      modifies `data
      ensures forall x: Addr | to <= x < to + n :: Byte(data, x) == Byte(old(data), x - to + from)
      ensures forall a: Addr | !(to <= a < to + n) :: Byte(data, a) == Byte(old(data), a)
    {
      for k := 0 to n
        invariant forall x: Addr | to <= x < to + k :: Byte(data, x) == Byte(old(data), x - to + from)
        invariant forall a: Addr | !(to <= a < to + k) :: Byte(data, a) == Byte(old(data), a)
      {
        assert !(to <= from + k < to + k);
        ghost var before := data;
        data := data[to + k := Byte(data, from + k)];
        assert forall x: Addr | x != to + k :: Byte(data, x) == Byte(before, x);
        assert Byte(data, to + k) == Byte(old(data), from + k);
      }
    }

    /** The block is of the very size class that the new size asks for. */
    ghost predicate StaysPut(ptr: Addr, newSize: nat)
      reads this
    {
      ptr >= META && ptr - META in live && SlotIndex(newSize) >= 0 && live[ptr - META].slot == SlotIndex(newSize)
    }

    /** vox_mpool_realloc: the first min(old size, new size) bytes go along, and no other block in use changes a byte. */
    method Realloc(ptr: Addr, newSize: nat, grant: Addr) returns (p: Addr)
      requires Valid() && newSize <= SIZE_MAX && (ptr != NULL ==> ptr >= META && ptr - META in live)
      requires grant != NULL && Asked(newSize) > 0 ==> Grants(V(), grant, Asked(newSize))
      modifies this
      ensures Valid()
      ensures p == NULL <==>
                || newSize == 0
                || (!old(StaysPut(ptr, newSize))
                    && (newSize > SIZE_MAX - (CHUNK + LARGE_HEADER + META) || (old(Asked(newSize)) > 0 && grant == NULL)))
      ensures newSize != 0 ==> (p == ptr != NULL <==> old(StaysPut(ptr, newSize)))
      ensures ptr != NULL && newSize == 0 ==> live == old(live) - {ptr - META} && used == old(used) - old(live[ptr - META].size)
      ensures ptr == NULL && newSize == 0 ==> V() == old(V())
      ensures p == NULL && newSize != 0 ==> V() == old(V()) && data == old(data)
      ensures p != NULL ==>
                && p >= META && p - META in live && p % 8 == 0
                && live[p - META] == Block(if SlotIndex(newSize) < 0 then LARGE else SlotIndex(newSize), Capacity(newSize))
                && used == old(used) + Capacity(newSize) - (if ptr == NULL then 0 else old(live[ptr - META].size))
                && (p == ptr || p - META !in old(live))
                && live == (if ptr == NULL then old(live) else old(live) - {ptr - META})[p - META := live[p - META]]
      ensures p != NULL && ptr != NULL ==>
                forall x: Addr | p <= x < p + newSize && x < p + old(live[ptr - META].size) ::
                  Byte(data, x) == Byte(old(data), x - p + ptr)
      ensures forall a: Addr, x: Addr {:trigger Byte(data, x), a in old(live)} |
                a in old(live) && a + META != ptr && a + META <= x < a + META + old(live)[a].size ::
                Byte(data, x) == Byte(old(data), x)
    {
      hide PoolOk, Grants, Asked, UserSize;
      if ptr == NULL {
        p := Alloc(newSize, grant);
        return;
      }
      if newSize == 0 {
        FreeBlock(ptr);
        return NULL;
      }
      var meta := ptr - META;
      MetaIs(V(), meta);
      var oldSlot := hdr[meta].slot;
      var oldSize := GetSize(ptr);
      var newSlot := SlotIndex(newSize);
      if oldSlot == newSlot && oldSlot < SLOTS {
        LiveInside(V(), meta);
        assert live == (live - {meta})[meta := live[meta]];
        return ptr;
      }
      var q := Alloc(newSize, grant);
      if q == NULL {
        return NULL;
      }
      var copySize := oldSize;
      if oldSize == 0 || newSize < oldSize {
        copySize := newSize;
      }
      assert live[meta] == old(live)[meta] && copySize <= live[meta].size && copySize <= live[q - META].size;
      forall a | a in old(live) && a != meta
        ensures Disjoint(a, META + old(live)[a].size, q - META, META + live[q - META].size)
      {
        LiveApart(V(), a, q - META);
      }
      Move(ptr, q, copySize);
      p := q;
      assert live == (old(live) - {meta})[q - META := live[q - META]];
    }

    /** The first n bytes of one block go to another one, and the first is given back. */
    method Move(ptr: Addr, q: Addr, n: nat)
      requires Valid() && ptr >= META && q >= META && ptr != q && ptr - META in live && q - META in live
      requires n <= live[ptr - META].size && n <= live[q - META].size
      modifies this
      ensures Valid() && live == old(live) - {ptr - META} && used == old(used) - old(live[ptr - META].size)
      ensures forall x: Addr | q <= x < q + n :: Byte(data, x) == Byte(old(data), x - q + ptr)
      ensures forall x: Addr | !(q <= x < q + n) :: Byte(data, x) == Byte(old(data), x)
    {
      hide PoolOk;
      LiveApart(V(), ptr - META, q - META);
      Copy(q, ptr, n);
      assert V() == old(V());
      FreeBlock(ptr);
    }

    // ---------- Reset ----------

    /** The loop of vox_mpool_reset over the large blocks. */
    method FreeAllLarge()
      requires Valid()
      modifies `large
      ensures large == NULL
    {
      var chunk := large;
      ghost var k := 0;
      FirstLarge(V());
      while chunk != NULL
        invariant Valid() && k <= |larges| && chunk == Nth(larges, k)
        decreases |larges| - k
      {
        NextLarge(V(), k);
        chunk := bigs[chunk].next;
        k := k + 1;
      }
      large := NULL;
    }

    lemma FirstLarge(v: View)
      requires PoolOk(v)
      ensures v.large == Nth(v.larges, 0)
    {
    }

    lemma NextLarge(v: View, k: nat)
      requires PoolOk(v) && k <= |v.larges| && Nth(v.larges, k) != NULL
      ensures k < |v.larges| && v.larges[k] in v.bigs && v.bigs[v.larges[k]].next == Nth(v.larges, k + 1)
    {
      assert BigNode(v.bigs, v.larges, k);
    }

    /** The list built so far holds the first k chunks of slot i and the first j blocks of the next one, each block once. */
    ghost predicate Filling(v: View, i: nat, h: map<Addr, Header>, head: Addr, f: seq<Addr>, k: nat, j: nat)
      requires Sizes(v) && i < SLOTS
    {
      && Chain(h, head, f) && NoRepeats(f) && |f| == Total(k, v.count) + j
      && forall a :: a in f <==> a in v.places && v.places[a].slot == i && Listed(v.chunks[i], k, j, v.places[a])
    }

    /** One more block on the list. */
    lemma FillOne(v: View, i: nat, h: map<Addr, Header>, head: Addr, f: seq<Addr>, k: nat, j: nat)
      requires PoolOk(v) && i < SLOTS && Filling(v, i, h, head, f, k, j) && k < |v.chunks[i]| && j < v.count
      ensures var a := BlockAt(Place(i, v.chunks[i][k], j));
              a in v.places && v.places[a].slot == i && Filling(v, i, h[a := Free(head)], a, [a] + f, k, j + 1)
    {
      hide LargeOk, InUse, LiveCount, HeldOk, LiveOk, Offset, BlockSize, Total, Chain, ChunkChain, Listed;
      var c := v.chunks[i][k];
      var p := Place(i, c, j);
      var a := BlockAt(p);
      assert SlotOk(v, i);
      assert c in v.chunks[i];
      assert a in v.places && v.places[a] == p;
      NotListedYet(v.chunks[i], k, j, p);
      ChainEnd(h, head, f, a, i);
      NoRepeatsBoth([a], f);
      forall b ensures b in [a] + f <==> b in v.places && v.places[b].slot == i && Listed(v.chunks[i], k, j + 1, v.places[b]) {
        if b in v.places && v.places[b].slot == i {
          assert PlaceOk(v, b);
          ListedNext(v.chunks[i], k, j, v.places[b]);
        }
        assert b in [a] + f <==> b == a || b in f;
      }
    }

    lemma NotListedYet(chunks: seq<Addr>, k: nat, j: nat, p: Place)
      requires NoRepeats(chunks) && k < |chunks| && p.chunk == chunks[k] && p.index == j
      ensures !Listed(chunks, k, j, p)
    {
    }

    lemma ListedNext(chunks: seq<Addr>, k: nat, j: nat, p: Place)
      requires k < |chunks|
      ensures Listed(chunks, k, j + 1, p) <==> Listed(chunks, k, j, p) || (p.chunk == chunks[k] && p.index == j)
    {
    }

    /** A chunk is done when all its blocks are. */
    lemma FillChunk(v: View, i: nat, h: map<Addr, Header>, head: Addr, f: seq<Addr>, k: nat)
      requires PoolOk(v) && i < SLOTS && Filling(v, i, h, head, f, k, v.count) && k < |v.chunks[i]|
      ensures Filling(v, i, h, head, f, k + 1, 0)
    {
      hide LargeOk, InUse, LiveCount, HeldOk, LiveOk, SlotOk, BlockAt, Chain, Total;
      MoreTotal(k, v.count);
      var cs := v.chunks[i];
      assert cs[..k + 1] == cs[..k] + [cs[k]];
      forall a | a in v.places && v.places[a].slot == i
        ensures Listed(cs, k, v.count, v.places[a]) <==> Listed(cs, k + 1, 0, v.places[a])
      {
        assert PlaceOk(v, a);
      }
    }

    lemma FillDone(v: View, i: nat, h: map<Addr, Header>, head: Addr, f: seq<Addr>)
      requires PoolOk(v) && i < SLOTS && Filling(v, i, h, head, f, |v.chunks[i]|, 0)
      ensures v.slots[i].total == |f| && forall a :: a in f <==> a in v.places && v.places[a].slot == i
    {
      hide LargeOk, InUse, LiveCount, HeldOk, LiveOk, BlockAt, Chain, Total;
      assert SlotOk(v, i);
      var cs := v.chunks[i];
      assert cs[..|cs|] == cs;
      forall a | a in v.places && v.places[a].slot == i ensures Listed(cs, |cs|, 0, v.places[a]) {
        assert PlaceOk(v, a);
      }
    }

    /** The rebuilding of one slot's free list from its chunks; v is the pool as it was before the reset. */
    method ResetSlot(i: nat, ghost v: View)
      requires PoolOk(v) && Sizes(V()) && i < SLOTS
      requires v.count == count && v.chunks == chunks && v.chunkNext == chunkNext && v.places == places && v.slots[i] == slots[i]
      modifies `slots, `hdr, `free
      ensures Sizes(V()) && Refilled(V(), i)
      ensures slots == old(slots)[i := slots[i]] && free == old(free)[i := free[i]]
      ensures slots[i].chunks == old(slots[i].chunks) && slots[i].total == old(slots[i].total)
      ensures forall a | a in old(hdr) && !(a in places && places[a].slot == i) :: a in hdr && hdr[a] == old(hdr)[a]
    {
      hide PoolOk, Filling, Offset, BlockSize, Chain, ChunkChain, Total, Listed;
      ghost var f: seq<Addr> := [];
      var head: Addr := NULL;
      var chunk := slots[i].chunks;
      ghost var k := 0;
      StartFill(v, i, hdr);
      ChunkHead(v, i);
      while chunk != NULL
        invariant k <= |chunks[i]| && chunk == Nth(chunks[i], k)
        invariant slots == old(slots) && free == old(free)
        invariant Filling(v, i, hdr, head, f, k, 0)
        invariant forall a | a in old(hdr) && !(a in places && places[a].slot == i) :: a in hdr && hdr[a] == old(hdr)[a]
        decreases |chunks[i]| - k
      {
        NextChunk(v, i, k);
        NoOffset(i);
        var ptr := chunk + CHUNK;
        for j := 0 to count
          invariant ptr == BlockAt(Place(i, chunk, j))
          invariant slots == old(slots) && free == old(free)
          invariant Filling(v, i, hdr, head, f, k, j)
          invariant forall a | a in old(hdr) && !(a in places && places[a].slot == i) :: a in hdr && hdr[a] == old(hdr)[a]
        {
          FillOne(v, i, hdr, head, f, k, j);
          hdr := hdr[ptr := Free(head)];
          f := [ptr] + f;
          head := ptr;
          NextOffset(i, j);
          ptr := ptr + BlockSize(i);
        }
        FillChunk(v, i, hdr, head, f, k);
        chunk := chunkNext[chunk];
        k := k + 1;
      }
      if k < |chunks[i]| { ChunkNotNull(v, i, k); }
      FillDone(v, i, hdr, head, f);
      slots := slots[i := slots[i].(head := head, free := slots[i].total)];
      free := free[i := f];
      FillGives(v, i, hdr, head, f, k);
    }

    lemma StartFill(v: View, i: nat, h: map<Addr, Header>)
      requires PoolOk(v) && i < SLOTS
      ensures Filling(v, i, h, NULL, [], 0, 0)
    {
    }

    lemma FillGives(v: View, i: nat, h: map<Addr, Header>, head: Addr, f: seq<Addr>, k: nat)
      requires Sizes(v) && i < SLOTS && Filling(v, i, h, head, f, k, 0)
      ensures Chain(h, head, f) && NoRepeats(f)
    {
    }

    lemma ChunkHead(v: View, i: nat)
      requires PoolOk(v) && i < SLOTS
      ensures Sizes(v) && v.slots[i].chunks == Nth(v.chunks[i], 0)
    {
      assert SlotOk(v, i);
    }

    lemma ChunkNotNull(v: View, i: nat, k: nat)
      requires PoolOk(v) && i < SLOTS && k < |v.chunks[i]|
      ensures Nth(v.chunks[i], k) != NULL
    {
      assert SlotOk(v, i);
      ChunkAt(v.chunkNext, v.slots[i].chunks, v.chunks[i], k);
    }

    lemma NextChunk(v: View, i: nat, k: nat)
      requires PoolOk(v) && i < SLOTS && k <= |v.chunks[i]| && Nth(v.chunks[i], k) != NULL
      ensures k < |v.chunks[i]| && v.chunks[i][k] in v.chunkNext && v.chunkNext[v.chunks[i][k]] == Nth(v.chunks[i], k + 1)
    {
      assert SlotOk(v, i);
      ChunkAt(v.chunkNext, v.slots[i].chunks, v.chunks[i], k);
    }

    /** vox_mpool_reset: nothing is in use any more, and every block ever carved is free again. */
    method Reset()
      requires Valid()
      modifies this
      ensures Valid() && live == map[] && used == 0 && data == old(data)
      ensures held == WithoutLarges(old(held), old(larges))
      ensures places == old(places) && forall i | 0 <= i < SLOTS :: slots[i].free == slots[i].total == old(slots[i].total)
    {
      hide PoolOk, Refilled;
      ghost var v := V();
      SizesHold(v);
      FreeAllLarge();
      larges := [];
      held := WithoutLarges(held, v.larges);
      live := map[];
      ResetSlots(v);
      ghost var w := V();
      used := 0;
      forall i | 0 <= i < SLOTS ensures Refilled(V(), i) && slots[i].free == slots[i].total {
        StillRefilled(w, V(), if i == 0 then 1 else 0, i);
        RefilledCount(V(), i);
      }
      ResetOk(v, V());
    }

    /** The loop of vox_mpool_reset over the slots; v is the pool as it was before the reset. */
    method ResetSlots(ghost v: View)
      requires PoolOk(v) && Sizes(V()) && v.count == count && v.slots == slots
      requires v.chunks == chunks && v.chunkNext == chunkNext && v.places == places
      modifies `slots, `hdr, `free
      ensures Sizes(V())
      ensures forall j | 0 <= j < SLOTS :: Refilled(V(), j) && slots[j].chunks == v.slots[j].chunks && slots[j].total == v.slots[j].total
    {
      hide PoolOk, Refilled;
      for i := 0 to SLOTS
        invariant Sizes(V())
        invariant forall j | i <= j < SLOTS :: slots[j] == v.slots[j]
        invariant forall j | 0 <= j < i :: Refilled(V(), j) && slots[j].chunks == v.slots[j].chunks && slots[j].total == v.slots[j].total
      {
        ghost var before := V();
        ResetSlot(i, v);
        forall j | 0 <= j < i ensures Refilled(V(), j) {
          StillRefilled(before, V(), i, j);
        }
      }
    }

    lemma RefilledCount(v: View, i: nat)
      requires Sizes(v) && i < SLOTS && Refilled(v, i)
      ensures v.slots[i].free == v.slots[i].total
    {
    }

    lemma StillRefilled(b: View, v: View, i: nat, j: nat)
      requires Sizes(b) && Sizes(v) && i < SLOTS && j < SLOTS && i != j && Refilled(b, j)
      requires v.slots[j] == b.slots[j] && v.free[j] == b.free[j] && v.places == b.places
      requires forall a | a in b.hdr && !(a in b.places && b.places[a].slot == i) :: a in v.hdr && v.hdr[a] == b.hdr[a]
      ensures Refilled(v, j)
    {
      hide Chain;
      ChainSame(b.hdr, v.hdr, b.slots[j].head, b.free[j]);
    }
  }
}
