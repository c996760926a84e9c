/**
 The memory that the allocator of vox_mpool.c manages: chunks cut into equal blocks, free lists threaded through the
 blocks, large blocks on a doubly linked list, and what must hold between them.

 Memory outside the pool's own record is kept by address: the first eight bytes of a block hold either the link of a
 free list or the block's slot number.
 */
module PoolModel {

  type Addr = nat

  const NULL: Addr := 0
  const SLOTS := 10
  const LARGE := 255

  /** sizeof(vox_block_meta_t), sizeof(vox_chunk_t), sizeof(vox_large_block_header_t) */
  const META := 8
  const CHUNK := 24
  const LARGE_HEADER := 16

  const SIZE_MAX := 0xFFFF_FFFF_FFFF_FFFF

  function UserSize(i: nat): (n: nat)
    requires i < SLOTS
    ensures n % 16 == 0 && 16 <= n <= 8192
  {
    [16, 32, 64, 128, 256, 512, 1024, 2048, 4096, 8192][i]
  }

  /** The sizes run from 16 bytes to 8192, each twice the one before. */
  lemma SizesDouble(i: nat)
    requires i < SLOTS
    ensures UserSize(0) == 16 && UserSize(SLOTS - 1) == 8192 && (i > 0 ==> UserSize(i) == 2 * UserSize(i - 1))
  {
  }

  function BlockSize(i: nat): (n: nat)
    requires i < SLOTS
    ensures n % 8 == 0 && 24 <= n <= 8200
  {
    UserSize(i) + META
  }

  /** How far the j-th block of a chunk is from the first. */
  function Offset(i: nat, j: nat): nat
    requires i < SLOTS
  {
    j * BlockSize(i)
  }

  /** The blocks in n chunks. */
  function Total(n: nat, count: nat): nat { n * count }

  /** vox_mpool_get_slot_index: the least slot that fits, or -1. */
  function SlotIndex(size: nat): (i: int)
    ensures -1 <= i < SLOTS
    ensures i >= 0 ==> size <= UserSize(i) && (i > 0 ==> UserSize(i - 1) < size)
    ensures i < 0 <==> size > 8192
  {
    if size <= 16 then 0
    else if size <= 32 then 1
    else if size <= 64 then 2
    else if size <= 128 then 3
    else if size <= 256 then 4
    else if size <= 512 then 5
    else if size <= 1024 then 6
    else if size <= 2048 then 7
    else if size <= 4096 then 8
    else if size <= 8192 then 9
    else -1
  }

  datatype Slot = Slot(head: Addr, chunks: Addr, total: nat, free: nat)

  datatype Header = Free(next: Addr) | Meta(slot: nat)

  datatype Big = Big(next: Addr, prev: Addr, size: nat)

  /** A block in use: its slot, or LARGE, and the bytes that its owner may use. */
  datatype Block = Block(slot: nat, size: nat)

  /** Which block of which chunk of which slot lies at an address. */
  datatype Place = Place(slot: nat, chunk: Addr, index: nat)

  /**
   The pool and its memory, with ghost bookkeeping: the free lists, chunk lists and the list of large blocks in order, the
   blocks in use by the address of their meta field, the regions held from malloc, and the place of every block.
   */
  datatype View = View(
    count: nat, slots: seq<Slot>, hdr: map<Addr, Header>, chunkNext: map<Addr, Addr>, bigs: map<Addr, Big>, large: Addr,
    used: nat,
    free: seq<seq<Addr>>, chunks: seq<seq<Addr>>, larges: seq<Addr>, live: map<Addr, Block>, held: map<Addr, nat>,
    places: map<Addr, Place>)

  // ---------- Lists ----------

  /** A free list threaded through block headers. */
  ghost predicate Chain(hdr: map<Addr, Header>, head: Addr, s: seq<Addr>)
    decreases |s|
  {
    if s == [] then head == NULL
    else head == s[0] && head != NULL && head in hdr && hdr[head].Free? && Chain(hdr, hdr[head].next, s[1..])
  }

  ghost predicate ChunkChain(next: map<Addr, Addr>, head: Addr, s: seq<Addr>)
    decreases |s|
  {
    if s == [] then head == NULL
    else head == s[0] && head != NULL && head in next && ChunkChain(next, next[head], s[1..])
  }

  function Nth(s: seq<Addr>, j: int): Addr { if 0 <= j < |s| then s[j] else NULL }

  /** The doubly linked list of large blocks. */
  ghost predicate BigChain(bigs: map<Addr, Big>, head: Addr, s: seq<Addr>) {
    head == Nth(s, 0) && forall j {:trigger BigNode(bigs, s, j)} | 0 <= j < |s| :: BigNode(bigs, s, j)
  }

  /** The j-th node of the list points to its neighbours. */
  ghost predicate BigNode(bigs: map<Addr, Big>, s: seq<Addr>, j: nat)
    requires j < |s|
  {
    s[j] in bigs && s[j] != NULL && bigs[s[j]].next == Nth(s, j + 1) && bigs[s[j]].prev == Nth(s, j - 1)
  }

  ghost predicate NoRepeats(s: seq<Addr>) {
    forall k, l | 0 <= k < l < |s| :: s[k] != s[l]
  }

  lemma {:induction false} ChainKept(hdr: map<Addr, Header>, head: Addr, s: seq<Addr>, a: Addr, h: Header)
    requires Chain(hdr, head, s) && a !in s
    ensures Chain(hdr[a := h], head, s)
    decreases |s|
  {
    if s != [] {
      assert forall b | b in s[1..] :: b in s;
      ChainKept(hdr, hdr[head].next, s[1..], a, h);
    }
  }

  lemma {:induction false} ChunkChainKept(next: map<Addr, Addr>, head: Addr, s: seq<Addr>, a: Addr, n: Addr)
    requires ChunkChain(next, head, s) && a !in s
    ensures ChunkChain(next[a := n], head, s)
    decreases |s|
  {
    if s != [] {
      assert forall b | b in s[1..] :: b in s;
      ChunkChainKept(next, next[head], s[1..], a, n);
    }
  }

  // ---------- What holds of the pool ----------

  /** The address of a block. */
  function BlockAt(p: Place): Addr
    requires p.slot < SLOTS
  {
    p.chunk + CHUNK + Offset(p.slot, p.index)
  }

  ghost predicate Disjoint(a: Addr, n: nat, b: Addr, m: nat) { a + n <= b || b + m <= a }

  /** Regions from malloc are aligned and do not overlap. */
  ghost predicate HeldOk(held: map<Addr, nat>) {
    && (forall r | r in held :: r > 0 && r % 16 == 0 && held[r] > 0)
    && forall r, q | r in held && q in held && r != q :: Disjoint(r, held[r], q, held[q])
  }

  ghost predicate Sizes(v: View) {
    |v.slots| == |v.free| == |v.chunks| == SLOTS && v.count > 0
  }

  /** Slot i: its lists, their counts, and that its free list holds free blocks of its own, none twice. */
  ghost predicate SlotOk(v: View, i: nat)
    requires Sizes(v) && i < SLOTS
  {
    var s := v.slots[i];
    && Chain(v.hdr, s.head, v.free[i]) && s.free == |v.free[i]|
    && ChunkChain(v.chunkNext, s.chunks, v.chunks[i]) && s.total == Total(|v.chunks[i]|, v.count)
    && NoRepeats(v.free[i]) && NoRepeats(v.chunks[i])
    && (forall a | a in v.free[i] :: a in v.places && v.places[a].slot == i && a !in v.live)
    && (forall c | c in v.chunks[i] :: c in v.held && v.held[c] == CHUNK + Offset(i, v.count))
    && (forall c, j | c in v.chunks[i] && 0 <= j < v.count ::
          BlockAt(Place(i, c, j)) in v.places && v.places[BlockAt(Place(i, c, j))] == Place(i, c, j))
  }

  /** A carved block lies where its place says, in a chunk of its slot, and is in use or on the free list. */
  ghost predicate PlaceOk(v: View, a: Addr)
    requires Sizes(v) && a in v.places
  {
    var p := v.places[a];
    && p.slot < SLOTS && p.index < v.count && p.chunk in v.chunks[p.slot] && a == BlockAt(p)
    && (a in v.live <==> a !in v.free[p.slot])
  }

  /** A block in use bears its slot number; a large one is on the list of large blocks. */
  ghost predicate LiveOk(v: View, a: Addr)
    requires Sizes(v) && a in v.live
  {
    var b := v.live[a];
    && a in v.hdr && v.hdr[a] == Meta(b.slot)
    && if b.slot == LARGE then
         a >= CHUNK + LARGE_HEADER && a - CHUNK - LARGE_HEADER in v.larges && a - CHUNK - LARGE_HEADER in v.bigs
         && v.bigs[a - CHUNK - LARGE_HEADER].size == b.size > 8192
       else b.slot < SLOTS && a in v.places && v.places[a].slot == b.slot && b.size == UserSize(b.slot)
  }

  ghost predicate LargeOk(v: View) {
    && BigChain(v.bigs, v.large, v.larges) && NoRepeats(v.larges)
    && forall c | c in v.larges ::
         && c in v.bigs && c in v.held && v.held[c] == CHUNK + LARGE_HEADER + META + v.bigs[c].size
         && c + CHUNK + LARGE_HEADER in v.live && v.live[c + CHUNK + LARGE_HEADER].slot == LARGE
         && forall i | 0 <= i < |v.chunks| :: c !in v.chunks[i]
  }

  /** The sum of the sizes of the blocks in use. */
  ghost function InUse(live: map<Addr, Block>): nat
    decreases |live|
  {
    if |live| == 0 then 0
    else
      var a := AnyOf(live);
      live[a].size + InUse(live - {a})
  }

  ghost function AnyOf(live: map<Addr, Block>): (a: Addr)
    requires |live| > 0
    ensures a in live
  {
    var a :| a in live.Keys;
    a
  }

  /** How many of the blocks in use belong to slot i. */
  ghost function LiveCount(live: map<Addr, Block>, i: nat): nat {
    |OfSlot(live, i)|
  }

  ghost predicate PoolOk(v: View) {
    && Sizes(v) && HeldOk(v.held) && LargeOk(v)
    && (forall i | 0 <= i < SLOTS :: SlotOk(v, i) && v.slots[i].total == v.slots[i].free + LiveCount(v.live, i))
    && (forall i, j, c | 0 <= i < j < SLOTS && c in v.chunks[i] :: c !in v.chunks[j])
    && (forall a {:trigger PlaceOk(v, a)} | a in v.places :: PlaceOk(v, a))
    && (forall a {:trigger LiveOk(v, a)} | a in v.live :: LiveOk(v, a))
    && v.used == InUse(v.live)
  }

  // ---------- Sums ----------

  lemma {:induction false} InUseWithout(live: map<Addr, Block>, a: Addr)
    requires a in live
    ensures InUse(live) == InUse(live - {a}) + live[a].size
    decreases |live|
  {
    var b := AnyOf(live);
    Smaller(live, a);
    Smaller(live, b);
    if a != b {
      InUseWithout(live - {b}, a);
      InUseWithout(live - {a}, b);
      assert live - {a} - {b} == live - {b} - {a};
    }
  }

  lemma Smaller(live: map<Addr, Block>, a: Addr)
    requires a in live
    ensures |live - {a}| == |live| - 1
  {
    assert (live - {a}).Keys == live.Keys - {a};
    assert |live.Keys| == |live| && |(live - {a}).Keys| == |live - {a}|;
  }

  lemma InUseWith(live: map<Addr, Block>, a: Addr, b: Block)
    requires a !in live
    ensures InUse(live[a := b]) == InUse(live) + b.size
  {
    InUseWithout(live[a := b], a);
    assert live[a := b] - {a} == live;
  }

  ghost function OfSlot(live: map<Addr, Block>, i: nat): set<Addr> {
    set a | a in live && live[a].slot == i
  }

  lemma CountWith(live: map<Addr, Block>, a: Addr, b: Block, i: nat)
    requires a !in live
    ensures LiveCount(live[a := b], i) == LiveCount(live, i) + if b.slot == i then 1 else 0
  {
    var t := live[a := b];
    assert LiveCount(t, i) == |OfSlot(t, i)| && LiveCount(live, i) == |OfSlot(live, i)|;
    if b.slot == i {
      assert OfSlot(t, i) == OfSlot(live, i) + {a};
    } else {
      assert OfSlot(t, i) == OfSlot(live, i);
    }
  }

  lemma CountWithout(live: map<Addr, Block>, a: Addr, i: nat)
    requires a in live
    ensures LiveCount(live, i) == LiveCount(live - {a}, i) + if live[a].slot == i then 1 else 0
  {
    CountWith(live - {a}, a, live[a], i);
    assert (live - {a})[a := live[a]] == live;
  }

  // ---------- Where blocks lie ----------

  lemma {:induction false} OffsetGrows(i: nat, j: nat, k: nat)
    requires i < SLOTS && j < k
    ensures Offset(i, j) + BlockSize(i) <= Offset(i, k)
    decreases k
  {
    OneMore(j, BlockSize(i));
    if j + 1 < k {
      OneMore(k - 1, BlockSize(i));
      OffsetGrows(i, j, k - 1);
    }
  }

  lemma OneMore(j: nat, n: nat)
    ensures (j + 1) * n == j * n + n
  {
  }

  lemma OffsetAligned(i: nat, j: nat)
    requires i < SLOTS
    ensures Offset(i, j) % 8 == 0
  {
    hide BlockSize;
    var n := BlockSize(i);
    assert n == 8 * (n / 8);
    assert j * n == 8 * (j * (n / 8));
  }

  /** A block lies inside its chunk. */
  lemma PlaceInside(v: View, a: Addr)
    requires PoolOk(v) && a in v.places
    ensures var p := v.places[a];
            p.slot < SLOTS && p.chunk in v.held && p.chunk + CHUNK <= a
            && a + BlockSize(p.slot) <= p.chunk + v.held[p.chunk] && a % 8 == 0 && a > 0
  {
    hide PoolOk, Offset, UserSize;
    var p := PlaceParts(v, a);
    OffsetGrows(p.slot, p.index, v.count);
    OffsetAligned(p.slot, p.index);
  }

  lemma PlaceParts(v: View, a: Addr) returns (p: Place)
    requires PoolOk(v) && a in v.places
    ensures p == v.places[a] && p.slot < SLOTS && p.index < v.count && a == p.chunk + CHUNK + Offset(p.slot, p.index)
    ensures p.chunk in v.held && v.held[p.chunk] == CHUNK + Offset(p.slot, v.count) && p.chunk % 16 == 0 && p.chunk > 0
  {
    hide Offset, BlockSize, LargeOk, InUse, LiveCount, LiveOk, Chain, ChunkChain, NoRepeats, Total;
    assert PlaceOk(v, a);
    p := v.places[a];
    assert SlotOk(v, p.slot);
  }

  /** The region that a block in use lies in. */
  function Region(v: View, a: Addr): Addr
    requires a in v.live && (v.live[a].slot != LARGE ==> a in v.places)
  {
    if v.live[a].slot == LARGE then if a >= CHUNK + LARGE_HEADER then a - CHUNK - LARGE_HEADER else 0 else v.places[a].chunk
  }

  lemma LiveInside(v: View, a: Addr)
    requires PoolOk(v) && a in v.live
    ensures v.live[a].slot != LARGE ==> a in v.places
    ensures var r := Region(v, a); r in v.held && r + CHUNK <= a && a + META + v.live[a].size <= r + v.held[r]
    ensures a % 8 == 0 && a > 0
  {
    hide SlotOk, PlaceOk, LargeOk, HeldOk, InUse, LiveCount, UserSize;
    assert LiveOk(v, a);
    if v.live[a].slot == LARGE {
      LargeInside(v, Region(v, a));
    } else {
      PlaceInside(v, a);
    }
  }

  lemma LargeInside(v: View, c: Addr)
    requires PoolOk(v) && c in v.larges
    ensures c in v.held && c in v.bigs && v.held[c] == CHUNK + LARGE_HEADER + META + v.bigs[c].size && c % 16 == 0 && c > 0
  {
    hide SlotOk, PlaceOk, LiveOk, BigChain, InUse, LiveCount;
  }

  /** No two blocks in use share a byte, and all of them are aligned to eight bytes. */
  lemma LiveApart(v: View, a: Addr, b: Addr)
    requires PoolOk(v) && a in v.live && b in v.live && a != b
    ensures Disjoint(a, META + v.live[a].size, b, META + v.live[b].size)
    ensures a % 8 == 0 && b % 8 == 0
  {
    hide SlotOk, BigChain, InUse, LiveCount, UserSize, Offset;
    LiveInside(v, a);
    LiveInside(v, b);
    assert LiveOk(v, a) && LiveOk(v, b);
    if Region(v, a) == Region(v, b) {
      SameRegion(v, a, b);
      var p, q := v.places[a], v.places[b];
      assert PlaceOk(v, a) && PlaceOk(v, b);
      if p.index < q.index {
        OffsetGrows(p.slot, p.index, q.index);
      } else if q.index < p.index {
        OffsetGrows(q.slot, q.index, p.index);
      }
    }
  }

  /** Blocks in one region are small, and of one slot. */
  lemma SameRegion(v: View, a: Addr, b: Addr)
    requires PoolOk(v) && a in v.live && b in v.live && a != b
    requires (v.live[a].slot != LARGE ==> a in v.places) && (v.live[b].slot != LARGE ==> b in v.places)
    requires Region(v, a) == Region(v, b)
    ensures v.live[a].slot != LARGE && v.live[b].slot != LARGE && v.places[a].slot == v.places[b].slot < SLOTS
  {
    hide SlotOk, BigChain, InUse, LiveCount, UserSize;
    assert LiveOk(v, a) && LiveOk(v, b);
    if v.live[a].slot != LARGE { assert PlaceOk(v, a); }
    if v.live[b].slot != LARGE { assert PlaceOk(v, b); }
    if v.live[a].slot != LARGE && v.live[b].slot != LARGE {
      SameSlot(v, v.places[a].slot, v.places[b].slot, v.places[a].chunk);
    }
  }

  lemma SameSlot(v: View, i: nat, j: nat, c: Addr)
    requires PoolOk(v) && i < SLOTS && j < SLOTS && c in v.chunks[i] && c in v.chunks[j]
    ensures i == j
  {
  }

  // ---------- Taking a block from a free list ----------

  function Taken(v: View, i: nat): View
    requires Sizes(v) && i < SLOTS && v.free[i] != []
  {
    var a := v.free[i][0];
    var next := if a in v.hdr && v.hdr[a].Free? then v.hdr[a].next else NULL;
    v.(slots := v.slots[i := v.slots[i].(head := next, free := |v.free[i]| - 1)],
       hdr := v.hdr[a := Meta(i)], free := v.free[i := v.free[i][1..]],
       live := v.live[a := Block(i, UserSize(i))], used := v.used + UserSize(i))
  }

  lemma TakenSlot(v: View, i: nat, j: nat)
    requires PoolOk(v) && i < SLOTS && v.free[i] != [] && j < SLOTS
    ensures SlotOk(Taken(v, i), j)
  {
    hide LiveOk, LargeOk, InUse, LiveCount, HeldOk, UserSize, BlockSize, Offset, Total;
    var a := v.free[i][0];
    assert SlotOk(v, i) && SlotOk(v, j);
    if j == i {
      ChainKept(v.hdr, v.hdr[a].next, v.free[i][1..], a, Meta(i));
    } else {
      assert a !in v.free[j];
      ChainKept(v.hdr, v.slots[j].head, v.free[j], a, Meta(i));
    }
  }

  lemma TakenOk(v: View, i: nat)
    requires PoolOk(v) && i < SLOTS && v.free[i] != []
    ensures PoolOk(Taken(v, i))
    ensures v.free[i][0] !in v.live && v.used + UserSize(i) == InUse(v.live[v.free[i][0] := Block(i, UserSize(i))])
  {
    hide SlotOk, PlaceOk, LiveOk, LargeOk, HeldOk, UserSize, InUse, LiveCount;
    var v', a := Taken(v, i), v.free[i][0];
    FirstFree(v, i);
    InUseWith(v.live, a, Block(i, UserSize(i)));
    forall j | 0 <= j < SLOTS ensures SlotOk(v', j) && v'.slots[j].total == v'.slots[j].free + LiveCount(v'.live, j) {
      TakenSlot(v, i, j);
      CountWith(v.live, a, Block(i, UserSize(i)), j);
    }
    forall b | b in v'.places ensures PlaceOk(v', b) { TakenPlace(v, i, b); }
    forall b | b in v'.live ensures LiveOk(v', b) { TakenLive(v, i, b); }
    TakenLarges(v, i);
  }

  lemma TakenLive(v: View, i: nat, b: Addr)
    requires PoolOk(v) && i < SLOTS && v.free[i] != [] && b in Taken(v, i).live
    ensures LiveOk(Taken(v, i), b)
  {
    hide SlotOk, PlaceOk, HeldOk, UserSize, InUse, LiveCount;
    FirstFree(v, i);
    if b != v.free[i][0] { assert LiveOk(v, b); }
  }

  lemma TakenLarges(v: View, i: nat)
    requires PoolOk(v) && i < SLOTS && v.free[i] != []
    ensures LargeOk(Taken(v, i))
  {
    hide SlotOk, PlaceOk, HeldOk, LiveOk, BigChain, UserSize, InUse, LiveCount, NoRepeats;
    FirstFree(v, i);
    forall c | c in v.larges ensures c + CHUNK + LARGE_HEADER != v.free[i][0] { LargeNotFree(v, c); }
  }

  lemma TakenPlace(v: View, i: nat, b: Addr)
    requires PoolOk(v) && i < SLOTS && v.free[i] != [] && b in v.places
    ensures PlaceOk(Taken(v, i), b)
  {
    hide SlotOk, HeldOk, LargeOk, LiveOk, UserSize, BlockAt, InUse, LiveCount;
    FirstFree(v, i);
    assert PlaceOk(v, b);
    assert v.free[i] == [v.free[i][0]] + v.free[i][1..];
  }

  lemma FirstFree(v: View, i: nat)
    requires PoolOk(v) && i < SLOTS && v.free[i] != []
    ensures var a := v.free[i][0];
            a in v.places && v.places[a].slot == i && a !in v.live && v.slots[i].free == |v.free[i]| && a !in v.free[i][1..]
            && v.slots[i].head == a && a in v.hdr && v.hdr[a].Free?
  {
    assert SlotOk(v, i);
  }

  lemma LargeNotFree(v: View, c: Addr)
    requires PoolOk(v) && c in v.larges
    ensures c + CHUNK + LARGE_HEADER in v.live
  {
  }

  // ---------- Giving a block back ----------

  function Given(v: View, a: Addr): View
    requires Sizes(v) && a in v.live && v.live[a].slot < SLOTS
  {
    var i := v.live[a].slot;
    v.(slots := v.slots[i := v.slots[i].(head := a, free := |v.free[i]| + 1)],
       hdr := v.hdr[a := Free(v.slots[i].head)], free := v.free[i := [a] + v.free[i]],
       live := v.live - {a}, used := if v.used >= v.live[a].size then v.used - v.live[a].size else 0)
  }

  lemma GivenSlot(v: View, a: Addr, j: nat)
    requires PoolOk(v) && a in v.live && v.live[a].slot < SLOTS && j < SLOTS
    ensures SlotOk(Given(v, a), j)
  {
    hide LargeOk, InUse, LiveCount, HeldOk, UserSize, BlockSize, Offset, Total;
    assert LiveOk(v, a) && PlaceOk(v, a);
    var i := v.live[a].slot;
    assert SlotOk(v, i) && SlotOk(v, j);
    ChainKept(v.hdr, v.slots[j].head, v.free[j], a, Free(v.slots[i].head));
    if j == i {
      assert ([a] + v.free[i])[1..] == v.free[i];
    }
  }

  lemma GivenOk(v: View, a: Addr)
    requires PoolOk(v) && a in v.live && v.live[a].slot < SLOTS
    ensures PoolOk(Given(v, a)) && v.used >= v.live[a].size
  {
    hide SlotOk, BigChain, Chain, ChunkChain, UserSize, BlockAt, InUse, LiveCount;
    var v' := Given(v, a);
    var i := v.live[a].slot;
    assert LiveOk(v, a) && PlaceOk(v, a);
    InUseWithout(v.live, a);
    forall j | 0 <= j < SLOTS ensures SlotOk(v', j) && v'.slots[j].total == v'.slots[j].free + LiveCount(v'.live, j) {
      GivenSlot(v, a, j);
      CountWithout(v.live, a, j);
      FreeCount(v, j);
    }
    forall b | b in v'.places ensures PlaceOk(v', b) {
      assert PlaceOk(v, b);
      assert b in [a] + v.free[i] <==> b == a || b in v.free[i];
    }
    forall b | b in v'.live ensures LiveOk(v', b) {
      assert LiveOk(v, b);
    }
    forall c | c in v.larges ensures c + CHUNK + LARGE_HEADER != a {
      assert v.live[c + CHUNK + LARGE_HEADER].slot == LARGE;
    }
  }

  lemma FreeCount(v: View, j: nat)
    requires PoolOk(v) && j < SLOTS
    ensures v.slots[j].free == |v.free[j]|
  {
    assert SlotOk(v, j);
  }

  // ---------- Large blocks ----------

  /** What malloc grants: an aligned region apart from all that are held. */
  ghost predicate Grants(v: View, r: Addr, n: nat) {
    r > 0 && r % 16 == 0 && forall q | q in v.held :: Disjoint(r, n, q, v.held[q])
  }

  function LargeAdded(v: View, c: Addr, size: nat): View {
    var bigs := if v.large != NULL && v.large in v.bigs then v.bigs[v.large := v.bigs[v.large].(prev := c)] else v.bigs;
    v.(bigs := bigs[c := Big(v.large, NULL, size)], large := c, larges := [c] + v.larges,
       hdr := v.hdr[c + CHUNK + LARGE_HEADER := Meta(LARGE)],
       live := v.live[c + CHUNK + LARGE_HEADER := Block(LARGE, size)],
       held := v.held[c := CHUNK + LARGE_HEADER + META + size], used := v.used + size)
  }

  /** A granted region holds nothing that the pool knows of. */
  lemma GrantIsFresh(v: View, r: Addr, n: nat, a: Addr)
    requires PoolOk(v) && Grants(v, r, n) && r + CHUNK <= a < r + n
    ensures a !in v.places && a !in v.live && r !in v.held && r !in v.larges
    ensures forall i | 0 <= i < SLOTS :: a !in v.free[i] && r !in v.chunks[i]
  {
    hide BigChain, InUse, LiveCount, UserSize, BlockAt, Chain, ChunkChain, PlaceOk, LiveOk;
    if a in v.places { PlaceInside(v, a); }
    if a in v.live { LiveInside(v, a); }
    forall i | 0 <= i < SLOTS ensures a !in v.free[i] && r !in v.chunks[i] {
      assert SlotOk(v, i);
    }
  }

  lemma HeldMore(v: View, r: Addr, n: nat)
    requires HeldOk(v.held) && Grants(v, r, n) && n > 0
    ensures HeldOk(v.held[r := n])
  {
  }

  lemma BigPushed(bigs: map<Addr, Big>, head: Addr, s: seq<Addr>, c: Addr, size: nat)
    requires BigChain(bigs, head, s) && NoRepeats(s) && c !in s && c != NULL
    ensures var b1 := if head != NULL && head in bigs then bigs[head := bigs[head].(prev := c)] else bigs;
            BigChain(b1[c := Big(head, NULL, size)], c, [c] + s) && NoRepeats([c] + s)
  {
    var b1 := if head != NULL && head in bigs then bigs[head := bigs[head].(prev := c)] else bigs;
    var b2 := b1[c := Big(head, NULL, size)];
    var t := [c] + s;
    forall j | 0 <= j < |t| ensures BigNode(b2, t, j) {
      if j > 0 {
        assert t[j] == s[j - 1] && BigNode(bigs, s, j - 1);
      } else if head != NULL {
        assert BigNode(bigs, s, 0);
      }
    }
  }

  lemma LargeSlot(v: View, c: Addr, size: nat, j: nat)
    requires size > 8192
    requires PoolOk(v) && Grants(v, c, CHUNK + LARGE_HEADER + META + size) && j < SLOTS
    ensures SlotOk(LargeAdded(v, c, size), j)
  {
    hide LargeOk, InUse, LiveCount, HeldOk, UserSize, BlockSize, Offset, Total, Grants;
    var a := c + CHUNK + LARGE_HEADER;
    GrantIsFresh(v, c, CHUNK + LARGE_HEADER + META + size, a);
    assert SlotOk(v, j);
    ChainKept(v.hdr, v.slots[j].head, v.free[j], a, Meta(LARGE));
  }

  lemma LargeAddedOk(v: View, c: Addr, size: nat)
    requires size > 8192
    requires PoolOk(v) && Grants(v, c, CHUNK + LARGE_HEADER + META + size)
    ensures PoolOk(LargeAdded(v, c, size)) && c + CHUNK + LARGE_HEADER !in v.live
  {
    hide SlotOk, LargeOk, BigChain, Chain, ChunkChain, UserSize, BlockAt, InUse, LiveCount, LiveOk, HeldOk, Grants;
    var v' := LargeAdded(v, c, size);
    var a := c + CHUNK + LARGE_HEADER;
    GrantIsFresh(v, c, CHUNK + LARGE_HEADER + META + size, a);
    HeldMore(v, c, CHUNK + LARGE_HEADER + META + size);
    InUseWith(v.live, a, Block(LARGE, size));
    forall j | 0 <= j < SLOTS ensures SlotOk(v', j) && v'.slots[j].total == v'.slots[j].free + LiveCount(v'.live, j) {
      LargeSlot(v, c, size, j);
      CountWith(v.live, a, Block(LARGE, size), j);
    }
    forall b | b in v'.places ensures PlaceOk(v', b) {
      assert PlaceOk(v, b);
    }
    forall b | b in v'.live ensures LiveOk(v', b) {
      if b != a { LiveStays(v, c, size, b); } else { NewLargeLive(v, c, size); }
    }
    assert LargeOk(v') by { LargeListAdded(v, c, size); }
  }

  lemma NewLargeLive(v: View, c: Addr, size: nat)
    requires size > 8192
    requires Sizes(v)
    ensures LiveOk(LargeAdded(v, c, size), c + CHUNK + LARGE_HEADER)
  {
    assert c in [c] + v.larges;
  }

  lemma LiveStays(v: View, c: Addr, size: nat, b: Addr)
    requires PoolOk(v) && b in v.live && c !in v.larges && b != c + CHUNK + LARGE_HEADER
    ensures b in LargeAdded(v, c, size).live && LiveOk(LargeAdded(v, c, size), b)
  {
    assert LiveOk(v, b);
    if v.live[b].slot == LARGE {
      var d := b - CHUNK - LARGE_HEADER;
      assert d in v.larges && d != c;
      assert d in [c] + v.larges;
    }
  }

  lemma LargeListAdded(v: View, c: Addr, size: nat)
    requires PoolOk(v) && Grants(v, c, CHUNK + LARGE_HEADER + META + size)
    ensures LargeOk(LargeAdded(v, c, size))
  {
    hide SlotOk, BigChain, Chain, ChunkChain, UserSize, BlockAt, InUse, LiveCount, PlaceOk, LiveOk;
    var v' := LargeAdded(v, c, size);
    GrantIsFresh(v, c, CHUNK + LARGE_HEADER + META + size, c + CHUNK + LARGE_HEADER);
    BigPushed(v.bigs, v.large, v.larges, c, size);
    forall d | d in v'.larges
      ensures d in v'.bigs && d in v'.held && v'.held[d] == CHUNK + LARGE_HEADER + META + v'.bigs[d].size
      ensures d + CHUNK + LARGE_HEADER in v'.live && v'.live[d + CHUNK + LARGE_HEADER].slot == LARGE
      ensures forall i | 0 <= i < |v'.chunks| :: d !in v'.chunks[i]
    {
      assert d == c || d in v.larges;
    }
  }

  /** Unlinking c from its neighbours. */
  function Unlinked(bigs: map<Addr, Big>, c: Addr): map<Addr, Big>
    requires c in bigs
  {
    var p, n := bigs[c].prev, bigs[c].next;
    var b1 := if p != NULL && p in bigs then bigs[p := bigs[p].(next := n)] else bigs;
    if n != NULL && n in b1 then b1[n := b1[n].(prev := p)] else b1
  }

  lemma BigUnlinked(bigs: map<Addr, Big>, head: Addr, s: seq<Addr>, k: nat)
    requires BigChain(bigs, head, s) && NoRepeats(s) && k < |s|
    ensures s[k] in bigs
    ensures var t := s[..k] + s[k + 1..];
            BigChain(Unlinked(bigs, s[k]), if bigs[s[k]].prev != NULL then head else bigs[s[k]].next, t) && NoRepeats(t)
  {
    var c, t := s[k], s[..k] + s[k + 1..];
    assert BigNode(bigs, s, k);
    var b2 := Unlinked(bigs, c);
    if k > 0 { assert BigNode(bigs, s, k - 1); }
    if k + 1 < |s| { assert BigNode(bigs, s, k + 1); }
    forall j | 0 <= j < |t| ensures BigNode(b2, t, j) {
      var i := if j < k then j else j + 1;
      assert t[j] == s[i] && BigNode(bigs, s, i);
      assert Nth(t, j + 1) == if j == k - 1 then Nth(s, k + 1) else Nth(s, i + 1);
      assert Nth(t, j - 1) == if j == k then Nth(s, k - 1) else Nth(s, i - 1);
    }
  }

  function LargeRemoved(v: View, c: Addr, k: nat): View
    requires c in v.bigs && k < |v.larges|
  {
    var a := c + CHUNK + LARGE_HEADER;
    v.(bigs := Unlinked(v.bigs, c), large := if v.bigs[c].prev != NULL then v.large else v.bigs[c].next,
       larges := v.larges[..k] + v.larges[k + 1..], live := v.live - {a}, held := v.held - {c},
       used := if v.used >= v.bigs[c].size then v.used - v.bigs[c].size else 0)
  }

  lemma LargeAt(v: View, a: Addr)
    requires PoolOk(v) && a in v.live && v.live[a].slot == LARGE
    ensures a >= CHUNK + LARGE_HEADER && a - CHUNK - LARGE_HEADER in v.larges && a - CHUNK - LARGE_HEADER in v.bigs
    ensures v.bigs[a - CHUNK - LARGE_HEADER].size == v.live[a].size
  {
    assert LiveOk(v, a);
  }

  lemma RemovedMembers(s: seq<Addr>, k: nat, d: Addr)
    requires NoRepeats(s) && k < |s|
    ensures d in s[..k] + s[k + 1..] <==> d in s && d != s[k]
  {
    var t := s[..k] + s[k + 1..];
    if d in s && d != s[k] {
      var j :| 0 <= j < |s| && s[j] == d;
      assert t[if j < k then j else j - 1] == d;
    }
  }

  lemma LargeRemovedOk(v: View, c: Addr, k: nat)
    requires PoolOk(v) && k < |v.larges| && v.larges[k] == c
    ensures c in v.bigs && PoolOk(LargeRemoved(v, c, k)) && v.used >= v.bigs[c].size
  {
    hide SlotOk, PlaceOk, LiveOk, BigChain, InUse, LiveCount, Unlinked, NoRepeats;
    var v', a := LargeRemoved(v, c, k), c + CHUNK + LARGE_HEADER;
    LargeIsLive(v, c);
    InUseWithout(v.live, a);
    forall j | 0 <= j < SLOTS ensures SlotOk(v', j) && v'.slots[j].total == v'.slots[j].free + LiveCount(v'.live, j) {
      RemovedSlot(v, c, k, j);
      CountWithout(v.live, a, j);
    }
    forall b | b in v'.places ensures PlaceOk(v', b) { RemovedPlace(v, c, k, b); }
    forall b | b in v'.live ensures LiveOk(v', b) { RemovedLive(v, c, k, b); }
    LargeListRemoved(v, c, k);
    hide LargeOk;
    assert HeldOk(v'.held);
  }

  lemma LargeIsLive(v: View, c: Addr)
    requires PoolOk(v) && c in v.larges
    ensures var a := c + CHUNK + LARGE_HEADER;
            && c in v.bigs && a in v.live && v.live[a] == Block(LARGE, v.bigs[c].size)
  {
    hide SlotOk, PlaceOk, BigChain, InUse, LiveCount;
    assert LiveOk(v, c + CHUNK + LARGE_HEADER);
  }

  lemma RemovedSlot(v: View, c: Addr, k: nat, j: nat)
    requires PoolOk(v) && k < |v.larges| && v.larges[k] == c && c in v.bigs && j < SLOTS
    ensures SlotOk(LargeRemoved(v, c, k), j)
  {
    hide PlaceOk, LiveOk, BigChain, Chain, ChunkChain, InUse, LiveCount, Unlinked, Offset, BlockAt, Total, HeldOk, NoRepeats;
    assert c in v.larges && SlotOk(v, j);
  }

  lemma RemovedPlace(v: View, c: Addr, k: nat, b: Addr)
    requires PoolOk(v) && k < |v.larges| && v.larges[k] == c && c in v.bigs && b in v.places
    ensures PlaceOk(LargeRemoved(v, c, k), b)
  {
    hide SlotOk, BigChain, InUse, LiveCount, Unlinked, BlockAt, NoRepeats;
    LargeIsLive(v, c);
    assert PlaceOk(v, b);
    if b == c + CHUNK + LARGE_HEADER { PlaceInside(v, b); }
  }

  lemma RemovedLive(v: View, c: Addr, k: nat, b: Addr)
    requires PoolOk(v) && k < |v.larges| && v.larges[k] == c && c in v.bigs && b in v.live && b != c + CHUNK + LARGE_HEADER
    ensures LiveOk(LargeRemoved(v, c, k), b)
  {
    hide SlotOk, PlaceOk, BigChain, InUse, LiveCount, Unlinked, HeldOk, NoRepeats;
    assert LiveOk(v, b);
    if v.live[b].slot == LARGE {
      RemovedMembers(v.larges, k, b - CHUNK - LARGE_HEADER);
      UnlinkedSize(v.bigs, c, b - CHUNK - LARGE_HEADER);
    }
  }

  lemma UnlinkedSize(bigs: map<Addr, Big>, c: Addr, d: Addr)
    requires c in bigs && d in bigs
    ensures d in Unlinked(bigs, c) && Unlinked(bigs, c)[d].size == bigs[d].size
  {
  }

  lemma LargeListRemoved(v: View, c: Addr, k: nat)
    requires PoolOk(v) && k < |v.larges| && v.larges[k] == c
    ensures c in v.bigs && LargeOk(LargeRemoved(v, c, k))
  {
    hide SlotOk, BigChain, Chain, ChunkChain, UserSize, BlockAt, InUse, LiveCount, PlaceOk, LiveOk, Unlinked;
    assert c in v.larges;
    var v' := LargeRemoved(v, c, k);
    BigUnlinked(v.bigs, v.large, v.larges, k);
    forall d | d in v'.larges
      ensures d in v'.bigs && d in v'.held && v'.held[d] == CHUNK + LARGE_HEADER + META + v'.bigs[d].size
      ensures d + CHUNK + LARGE_HEADER in v'.live && v'.live[d + CHUNK + LARGE_HEADER].slot == LARGE
      ensures forall i | 0 <= i < |v'.chunks| :: d !in v'.chunks[i]
    {
      RemovedMembers(v.larges, k, d);
      UnlinkedSize(v.bigs, c, d);
    }
  }

  // ---------- A new chunk ----------

  /** The blocks of chunk r, first to last. */
  function Blocks(i: nat, r: Addr, n: nat): (s: seq<Addr>)
    requires i < SLOTS
    ensures |s| == n && forall j | 0 <= j < n :: s[j] == BlockAt(Place(i, r, j))
  {
    seq(n, j => if j >= 0 then BlockAt(Place(i, r, j)) else 0)
  }

  function NewPlaces(i: nat, r: Addr, n: nat): (m: map<Addr, Place>)
    requires i < SLOTS
  {
    if n == 0 then map[] else NewPlaces(i, r, n - 1)[BlockAt(Place(i, r, n - 1)) := Place(i, r, n - 1)]
  }

  lemma {:induction false} NewPlacesAre(i: nat, r: Addr, n: nat)
    requires i < SLOTS
    ensures forall j | 0 <= j < n :: BlockAt(Place(i, r, j)) in NewPlaces(i, r, n) && NewPlaces(i, r, n)[BlockAt(Place(i, r, j))] == Place(i, r, j)
    ensures forall a | a in NewPlaces(i, r, n) ::
              NewPlaces(i, r, n)[a].slot == i && NewPlaces(i, r, n)[a].chunk == r && NewPlaces(i, r, n)[a].index < n
              && a == BlockAt(NewPlaces(i, r, n)[a])
    ensures |NewPlaces(i, r, n)| >= 0
  {
    hide Offset;
    if n > 0 {
      NewPlacesAre(i, r, n - 1);
      forall j | 0 <= j < n - 1 ensures BlockAt(Place(i, r, j)) < BlockAt(Place(i, r, n - 1)) {
        OffsetGrows(i, j, n - 1);
      }
    }
  }

  /** The headers after the loop that threads the blocks of a new chunk: each links to the next, the last to the old list. */
  ghost predicate Threaded(hdr: map<Addr, Header>, hdr': map<Addr, Header>, blocks: seq<Addr>, head: Addr) {
    && (forall j | 0 <= j < |blocks| ::
          blocks[j] in hdr' && hdr'[blocks[j]] == Free(if j + 1 < |blocks| then blocks[j + 1] else head))
    && forall a | a in hdr && a !in blocks :: a in hdr' && hdr'[a] == hdr[a]
  }

  function Expanded(v: View, i: nat, r: Addr, hdr': map<Addr, Header>): View
    requires Sizes(v) && i < SLOTS
  {
    var s := v.slots[i];
    v.(slots := v.slots[i := Slot(r + CHUNK, r, s.total + v.count, s.free + v.count)], hdr := hdr',
       chunkNext := v.chunkNext[r := s.chunks], free := v.free[i := Blocks(i, r, v.count) + v.free[i]],
       chunks := v.chunks[i := [r] + v.chunks[i]], held := v.held[r := CHUNK + Offset(i, v.count)],
       places := v.places + NewPlaces(i, r, v.count))
  }

  lemma {:induction false} ThreadedChain(hdr: map<Addr, Header>, hdr': map<Addr, Header>, blocks: seq<Addr>, head: Addr, s: seq<Addr>, j: nat)
    requires Threaded(hdr, hdr', blocks, head) && Chain(hdr, head, s) && j <= |blocks|
    requires (forall a | a in s :: a !in blocks) && (forall a | a in blocks :: a != NULL)
    ensures Chain(hdr', if j < |blocks| then blocks[j] else head, blocks[j..] + s)
    decreases |blocks| - j
  {
    if j == |blocks| {
      assert blocks[j..] + s == s;
      ChainSame(hdr, hdr', head, s);
    } else {
      ThreadedChain(hdr, hdr', blocks, head, s, j + 1);
      var t := blocks[j + 1..] + s;
      assert blocks[j..] + s == [blocks[j]] + t;
      assert blocks[j] in blocks;
      ChainOneMore(hdr', blocks[j], t);
    }
  }

  lemma ChainOneMore(hdr: map<Addr, Header>, a: Addr, t: seq<Addr>)
    requires a != NULL && a in hdr && hdr[a].Free? && Chain(hdr, hdr[a].next, t)
    ensures Chain(hdr, a, [a] + t)
  {
    assert ([a] + t)[1..] == t;
  }

  lemma {:induction false} ChainSame(hdr: map<Addr, Header>, hdr': map<Addr, Header>, head: Addr, s: seq<Addr>)
    requires Chain(hdr, head, s) && forall a | a in s && a in hdr :: a in hdr' && hdr'[a] == hdr[a]
    ensures Chain(hdr', head, s)
    decreases |s|
  {
    if s != [] {
      assert forall b | b in s[1..] :: b in s;
      assert s[0] in s;
      ChainSame(hdr, hdr', hdr[head].next, s[1..]);
    }
  }

  /** The new blocks are unknown to the pool, and different from each other. */
  lemma BlocksAreFresh(v: View, i: nat, r: Addr, a: Addr)
    requires PoolOk(v) && i < SLOTS && Grants(v, r, CHUNK + Offset(i, v.count)) && a in Blocks(i, r, v.count)
    ensures a !in v.places && a !in v.live && r !in v.held && r !in v.larges && a > 0 && r > 0
    ensures forall k | 0 <= k < SLOTS :: a !in v.free[k] && r !in v.chunks[k]
  {
    hide Offset, PoolOk;
    var j :| 0 <= j < v.count && a == Blocks(i, r, v.count)[j];
    OffsetGrows(i, j, v.count);
    GrantIsFresh(v, r, CHUNK + Offset(i, v.count), a);
  }

  lemma BlocksDiffer(i: nat, r: Addr, n: nat)
    requires i < SLOTS
    ensures NoRepeats(Blocks(i, r, n))
  {
    hide Offset;
    var s := Blocks(i, r, n);
    forall k, l | 0 <= k < l < n ensures s[k] != s[l] {
      OffsetGrows(i, k, l);
    }
  }

  /** The lists of the slot that gets the chunk. */
  lemma ExpandedLists(v: View, i: nat, r: Addr, hdr': map<Addr, Header>)
    requires PoolOk(v) && i < SLOTS && Grants(v, r, CHUNK + Offset(i, v.count))
    requires Threaded(v.hdr, hdr', Blocks(i, r, v.count), v.slots[i].head)
    ensures var b, f := Blocks(i, r, v.count), v.free[i];
            Chain(hdr', r + CHUNK, b + f) && NoRepeats(b + f) && v.slots[i].free == |f|
    ensures ChunkChain(v.chunkNext[r := v.slots[i].chunks], r, [r] + v.chunks[i]) && NoRepeats([r] + v.chunks[i])
    ensures v.slots[i].total + v.count == Total(|[r] + v.chunks[i]|, v.count)
  {
    hide LargeOk, InUse, LiveCount, HeldOk, UserSize, BlockSize, Offset, Grants, PlaceOk, LiveOk, Threaded, BlockAt, Total, Blocks;
    var b, f := Blocks(i, r, v.count), v.free[i];
    assert SlotOk(v, i);
    forall a | a in b ensures a !in f && a > 0 { BlocksAreFresh(v, i, r, a); }
    BlocksAreFresh(v, i, r, b[0]);
    BlocksDiffer(i, r, v.count);
    ThreadedChain(v.hdr, hdr', b, v.slots[i].head, f, 0);
    assert b[0..] + f == b + f;
    FirstBlock(i, r, v.count);
    ChunkChainKept(v.chunkNext, v.slots[i].chunks, v.chunks[i], r, v.slots[i].chunks);
    assert ([r] + v.chunks[i])[1..] == v.chunks[i];
    MoreTotal(|v.chunks[i]|, v.count);
    NoRepeatsBoth(b, f);
    NoRepeatsBoth([r], v.chunks[i]);
  }

  lemma ExpandedOwnSlot(v: View, i: nat, r: Addr, hdr': map<Addr, Header>)
    requires PoolOk(v) && i < SLOTS && Grants(v, r, CHUNK + Offset(i, v.count))
    requires Threaded(v.hdr, hdr', Blocks(i, r, v.count), v.slots[i].head)
    ensures SlotOk(Expanded(v, i, r, hdr'), i)
  {
    hide LargeOk, InUse, LiveCount, HeldOk, UserSize, BlockSize, Offset, Grants, PlaceOk, LiveOk, Threaded, BlockAt, Total, Blocks;
    hide Chain, ChunkChain, NoRepeats;
    var v' := Expanded(v, i, r, hdr');
    var b, f := Blocks(i, r, v.count), v.free[i];
    ExpandedLists(v, i, r, hdr');
    assert SlotOk(v, i);
    BlocksAreFresh(v, i, r, b[0]);
    assert v'.free[i] == b + f && v'.chunks[i] == [r] + v.chunks[i];
    ExpandedFree(v, i, r, hdr');
    ExpandedChunks(v, i, r, hdr');
  }

  /** The free list of the slot holds the new blocks and the old ones, all of them out of use. */
  lemma ExpandedFree(v: View, i: nat, r: Addr, hdr': map<Addr, Header>)
    requires PoolOk(v) && i < SLOTS && Grants(v, r, CHUNK + Offset(i, v.count))
    ensures var v' := Expanded(v, i, r, hdr');
            forall a | a in v'.free[i] :: a in v'.places && v'.places[a].slot == i && a !in v'.live
  {
    var v' := Expanded(v, i, r, hdr');
    hide PoolOk, SlotOk, NewPlaces, Blocks, Grants, BlockAt, Offset;
    NewPlacesAre(i, r, v.count);
    forall a | a in v'.free[i] ensures a in v'.places && v'.places[a].slot == i && a !in v'.live {
      if a in v.free[i] {
        FreeBefore(v, i, a);
        NotNew(v, i, r, a);
      } else {
        assert a in Blocks(i, r, v.count);
        BlocksAreFresh(v, i, r, a);
      }
    }
  }

  lemma FreeBefore(v: View, i: nat, a: Addr)
    requires PoolOk(v) && i < SLOTS && a in v.free[i]
    ensures a in v.places && v.places[a].slot == i && a !in v.live
  {
    assert SlotOk(v, i);
  }

  /** Every block of the slot's chunks has its place. */
  lemma ExpandedChunks(v: View, i: nat, r: Addr, hdr': map<Addr, Header>)
    requires PoolOk(v) && i < SLOTS && Grants(v, r, CHUNK + Offset(i, v.count))
    ensures var v' := Expanded(v, i, r, hdr');
            forall c, j | c in v'.chunks[i] && 0 <= j < v.count ::
              BlockAt(Place(i, c, j)) in v'.places && v'.places[BlockAt(Place(i, c, j))] == Place(i, c, j)
  {
    var v' := Expanded(v, i, r, hdr');
    hide PoolOk, SlotOk, NewPlaces, Grants, BlockAt, Offset;
    NewPlacesAre(i, r, v.count);
    forall c, j | c in v'.chunks[i] && 0 <= j < v.count
      ensures BlockAt(Place(i, c, j)) in v'.places && v'.places[BlockAt(Place(i, c, j))] == Place(i, c, j)
    {
      if c in v.chunks[i] {
        CarvedBefore(v, i, c, j);
        NotNew(v, i, r, BlockAt(Place(i, c, j)));
      }
    }
  }

  lemma CarvedBefore(v: View, i: nat, c: Addr, j: nat)
    requires PoolOk(v) && i < SLOTS && c in v.chunks[i] && j < v.count
    ensures BlockAt(Place(i, c, j)) in v.places && v.places[BlockAt(Place(i, c, j))] == Place(i, c, j)
  {
    assert SlotOk(v, i);
  }

  lemma NoRepeatsBoth(a: seq<Addr>, b: seq<Addr>)
    requires NoRepeats(a) && NoRepeats(b) && forall x | x in a :: x !in b
    ensures NoRepeats(a + b)
  {
    var s := a + b;
    forall k, l | 0 <= k < l < |s| ensures s[k] != s[l] {
      if k < |a| <= l {
        assert s[k] in a && s[l] in b;
      }
    }
  }

  lemma NotNew(v: View, i: nat, r: Addr, a: Addr)
    requires PoolOk(v) && i < SLOTS && Grants(v, r, CHUNK + Offset(i, v.count)) && a in v.places
    ensures a !in NewPlaces(i, r, v.count)
  {
    NewPlacesAre(i, r, v.count);
    if a in NewPlaces(i, r, v.count) {
      hide Offset, PoolOk, Grants;
      assert Blocks(i, r, v.count)[NewPlaces(i, r, v.count)[a].index] == a;
      BlocksAreFresh(v, i, r, a);
    }
  }

  lemma FirstBlock(i: nat, r: Addr, n: nat)
    requires i < SLOTS && n > 0
    ensures Blocks(i, r, n)[0] == r + CHUNK
  {
  }

  lemma MoreTotal(n: nat, count: nat)
    ensures Total(n + 1, count) == Total(n, count) + count
  {
  }

  lemma ExpandedOtherSlot(v: View, i: nat, r: Addr, hdr': map<Addr, Header>, k: nat)
    requires PoolOk(v) && i < SLOTS && Grants(v, r, CHUNK + Offset(i, v.count)) && k < SLOTS && k != i
    requires Threaded(v.hdr, hdr', Blocks(i, r, v.count), v.slots[i].head)
    ensures SlotOk(Expanded(v, i, r, hdr'), k)
  {
    hide LargeOk, InUse, LiveCount, HeldOk, UserSize, BlockSize, Offset, Grants, PlaceOk, LiveOk, BlockAt, Total, Blocks;
    var v' := Expanded(v, i, r, hdr');
    assert SlotOk(v, k);
    forall a | a in Blocks(i, r, v.count) ensures a !in v.free[k] { BlocksAreFresh(v, i, r, a); }
    BlocksAreFresh(v, i, r, Blocks(i, r, v.count)[0]);
    ChainSame(v.hdr, hdr', v.slots[k].head, v.free[k]);
    ChunkChainKept(v.chunkNext, v.slots[k].chunks, v.chunks[k], r, v.slots[i].chunks);
    forall a | a in v.places ensures a in v'.places && v'.places[a] == v.places[a] { NotNew(v, i, r, a); }
  }

  lemma ExpandedOk(v: View, i: nat, r: Addr, hdr': map<Addr, Header>)
    requires PoolOk(v) && i < SLOTS && Grants(v, r, CHUNK + Offset(i, v.count))
    requires Threaded(v.hdr, hdr', Blocks(i, r, v.count), v.slots[i].head)
    ensures PoolOk(Expanded(v, i, r, hdr'))
  {
    hide SlotOk, BigChain, Chain, ChunkChain, UserSize, BlockAt, InUse, LiveCount, HeldOk, Grants, Offset, Blocks, PlaceOk, LiveOk, Threaded;
    var v' := Expanded(v, i, r, hdr');
    BlocksAreFresh(v, i, r, Blocks(i, r, v.count)[0]);
    HeldMore(v, r, CHUNK + Offset(i, v.count));
    forall k | 0 <= k < SLOTS ensures SlotOk(v', k) && v'.slots[k].total == v'.slots[k].free + LiveCount(v'.live, k) {
      if k == i {
        ExpandedOwnSlot(v, i, r, hdr');
      } else {
        ExpandedOtherSlot(v, i, r, hdr', k);
      }
    }
    forall a | a in v'.places ensures PlaceOk(v', a) { ExpandedPlace(v, i, r, hdr', a); }
    forall a | a in v'.live ensures LiveOk(v', a) { ExpandedLive(v, i, r, hdr', a); }
  }

  lemma ExpandedPlace(v: View, i: nat, r: Addr, hdr': map<Addr, Header>, a: Addr)
    requires PoolOk(v) && i < SLOTS && Grants(v, r, CHUNK + Offset(i, v.count))
    requires a in Expanded(v, i, r, hdr').places
    ensures PlaceOk(Expanded(v, i, r, hdr'), a)
  {
    hide PoolOk, UserSize, Grants, Offset, BlockAt, PlaceOk, Blocks;
    if a in v.places {
      NotNew(v, i, r, a);
      OldPlace(v, i, r, hdr', a);
    } else {
      NewPlacesAre(i, r, v.count);
      NewPlace(v, i, r, hdr', a);
    }
  }

  lemma SizesOf(v: View)
    requires PoolOk(v)
    ensures Sizes(v)
  {
  }

  lemma OldPlace(v: View, i: nat, r: Addr, hdr': map<Addr, Header>, a: Addr)
    requires PoolOk(v) && i < SLOTS && Grants(v, r, CHUNK + Offset(i, v.count))
    requires a in v.places && a !in NewPlaces(i, r, v.count)
    ensures PlaceOk(Expanded(v, i, r, hdr'), a)
  {
    hide SlotOk, LargeOk, UserSize, InUse, LiveCount, HeldOk, Grants, Offset, LiveOk, BlockAt, Blocks;
    var b := Blocks(i, r, v.count);
    assert PlaceOk(v, a);
    if a in b { BlocksAreFresh(v, i, r, a); }
  }

  lemma NewPlace(v: View, i: nat, r: Addr, hdr': map<Addr, Header>, a: Addr)
    requires PoolOk(v) && i < SLOTS && Grants(v, r, CHUNK + Offset(i, v.count))
    requires a in NewPlaces(i, r, v.count)
    ensures PlaceOk(Expanded(v, i, r, hdr'), a)
  {
    hide PoolOk, UserSize, Grants, Offset, BlockAt, Blocks;
    NewPlacesAre(i, r, v.count);
    var b := Blocks(i, r, v.count);
    assert b[NewPlaces(i, r, v.count)[a].index] == a;
    BlocksAreFresh(v, i, r, a);
    SizesOf(v);
    assert r in [r] + v.chunks[i] && a in b + v.free[i];
  }

  lemma ExpandedLive(v: View, i: nat, r: Addr, hdr': map<Addr, Header>, a: Addr)
    requires PoolOk(v) && i < SLOTS && Grants(v, r, CHUNK + Offset(i, v.count)) && a in v.live
    requires Threaded(v.hdr, hdr', Blocks(i, r, v.count), v.slots[i].head)
    ensures LiveOk(Expanded(v, i, r, hdr'), a)
  {
    hide SlotOk, LargeOk, UserSize, InUse, LiveCount, HeldOk, Grants, Offset, PlaceOk, Blocks;
    assert LiveOk(v, a);
    if a in Blocks(i, r, v.count) { BlocksAreFresh(v, i, r, a); }
    if v.live[a].slot != LARGE { NotNew(v, i, r, a); }
  }

  // ---------- Reset ----------

  /** The regions that are left when the large blocks are freed. */
  ghost function WithoutLarges(held: map<Addr, nat>, larges: seq<Addr>): map<Addr, nat> {
    map r | r in held && r !in larges :: held[r]
  }

  /** Slot i after its free list was rebuilt. */
  ghost predicate Refilled(v: View, i: nat)
    requires Sizes(v) && i < SLOTS
  {
    && Chain(v.hdr, v.slots[i].head, v.free[i]) && NoRepeats(v.free[i])
    && v.slots[i].free == v.slots[i].total == |v.free[i]|
    && forall a :: a in v.free[i] <==> a in v.places && v.places[a].slot == i
  }

  lemma ResetOk(v: View, v': View)
    requires PoolOk(v) && Sizes(v')
    requires v'.count == v.count && v'.chunks == v.chunks && v'.chunkNext == v.chunkNext && v'.places == v.places
    requires v'.larges == [] && v'.large == NULL && v'.live == map[] && v'.used == 0
    requires v'.held == WithoutLarges(v.held, v.larges)
    requires forall i | 0 <= i < SLOTS :: Refilled(v', i) && v'.slots[i].chunks == v.slots[i].chunks && v'.slots[i].total == v.slots[i].total
    ensures PoolOk(v')
  {
    hide BlockAt, Chain, ChunkChain, UserSize, BlockSize, Offset, Total, Refilled;
    assert HeldOk(v'.held) && LargeOk(v');
    forall i | 0 <= i < SLOTS ensures SlotOk(v', i) && v'.slots[i].total == v'.slots[i].free + LiveCount(v'.live, i) {
      ResetSlotOk(v, v', i);
      assert OfSlot(v'.live, i) == {};
    }
    forall a | a in v'.places ensures PlaceOk(v', a) {
      assert PlaceOk(v, a);
      assert Refilled(v', v.places[a].slot);
      InRefilled(v', v.places[a].slot, a);
    }
  }

  lemma InRefilled(v: View, i: nat, a: Addr)
    requires Sizes(v) && i < SLOTS && Refilled(v, i) && a in v.places
    ensures a in v.free[i] <==> v.places[a].slot == i
  {
  }

  lemma ResetSlotOk(v: View, v': View, i: nat)
    requires PoolOk(v) && Sizes(v') && i < SLOTS
    requires v'.count == v.count && v'.chunks == v.chunks && v'.chunkNext == v.chunkNext && v'.places == v.places && v'.live == map[]
    requires v'.held == WithoutLarges(v.held, v.larges)
    requires Refilled(v', i) && v'.slots[i].chunks == v.slots[i].chunks && v'.slots[i].total == v.slots[i].total
    ensures SlotOk(v', i) && v'.slots[i].free == v'.slots[i].total
  {
    hide BlockAt, Chain, ChunkChain, NoRepeats, UserSize, BlockSize, Offset, Total, PlaceOk, LiveOk, InUse, LiveCount, HeldOk;
    assert SlotOk(v, i);
    forall c | c in v.chunks[i] ensures c in v'.held && v'.held[c] == v.held[c] {
      assert c in v.held && c !in v.larges;
    }
  }

  /** Which blocks of slot i are on the list when the first k chunks and j blocks of the next one are done. */
  ghost predicate Listed(chunks: seq<Addr>, k: nat, j: nat, p: Place) {
    k <= |chunks| && (p.chunk in chunks[..k] || (k < |chunks| && p.chunk == chunks[k] && p.index < j))
  }

  lemma {:induction false} ChainEnd(hdr: map<Addr, Header>, head: Addr, s: seq<Addr>, a: Addr, i: nat)
    requires Chain(hdr, head, s) && a !in s && a != NULL
    ensures Chain(hdr[a := Free(head)], a, [a] + s)
  {
    ChainKept(hdr, head, s, a, Free(head));
    assert ([a] + s)[1..] == s;
  }

  /** The chunk at the k-th place of a chunk list. */
  lemma {:induction false} ChunkAt(next: map<Addr, Addr>, head: Addr, s: seq<Addr>, k: nat)
    requires ChunkChain(next, head, s) && k < |s|
    ensures s[k] in next && s[k] != NULL && next[s[k]] == Nth(s, k + 1)
    decreases k
  {
    if k > 0 {
      ChunkAt(next, next[head], s[1..], k - 1);
      assert Nth(s[1..], k) == Nth(s, k + 1);
    } else {
      assert ChunkChain(next, next[head], s[1..]);
      assert |s| > 1 ==> s[1..][0] == s[1];
    }
  }
}
