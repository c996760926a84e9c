/** The lock-free queue of vox_queue.c. */
module MpscQueue {
  import opened Bits

  /*
   One atomic access is one step, in every interleaving of any number of producers and consumers. The memory is
   sequentially consistent and positions are unbounded integers.

   Every slot carries a sequence number. For the position p that the slot serves next, the number p means "free for
   the producer of p" and p + 1 means "holds the element of p"; the consumer of p stores p + capacity when it is done.
   */

  /** An element pointer; 0 is the null pointer, which enqueue refuses. */
  type Elem = nat

  /** Where a producer stands inside vox_queue_enqueue, with its local variables. */
  datatype ProducerPc =
    | PIdle
    | PLoadTail(elem: Elem)
    | PLoadSeq(elem: Elem, pos: nat)
    | PCas(elem: Elem, pos: nat)
    | PWrite(elem: Elem, pos: nat)
    | PPublish(elem: Elem, pos: nat)
  {
    /** Between the successful compare-and-swap and the release store. */
    predicate OwnsSlot() { PWrite? || PPublish? }
  }

  /** Where a consumer stands inside vox_queue_dequeue. */
  datatype ConsumerPc =
    | CIdle
    | CLoadHead
    | CLoadTail(pos: nat)
    | CLoadSeq(pos: nat)
    | CCas(pos: nat)
    | CRead(pos: nat)
    | CRelease(pos: nat, elem: Elem)
  {
    predicate OwnsSlot() { CRead? || CRelease? }
  }

  /** An element with the producer that reserved a position for it and the number of that producer's call. */
  datatype Item = Item(producer: nat, call: nat, elem: Elem)

  datatype Delivery = Delivery(consumer: nat, pos: nat, elem: Elem)

  /** A failed call, with what was true at the step that read the tail. */
  datatype Failure =
    | Full(producer: nat, wasFull: bool)
    | Empty(consumer: nat, head: nat, tail: nat)

  /** The shared words: head, tail and the slot array split into its two fields. */
  datatype Memory = Memory(head: nat, tail: nat, data: seq<Elem>, sequence: seq<int>)

  /** History of the run; no step of the protocol reads it. */
  datatype History = History(
    reserved: seq<Item>,          // the items, in the order of the successful compare-and-swaps on tail
    deliveries: seq<Delivery>,    // what dequeue returned, in the order of returning
    failures: seq<Failure>,
    calls: seq<nat>,              // enqueue calls started, for each producer
    serving: seq<nat>,            // for each slot, the position it serves next
    released: set<nat>,           // positions whose consumer has stored the release mark
    sawFull: seq<bool>,           // for each producer, whether all slots were taken when it read tail
    writer: map<nat, nat>,        // reserved, not yet published positions and their producers
    reader: map<nat, nat>)        // claimed, not yet released positions and their consumers

  datatype State = State(mem: Memory, prod: seq<ProducerPc>, cons: seq<ConsumerPc>, hist: History)

  function Capacity(s: State): nat { |s.mem.data| }

  /** The slot of a position: `pos & mask`. */
  function Slot(pos: nat, cap: nat): nat
    requires cap > 0
  {
    And(pos, cap - 1)
  }

  /** A capacity the protocol works with: a power of two, at least 2. */
  ghost predicate GoodCapacity(cap: nat) {
    cap >= 2 && IsPow2(cap)
  }

  lemma SlotMod(a: nat, cap: nat)
    requires GoodCapacity(cap)
    ensures Slot(a, cap) == a % cap
  {
    var k: nat :| cap == Pow2(k);
    AndMask(a, k);
  }

  /** Positions share a slot exactly when they are whole laps apart. */
  lemma SlotFacts(a: nat, b: nat, cap: nat)
    requires GoodCapacity(cap)
    ensures Slot(a, cap) < cap
    ensures a < cap ==> Slot(a, cap) == a
    ensures Slot(a + cap, cap) == Slot(a, cap)
    ensures Slot(a, cap) == Slot(b, cap) && a < b ==> a + cap <= b
  {
    SlotMod(a, cap);
    SlotMod(b, cap);
    SlotMod(a + cap, cap);
    ModAddSelf(a, cap);
    if a % cap == b % cap && a < b { Lap(a, b, cap); }
  }

  lemma Lap(a: nat, b: nat, cap: nat)
    requires cap > 0 && a % cap == b % cap && a < b
    ensures a + cap <= b
  {
    var d := b / cap - a / cap;
    assert d * cap == b - a by {
      assert a == (a / cap) * cap + a % cap;
      assert b == (b / cap) * cap + b % cap;
      assert d * cap == (b / cap) * cap - (a / cap) * cap;
    }
    MulGap(d, cap);
  }

  // ---------- The protocol ----------

  function Init(cap: nat, producers: nat, consumers: nat): State {
    State(
      Memory(0, 0, seq(cap, _ => 0), seq(cap, i => i)),
      seq(producers, _ => PIdle),
      seq(consumers, _ => CIdle),
      History([], [], [], seq(producers, _ => 0), seq(cap, i => i), {}, seq(producers, _ => false), map[], map[]))
  }

  datatype Action =
    | Enqueue(t: nat, elem: Elem)   // a producer calls enqueue
    | Produce(t: nat)               // a producer takes its next step
    | Dequeue(c: nat)               // a consumer calls dequeue
    | Consume(c: nat)               // a consumer takes its next step

  /** Every slot holds a reserved position that no consumer has released. */
  ghost predicate AllTaken(s: State) {
    s.mem.tail >= Capacity(s) &&
    forall p | s.mem.tail - Capacity(s) <= p < s.mem.tail :: p !in s.hist.released
  }

  /** Array sizes agree; what the step functions need to be defined. */
  ghost predicate Shaped(s: State) {
    && Capacity(s) >= 1
    && |s.mem.sequence| == |s.hist.serving| == Capacity(s)
    && |s.hist.calls| == |s.hist.sawFull| == |s.prod|
    && forall p :: Slot(p, Capacity(s)) < Capacity(s)
  }

  /** The same threads and the same capacity. */
  ghost predicate SameShape(s: State, s': State) {
    && Shaped(s') && Capacity(s') == Capacity(s)
    && |s'.prod| == |s.prod| && |s'.cons| == |s.cons|
  }

  ghost function Step(s: State, a: Action): (s': State)
    requires Shaped(s)
    ensures SameShape(s, s')
  {
    match a
    case Enqueue(t, e) =>
      if t < |s.prod| && s.prod[t].PIdle? && e != 0 then
        s.(prod := s.prod[t := PLoadTail(e)], hist := s.hist.(calls := s.hist.calls[t := s.hist.calls[t] + 1]))
      else s
    case Produce(t) => if t < |s.prod| then ProducerStep(s, t) else s
    case Dequeue(c) =>
      if c < |s.cons| && s.cons[c].CIdle? then s.(cons := s.cons[c := CLoadHead]) else s
    case Consume(c) => if c < |s.cons| then ConsumerStep(s, c) else s
  }

  ghost function ProducerStep(s: State, t: nat): (s': State)
    requires Shaped(s) && t < |s.prod|
    ensures SameShape(s, s')
  {
    var m, h := s.mem, s.hist;
    match s.prod[t]
    case PIdle => s
    case PLoadTail(e) =>
      s.(prod := s.prod[t := PLoadSeq(e, m.tail)],
         hist := h.(sawFull := h.sawFull[t := AllTaken(s)]))
    case PLoadSeq(e, pos) =>
      var diff := m.sequence[Slot(pos, Capacity(s))] - pos;
      if diff == 0 then s.(prod := s.prod[t := PCas(e, pos)])
      else if diff < 0 then
        s.(prod := s.prod[t := PIdle], hist := h.(failures := h.failures + [Full(t, h.sawFull[t])]))
      else s.(prod := s.prod[t := PLoadTail(e)])
    case PCas(e, pos) =>
      if m.tail == pos then
        s.(mem := m.(tail := pos + 1),
           prod := s.prod[t := PWrite(e, pos)],
           hist := h.(reserved := h.reserved + [Item(t, h.calls[t], e)], writer := h.writer[pos := t]))
      else s.(prod := s.prod[t := PLoadTail(e)])
    case PWrite(e, pos) =>
      s.(mem := m.(data := m.data[Slot(pos, Capacity(s)) := e]), prod := s.prod[t := PPublish(e, pos)])
    case PPublish(e, pos) =>
      s.(mem := m.(sequence := m.sequence[Slot(pos, Capacity(s)) := pos + 1]),
         prod := s.prod[t := PIdle],
         hist := h.(writer := h.writer - {pos}))
  }

  ghost function ConsumerStep(s: State, c: nat): (s': State)
    requires Shaped(s) && c < |s.cons|
    ensures SameShape(s, s')
  {
    var m, h := s.mem, s.hist;
    match s.cons[c]
    case CIdle => s
    case CLoadHead => s.(cons := s.cons[c := CLoadTail(m.head)])
    case CLoadTail(pos) =>
      if pos == m.tail then
        s.(cons := s.cons[c := CIdle], hist := h.(failures := h.failures + [Empty(c, m.head, m.tail)]))
      else s.(cons := s.cons[c := CLoadSeq(pos)])
    case CLoadSeq(pos) =>
      var diff := m.sequence[Slot(pos, Capacity(s))] - (pos + 1);
      s.(cons := s.cons[c := if diff < 0 then CLoadHead else CCas(pos)])
    case CCas(pos) =>
      if m.head == pos then
        s.(mem := m.(head := pos + 1), cons := s.cons[c := CRead(pos)], hist := h.(reader := h.reader[pos := c]))
      else s.(cons := s.cons[c := CLoadHead])
    case CRead(pos) => s.(cons := s.cons[c := CRelease(pos, m.data[Slot(pos, Capacity(s))])])
    case CRelease(pos, e) =>
      s.(mem := m.(sequence := m.sequence[Slot(pos, Capacity(s)) := pos + Capacity(s)]),
         cons := s.cons[c := CIdle],
         hist := h.(deliveries := h.deliveries + [Delivery(c, pos, e)],
                    serving := h.serving[Slot(pos, Capacity(s)) := pos + Capacity(s)],
                    released := h.released + {pos},
                    reader := h.reader - {pos}))
  }

  // ---------- What every step keeps ----------

  /** Slot i serves a position that maps to i and lies within one lap of head and tail. */
  ghost predicate SlotOk(s: State, i: nat)
    requires Shaped(s) && i < Capacity(s)
  {
    var p, mark, cap := s.hist.serving[i], s.mem.sequence[i], Capacity(s);
    && Slot(p, cap) == i
    && (mark == p || mark == p + 1)
    && p < s.mem.head + cap
    && s.mem.tail <= p + cap
    && (mark == p ==> s.mem.head <= p && (p < s.mem.tail ==> p in s.hist.writer))
    && (mark == p + 1 ==> p < s.mem.tail && p < |s.hist.reserved| && s.mem.data[i] == s.hist.reserved[p].elem
                          && (p < s.mem.head ==> p in s.hist.reader))
  }

  /** The slot of pos serves pos and is free (ready == false) or holds its element (ready == true). */
  ghost predicate Serves(s: State, pos: nat, ready: bool)
    requires Shaped(s)
  {
    var i := Slot(pos, Capacity(s));
    s.hist.serving[i] == pos && s.mem.sequence[i] == if ready then pos + 1 else pos
  }

  ghost predicate ProducerOk(s: State, t: nat)
    requires Shaped(s) && t < |s.prod|
  {
    match s.prod[t]
    case PIdle => true
    case PLoadTail(_) => true
    case PLoadSeq(_, pos) => pos <= s.mem.tail
    case PCas(_, pos) => pos <= s.mem.tail && (pos == s.mem.tail ==> Serves(s, pos, false))
    case PWrite(e, pos) => Reserved(s, t, pos, e)
    case PPublish(e, pos) => Reserved(s, t, pos, e) && s.mem.data[Slot(pos, Capacity(s))] == e
  }

  ghost predicate Reserved(s: State, t: nat, pos: nat, e: Elem)
    requires Shaped(s)
  {
    && pos < s.mem.tail && pos < |s.hist.reserved|
    && Serves(s, pos, false)
    && s.hist.reserved[pos].elem == e
    && pos in s.hist.writer && s.hist.writer[pos] == t
  }

  ghost predicate ConsumerOk(s: State, c: nat)
    requires Shaped(s) && c < |s.cons|
  {
    match s.cons[c]
    case CIdle => true
    case CLoadHead => true
    case CLoadTail(pos) => pos <= s.mem.head
    case CLoadSeq(pos) => pos <= s.mem.head && pos < s.mem.tail
    case CCas(pos) => pos <= s.mem.head && (pos == s.mem.head ==> Serves(s, pos, true))
    case CRead(pos) => Claimed(s, c, pos)
    case CRelease(pos, e) => Claimed(s, c, pos) && e == s.hist.reserved[pos].elem
  }

  ghost predicate Claimed(s: State, c: nat, pos: nat)
    requires Shaped(s)
  {
    && pos < s.mem.head && pos < |s.hist.reserved|
    && Serves(s, pos, true)
    && pos in s.hist.reader && s.hist.reader[pos] == c
  }

  ghost predicate WriterOk(s: State, pos: nat)
    requires pos in s.hist.writer
  {
    var t := s.hist.writer[pos];
    t < |s.prod| && s.prod[t].OwnsSlot() && s.prod[t].pos == pos
  }

  ghost predicate ReaderOk(s: State, pos: nat)
    requires pos in s.hist.reader
  {
    var c := s.hist.reader[pos];
    c < |s.cons| && s.cons[c].OwnsSlot() && s.cons[c].pos == pos
  }

  /** The part of the invariant that concerns the shared words. */
  ghost predicate MemOk(s: State)
    requires Shaped(s)
  {
    && s.mem.head <= s.mem.tail == |s.hist.reserved|
    && (forall i | 0 <= i < Capacity(s) :: SlotOk(s, i))
    && (forall p | p in s.hist.writer :: WriterOk(s, p))
    && (forall p | p in s.hist.reader :: ReaderOk(s, p))
  }

  ghost predicate ThreadsOk(s: State)
    requires Shaped(s)
  {
    && (forall t | 0 <= t < |s.prod| :: ProducerOk(s, t))
    && (forall c | 0 <= c < |s.cons| :: ConsumerOk(s, c))
  }

  ghost predicate Inv(s: State) {
    Shaped(s) && GoodCapacity(Capacity(s)) && MemOk(s) && ThreadsOk(s)
  }

  lemma InitInv(cap: nat, producers: nat, consumers: nat)
    requires GoodCapacity(cap)
    ensures Inv(Init(cap, producers, consumers))
  {
    var s := Init(cap, producers, consumers);
    forall p ensures Slot(p, cap) < cap { SlotFacts(p, p, cap); }
    forall i | 0 <= i < cap ensures SlotOk(s, i) { SlotFacts(i, i, cap); }
  }

  /** A step that changes no shared word and no ownership, and puts threads in acceptable places, keeps the invariant. */
  lemma LocalStepInv(s: State, s': State)
    requires Inv(s) && Shaped(s')
    requires s'.mem == s.mem && |s'.prod| == |s.prod| && |s'.cons| == |s.cons|
    requires s'.hist.reserved == s.hist.reserved && s'.hist.serving == s.hist.serving
    requires s'.hist.writer == s.hist.writer && s'.hist.reader == s.hist.reader
    requires forall t | 0 <= t < |s.prod| ::
               s'.prod[t] == s.prod[t] || (!s.prod[t].OwnsSlot() && ProducerOk(s', t))
    requires forall c | 0 <= c < |s.cons| ::
               s'.cons[c] == s.cons[c] || (!s.cons[c].OwnsSlot() && ConsumerOk(s', c))
               || (s.cons[c].OwnsSlot() && s'.cons[c].OwnsSlot() && s.cons[c].pos == s'.cons[c].pos && ConsumerOk(s', c))
    ensures Inv(s')
  {
    forall i | 0 <= i < Capacity(s) ensures SlotOk(s', i) { assert SlotOk(s, i); }
    forall t | 0 <= t < |s.prod| ensures ProducerOk(s', t) { assert ProducerOk(s, t); }
    forall c | 0 <= c < |s.cons| ensures ConsumerOk(s', c) { assert ConsumerOk(s, c); }
    forall p | p in s'.hist.writer ensures WriterOk(s', p) { assert WriterOk(s, p); }
    forall p | p in s'.hist.reader ensures ReaderOk(s', p) { assert ReaderOk(s, p); }
  }

  lemma StepInv(s: State, a: Action)
    requires Inv(s)
    ensures Inv(Step(s, a))
  {
    match a
    case Enqueue(t, e) => LocalStepInv(s, Step(s, a));
    case Dequeue(c) => LocalStepInv(s, Step(s, a));
    case Produce(t) => if t < |s.prod| { ProducerStepInv(s, t); }
    case Consume(c) => if c < |s.cons| { ConsumerStepInv(s, c); }
  }

  lemma ProducerStepInv(s: State, t: nat)
    requires Inv(s) && t < |s.prod|
    ensures Inv(ProducerStep(s, t))
  {
    var s' := ProducerStep(s, t);
    match s.prod[t]
    case PIdle =>
    case PLoadTail(e) => LocalStepInv(s, s');
    case PLoadSeq(e, pos) =>
      assert ProducerOk(s, t);
      FreeMark(s, pos);
      LocalStepInv(s, s');
    case PCas(e, pos) =>
      if s.mem.tail == pos { ReserveInv(s, t); } else { LocalStepInv(s, s'); }
    case PWrite(e, pos) => WriteInv(s, t);
    case PPublish(e, pos) => PublishInv(s, t);
  }

  /** A slot whose sequence number is pos serves pos; one whose number is less serves the position a lap earlier, if pos is the tail. */
  lemma FreeMark(s: State, pos: nat)
    requires Inv(s) && pos <= s.mem.tail
    ensures var mark := s.mem.sequence[Slot(pos, Capacity(s))];
            && (mark == pos ==> Serves(s, pos, false))
            && (mark < pos ==> pos == s.mem.tail && s.hist.serving[Slot(pos, Capacity(s))] == pos - Capacity(s))
  {
    var cap := Capacity(s);
    var i := Slot(pos, cap);
    assert SlotOk(s, i);
    var p := s.hist.serving[i];
    SlotFacts(p, pos, cap);
    SlotFacts(pos, p, cap);
    SlotFacts(p, p + 1, cap);
  }

  /** A slot with a sequence number above the head position holds the head's element. */
  lemma ReadyMark(s: State, pos: nat)
    requires Inv(s) && pos == s.mem.head < s.mem.tail
    requires s.mem.sequence[Slot(pos, Capacity(s))] >= pos + 1
    ensures Serves(s, pos, true)
  {
    var cap := Capacity(s);
    var i := Slot(pos, cap);
    assert SlotOk(s, i);
    SlotFacts(s.hist.serving[i], pos, cap);
    SlotFacts(pos, s.hist.serving[i], cap);
  }

  lemma ReserveInv(s: State, t: nat)
    requires Inv(s) && t < |s.prod| && s.prod[t].PCas? && s.prod[t].pos == s.mem.tail
    ensures Inv(ProducerStep(s, t))
  {
    var s', pos, cap := ProducerStep(s, t), s.prod[t].pos, Capacity(s);
    assert ProducerOk(s, t);
    forall i | 0 <= i < cap ensures SlotOk(s', i) {
      assert SlotOk(s, i);
      SlotFacts(s.hist.serving[i], pos, cap);
      SlotFacts(pos, s.hist.serving[i], cap);
    }
    forall u | 0 <= u < |s.prod| ensures ProducerOk(s', u) {
      assert ProducerOk(s, u);
    }
    forall c | 0 <= c < |s.cons| ensures ConsumerOk(s', c) {
      assert ConsumerOk(s, c);
    }
    forall p | p in s'.hist.writer ensures WriterOk(s', p) {
      if p != pos { assert WriterOk(s, p); }
    }
    forall p | p in s'.hist.reader ensures ReaderOk(s', p) { assert ReaderOk(s, p); }
  }

  lemma WriteInv(s: State, t: nat)
    requires Inv(s) && t < |s.prod| && s.prod[t].PWrite?
    ensures Inv(ProducerStep(s, t))
  {
    var s', pos, cap := ProducerStep(s, t), s.prod[t].pos, Capacity(s);
    assert ProducerOk(s, t);
    forall i | 0 <= i < cap ensures SlotOk(s', i) {
      assert SlotOk(s, i);
    }
    forall u | 0 <= u < |s.prod| ensures ProducerOk(s', u) {
      assert ProducerOk(s, u);
    }
    forall c | 0 <= c < |s.cons| ensures ConsumerOk(s', c) {
      assert ConsumerOk(s, c);
    }
    forall p | p in s'.hist.writer ensures WriterOk(s', p) { assert WriterOk(s, p); }
    forall p | p in s'.hist.reader ensures ReaderOk(s', p) { assert ReaderOk(s, p); }
  }

  lemma PublishInv(s: State, t: nat)
    requires Inv(s) && t < |s.prod| && s.prod[t].PPublish?
    ensures Inv(ProducerStep(s, t))
  {
    var s', pos, cap := ProducerStep(s, t), s.prod[t].pos, Capacity(s);
    assert ProducerOk(s, t);
    forall i | 0 <= i < cap ensures SlotOk(s', i) {
      assert SlotOk(s, i);
      assert SlotOk(s, Slot(pos, cap));
    }
    forall u | 0 <= u < |s.prod| ensures ProducerOk(s', u) {
      assert ProducerOk(s, u);
    }
    forall c | 0 <= c < |s.cons| ensures ConsumerOk(s', c) {
      assert ConsumerOk(s, c);
    }
    forall p | p in s'.hist.writer ensures WriterOk(s', p) { assert WriterOk(s, p); }
    forall p | p in s'.hist.reader ensures ReaderOk(s', p) { assert ReaderOk(s, p); }
  }

  lemma ConsumerStepInv(s: State, c: nat)
    requires Inv(s) && c < |s.cons|
    ensures Inv(ConsumerStep(s, c))
  {
    var s' := ConsumerStep(s, c);
    assert ConsumerOk(s, c);
    match s.cons[c]
    case CIdle =>
    case CLoadHead => LocalStepInv(s, s');
    case CLoadTail(pos) => LocalStepInv(s, s');
    case CLoadSeq(pos) =>
      if pos == s.mem.head && s'.cons[c].CCas? { ReadyMark(s, pos); }
      LocalStepInv(s, s');
    case CCas(pos) =>
      if s.mem.head == pos { ClaimInv(s, c); } else { LocalStepInv(s, s'); }
    case CRead(pos) =>
      assert SlotOk(s, Slot(pos, Capacity(s)));
      LocalStepInv(s, s');
    case CRelease(pos, e) => ReleaseInv(s, c);
  }

  lemma ClaimInv(s: State, c: nat)
    requires Inv(s) && c < |s.cons| && s.cons[c].CCas? && s.cons[c].pos == s.mem.head
    ensures Inv(ConsumerStep(s, c))
  {
    var s', pos, cap := ConsumerStep(s, c), s.cons[c].pos, Capacity(s);
    assert ConsumerOk(s, c);
    assert SlotOk(s, Slot(pos, cap));
    forall i | 0 <= i < cap ensures SlotOk(s', i) {
      assert SlotOk(s, i);
      SlotFacts(s.hist.serving[i], pos, cap);
      SlotFacts(pos, s.hist.serving[i], cap);
    }
    forall t | 0 <= t < |s.prod| ensures ProducerOk(s', t) { assert ProducerOk(s, t); }
    forall d | 0 <= d < |s.cons| ensures ConsumerOk(s', d) { assert ConsumerOk(s, d); }
    forall p | p in s'.hist.writer ensures WriterOk(s', p) { assert WriterOk(s, p); }
    forall p | p in s'.hist.reader ensures ReaderOk(s', p) {
      if p != pos { assert ReaderOk(s, p); }
    }
  }

  lemma ReleaseSlots(s: State, c: nat)
    requires Inv(s) && c < |s.cons| && s.cons[c].CRelease?
    ensures forall i | 0 <= i < Capacity(s) :: SlotOk(ConsumerStep(s, c), i)
  {
    var s', pos, cap := ConsumerStep(s, c), s.cons[c].pos, Capacity(s);
    assert ConsumerOk(s, c);
    assert SlotOk(s, Slot(pos, cap));
    SlotFacts(pos, pos, cap);
    forall i | 0 <= i < cap ensures SlotOk(s', i) {
      assert SlotOk(s, i);
    }
  }

  lemma ReleaseInv(s: State, c: nat)
    requires Inv(s) && c < |s.cons| && s.cons[c].CRelease?
    ensures Inv(ConsumerStep(s, c))
  {
    var s', pos, cap := ConsumerStep(s, c), s.cons[c].pos, Capacity(s);
    assert ConsumerOk(s, c);
    assert SlotOk(s, Slot(pos, cap));
    ReleaseSlots(s, c);
    hide SlotOk;
    forall t | 0 <= t < |s.prod| ensures ProducerOk(s', t) { assert ProducerOk(s, t); }
    forall d | 0 <= d < |s.cons| ensures ConsumerOk(s', d) { assert ConsumerOk(s, d); }
    forall p | p in s'.hist.writer ensures WriterOk(s', p) { assert WriterOk(s, p); }
    forall p | p in s'.hist.reader ensures ReaderOk(s', p) { assert ReaderOk(s, p); }
  }

  // ---------- What the history says ----------

  /** A position is released once it is claimed and its consumer no longer holds it. */
  ghost predicate ReleasedOk(s: State) {
    forall p: nat :: p in s.hist.released <==> p < s.mem.head && p !in s.hist.reader
  }

  /** Released positions and deliveries correspond one to one, and a delivery carries the reserved element. */
  ghost predicate DeliveriesOk(ds: seq<Delivery>, released: set<nat>, reserved: seq<Item>) {
    && (forall k | 0 <= k < |ds| :: ds[k].pos in released)
    && (forall k | 0 <= k < |ds| :: ds[k].pos < |reserved| && ds[k].elem == reserved[ds[k].pos].elem)
    && (forall j, k | 0 <= j < k < |ds| :: ds[j].pos != ds[k].pos)
    && (forall p | p in released :: exists k :: 0 <= k < |ds| && ds[k].pos == p)
  }

  lemma DeliverOne(ds: seq<Delivery>, released: set<nat>, reserved: seq<Item>, d: Delivery)
    requires DeliveriesOk(ds, released, reserved)
    requires d.pos !in released && d.pos < |reserved| && d.elem == reserved[d.pos].elem
    ensures DeliveriesOk(ds + [d], released + {d.pos}, reserved)
  {
    var ds' := ds + [d];
    forall p | p in released + {d.pos}
      ensures exists k :: 0 <= k < |ds'| && ds'[k].pos == p
    {
      if p in released {
        var k :| 0 <= k < |ds| && ds[k].pos == p;
        assert ds'[k].pos == p;
      } else {
        assert ds'[|ds|].pos == p;
      }
    }
  }

  /** The items of one producer are reserved in the order of its calls. */
  ghost predicate OrderOk(s: State)
    requires Shaped(s)
  {
    var r := s.hist.reserved;
    && (forall i | 0 <= i < |r| :: CallOk(s, r[i]))
    && (forall i, j | 0 <= i < j < |r| && r[i].producer == r[j].producer :: r[i].call < r[j].call)
  }

  /** The call of an item has started; if its producer is still trying to reserve, that is for a later call. */
  ghost predicate CallOk(s: State, x: Item)
    requires Shaped(s)
  {
    && x.producer < |s.prod|
    && x.call <= s.hist.calls[x.producer]
    && (s.prod[x.producer].PLoadTail? || s.prod[x.producer].PLoadSeq? || s.prod[x.producer].PCas?
        ==> x.call < s.hist.calls[x.producer])
  }

  /** With a single consumer: deliveries come in position order, and a failure report is justified. */
  ghost predicate SoloOk(s: State)
    requires Shaped(s)
  {
    |s.cons| == 1 ==>
      && (s.cons[0].OwnsSlot() ==> s.mem.head == s.cons[0].pos + 1)
      && |s.hist.deliveries| == s.mem.head - (if s.cons[0].OwnsSlot() then 1 else 0)
      && (forall k | 0 <= k < |s.hist.deliveries| :: s.hist.deliveries[k].pos == k)
      && (forall t | 0 <= t < |s.prod| :: SawFullOk(s, t))
  }

  /** A producer whose stale tail still stands and whose slot was not freed since saw a full queue. */
  ghost predicate SawFullOk(s: State, t: nat)
    requires Shaped(s) && t < |s.prod|
  {
    s.prod[t].PLoadSeq? && s.prod[t].pos == s.mem.tail >= Capacity(s) && s.mem.tail - Capacity(s) !in s.hist.released
    ==> s.hist.sawFull[t]
  }

  ghost predicate FailuresOk(s: State) {
    && (forall k | 0 <= k < |s.hist.failures| && s.hist.failures[k].Empty? ::
          s.hist.failures[k].head == s.hist.failures[k].tail)
    && (|s.cons| == 1 ==>
        forall k | 0 <= k < |s.hist.failures| && s.hist.failures[k].Full? :: s.hist.failures[k].wasFull)
  }

  ghost predicate HistInv(s: State) {
    Shaped(s) && ReleasedOk(s) && DeliveriesOk(s.hist.deliveries, s.hist.released, s.hist.reserved) && OrderOk(s) && SoloOk(s) && FailuresOk(s)
  }

  /** The invariant of every reachable state. */
  ghost predicate Good(s: State) {
    Inv(s) && HistInv(s)
  }

  lemma StepReleased(s: State, a: Action)
    requires Inv(s) && ReleasedOk(s)
    ensures ReleasedOk(Step(s, a))
  {
    if a.Consume? && a.c < |s.cons| { assert ConsumerOk(s, a.c); }
  }

  lemma StepDeliveries(s: State, a: Action)
    requires Good(s)
    ensures var h := Step(s, a).hist;
            DeliveriesOk(h.deliveries, h.released, h.reserved)
  {
    if a.Consume? && a.c < |s.cons| && s.cons[a.c].CRelease? {
      var pos, e := s.cons[a.c].pos, s.cons[a.c].elem;
      assert ConsumerOk(s, a.c);
      DeliverOne(s.hist.deliveries, s.hist.released, s.hist.reserved, Delivery(a.c, pos, e));
    } else {
      assert s.hist.reserved <= Step(s, a).hist.reserved;
    }
  }

  lemma StepOrder(s: State, a: Action)
    requires Inv(s) && OrderOk(s)
    ensures Shaped(Step(s, a)) && OrderOk(Step(s, a))
  {
    hide MemOk, ThreadsOk, GoodCapacity;
    var s' := Step(s, a);
    forall i | 0 <= i < |s'.hist.reserved| ensures CallOk(s', s'.hist.reserved[i]) {
      if i < |s.hist.reserved| { assert CallOk(s, s.hist.reserved[i]); }
    }
  }

  lemma StepSolo(s: State, a: Action)
    requires Good(s)
    ensures Shaped(Step(s, a)) && SoloOk(Step(s, a))
  {
    StepInv(s, a);
    var s' := Step(s, a);
    if |s.cons| == 1 {
      if a.Consume? && a.c < |s.cons| { SoloConsumer(s); }
      forall t | 0 <= t < |s.prod| ensures SawFullOk(s', t) {
        StepSawFull(s, a, t);
      }
    }
  }

  lemma SoloConsumer(s: State)
    requires Good(s) && |s.cons| == 1
    ensures var s' := ConsumerStep(s, 0);
            && (s'.cons[0].OwnsSlot() ==> s'.mem.head == s'.cons[0].pos + 1)
            && |s'.hist.deliveries| == s'.mem.head - (if s'.cons[0].OwnsSlot() then 1 else 0)
            && (forall k | 0 <= k < |s'.hist.deliveries| :: s'.hist.deliveries[k].pos == k)
  {
    assert ConsumerOk(s, 0);
  }

  lemma StepSawFull(s: State, a: Action, t: nat)
    requires Good(s) && |s.cons| == 1 && t < |s.prod|
    ensures SawFullOk(Step(s, a), t)
  {
    assert ProducerOk(s, t) && SawFullOk(s, t);
    match a
    case Enqueue(_, _) =>
    case Dequeue(_) =>
    case Produce(u) => if u < |s.prod| { ProducerStepSawFull(s, u, t); }
    case Consume(c) => if c < |s.cons| { ConsumerStepSawFull(s, c, t); }
  }

  lemma ProducerStepSawFull(s: State, u: nat, t: nat)
    requires Good(s) && |s.cons| == 1 && t < |s.prod| && u < |s.prod|
    ensures SawFullOk(ProducerStep(s, u), t)
  {
    assert ProducerOk(s, t) && SawFullOk(s, t);
    if s.prod[u].PLoadTail? && s.mem.tail >= Capacity(s) && s.mem.tail - Capacity(s) !in s.hist.released {
      OldestHeldMeansFull(s);
    }
  }

  lemma ConsumerStepSawFull(s: State, c: nat, t: nat)
    requires Good(s) && t < |s.prod| && c < |s.cons| && SawFullOk(s, t)
    ensures SawFullOk(ConsumerStep(s, c), t)
  {
  }

  lemma StepFailures(s: State, a: Action)
    requires Good(s)
    ensures FailuresOk(Step(s, a))
  {
    if a.Consume? && a.c < |s.cons| { assert ConsumerOk(s, a.c); }
    if |s.cons| == 1 && a.Produce? && a.t < |s.prod| && s.prod[a.t].PLoadSeq?
       && s.mem.sequence[Slot(s.prod[a.t].pos, Capacity(s))] < s.prod[a.t].pos
    {
      FullReportJustified(s, a.t);
    }
  }

  /** With one consumer, positions are released in order: if the oldest of the last lap is held, all are. */
  lemma OldestHeldMeansFull(s: State)
    requires Good(s) && |s.cons| == 1
    requires s.mem.tail >= Capacity(s) && s.mem.tail - Capacity(s) !in s.hist.released
    ensures AllTaken(s)
  {
    var oldest := s.mem.tail - Capacity(s);
    forall p | oldest <= p < s.mem.tail ensures p !in s.hist.released {
      if p < s.mem.head { assert oldest in s.hist.reader && ReaderOk(s, oldest); }
    }
  }

  lemma FullReportJustified(s: State, t: nat)
    requires Good(s) && |s.cons| == 1 && t < |s.prod| && s.prod[t].PLoadSeq?
    requires s.mem.sequence[Slot(s.prod[t].pos, Capacity(s))] < s.prod[t].pos
    ensures s.hist.sawFull[t]
  {
    var pos := s.prod[t].pos;
    assert ProducerOk(s, t) && SawFullOk(s, t);
    FreeMark(s, pos);
    assert SlotOk(s, Slot(pos, Capacity(s)));
  }

  lemma StepGood(s: State, a: Action)
    requires Good(s)
    ensures Good(Step(s, a))
  {
    StepInv(s, a);
    StepReleased(s, a);
    StepDeliveries(s, a);
    StepOrder(s, a);
    StepSolo(s, a);
    StepFailures(s, a);
  }

  // ---------- Runs ----------

  /** The state after a schedule: any interleaving, of any length. */
  ghost function Run(s: State, acts: seq<Action>): (s': State)
    requires Shaped(s)
    ensures SameShape(s, s')
    decreases |acts|
  {
    if acts == [] then s else Run(Step(s, acts[0]), acts[1..])
  }

  lemma {:induction false} RunGood(s: State, acts: seq<Action>)
    requires Good(s)
    ensures Good(Run(s, acts))
    decreases |acts|
  {
    if acts != [] {
      StepGood(s, acts[0]);
      RunGood(Step(s, acts[0]), acts[1..]);
    }
  }

  ghost function Reached(cap: nat, producers: nat, consumers: nat, acts: seq<Action>): (s: State)
    requires GoodCapacity(cap)
    ensures SameShape(Init(cap, producers, consumers), s)
  {
    InitInv(cap, producers, consumers);
    Run(Init(cap, producers, consumers), acts)
  }

  /** Every reachable state, whatever the schedule, satisfies the invariant. */
  lemma ReachedGood(cap: nat, producers: nat, consumers: nat, acts: seq<Action>)
    requires GoodCapacity(cap)
    ensures Good(Reached(cap, producers, consumers, acts))
  {
    InitInv(cap, producers, consumers);
    RunGood(Init(cap, producers, consumers), acts);
  }

  function Elems(items: seq<Item>): (es: seq<Elem>) {
    seq(|items|, i requires 0 <= i < |items| => items[i].elem)
  }

  function Delivered(ds: seq<Delivery>): (es: seq<Elem>) {
    seq(|ds|, i requires 0 <= i < |ds| => ds[i].elem)
  }

  /** One consumer receives exactly the reserved elements, in reservation order. */
  lemma DeliveredInReservationOrder(cap: nat, producers: nat, acts: seq<Action>)
    requires GoodCapacity(cap)
    ensures var s := Reached(cap, producers, 1, acts);
            Delivered(s.hist.deliveries) <= Elems(s.hist.reserved)
  {
    ReachedGood(cap, producers, 1, acts);
  }

  /** Reservation order respects every producer's own call order. */
  lemma ProducerOrderKept(cap: nat, producers: nat, consumers: nat, acts: seq<Action>, i: nat, j: nat)
    requires GoodCapacity(cap)
    ensures var r := Reached(cap, producers, consumers, acts).hist.reserved;
            i < j < |r| && r[i].producer == r[j].producer ==> r[i].call < r[j].call
  {
    ReachedGood(cap, producers, consumers, acts);
  }

  /** Where a reserved position can be: with its producer, ready in its slot, with its consumer, or delivered. */
  datatype Place = WithProducer | InSlot | WithConsumer | Returned

  ghost predicate IsAt(s: State, p: nat, place: Place)
    requires Shaped(s)
  {
    match place
    case WithProducer => exists t | 0 <= t < |s.prod| :: s.prod[t].OwnsSlot() && s.prod[t].pos == p
    case InSlot => s.mem.head <= p < |s.hist.reserved| && Serves(s, p, true)
                   && s.mem.data[Slot(p, Capacity(s))] == s.hist.reserved[p].elem
    case WithConsumer => exists c | 0 <= c < |s.cons| :: s.cons[c].OwnsSlot() && s.cons[c].pos == p
    case Returned => exists k | 0 <= k < |s.hist.deliveries| :: s.hist.deliveries[k].pos == p
  }

  /** Conservation: in every reachable state every reserved position is in exactly one place, and returned at most once. */
  lemma ExactlyOnePlace(s: State, p: nat) returns (place: Place)
    requires Good(s) && p < s.mem.tail
    ensures IsAt(s, p, place)
    ensures forall other | IsAt(s, p, other) :: other == place
    ensures forall j, k | 0 <= j < k < |s.hist.deliveries| && s.hist.deliveries[j].pos == p :: s.hist.deliveries[k].pos != p
  {
    var cap := Capacity(s);
    var i := Slot(p, cap);
    forall t | 0 <= t < |s.prod| && s.prod[t].OwnsSlot() && s.prod[t].pos == p
      ensures p in s.hist.writer && Serves(s, p, false) { assert ProducerOk(s, t); }
    forall c | 0 <= c < |s.cons| && s.cons[c].OwnsSlot() && s.cons[c].pos == p
      ensures p in s.hist.reader && Serves(s, p, true) && p < s.mem.head { assert ConsumerOk(s, c); }
    assert SlotOk(s, i);
    if p in s.hist.writer {
      assert WriterOk(s, p);
      var t := s.hist.writer[p];
      assert ProducerOk(s, t);
      place := WithProducer;
    } else if p >= s.mem.head {
      SlotFacts(s.hist.serving[i], p, cap);
      SlotFacts(p, s.hist.serving[i], cap);
      place := InSlot;
    } else if p in s.hist.reader {
      assert ReaderOk(s, p);
      place := WithConsumer;
    } else {
      place := Returned;
    }
  }

  /** When nothing is in flight and the queue is empty, every reserved element has been returned. */
  lemma NothingLost(cap: nat, producers: nat, acts: seq<Action>)
    requires GoodCapacity(cap)
    ensures var s := Reached(cap, producers, 1, acts);
            s.cons[0].CIdle? && s.mem.head == s.mem.tail ==>
              Delivered(s.hist.deliveries) == Elems(s.hist.reserved)
  {
    ReachedGood(cap, producers, 1, acts);
    DeliveredInReservationOrder(cap, producers, acts);
  }

  /** Which slot a thread's next step reads or writes without synchronisation. */
  ghost predicate Touches(s: State, slot: nat, isProducer: bool, t: nat)
    requires Shaped(s)
  {
    if isProducer then t < |s.prod| && s.prod[t].OwnsSlot() && slot == Slot(s.prod[t].pos, Capacity(s))
    else t < |s.cons| && s.cons[t].OwnsSlot() && slot == Slot(s.cons[t].pos, Capacity(s))
  }

  /** No slot is written while another thread still owns it: two threads never own the same slot. */
  lemma SlotsAreExclusive(s: State, slot: nat, p1: bool, t1: nat, p2: bool, t2: nat)
    requires Inv(s) && Touches(s, slot, p1, t1) && Touches(s, slot, p2, t2)
    ensures p1 == p2 && t1 == t2
  {
    if p1 { assert ProducerOk(s, t1); } else { assert ConsumerOk(s, t1); }
    if p2 { assert ProducerOk(s, t2); } else { assert ConsumerOk(s, t2); }
  }

  /** Both failure results tell the truth about the instant at which the tail was read. */
  lemma FailuresLinearise(cap: nat, producers: nat, acts: seq<Action>, k: nat)
    requires GoodCapacity(cap)
    ensures var s := Reached(cap, producers, 1, acts);
            k < |s.hist.failures| ==>
              match s.hist.failures[k]
              case Full(_, wasFull) => wasFull
              case Empty(_, head, tail) => head == tail
  {
    ReachedGood(cap, producers, 1, acts);
  }

  // ---------- Refinement of a sequential queue ----------

  /** The sequential queue a state stands for: reserved and not yet claimed. */
  ghost function Contents(s: State): seq<Elem>
    requires Inv(s)
  {
    Elems(s.hist.reserved[s.mem.head..])
  }

  /** Every step is a no-op, an append or a removal of the front; the removing consumer holds that front's element. */
  lemma StepRefinesQueue(s: State, a: Action)
    requires Inv(s)
    ensures Inv(Step(s, a))
    ensures var s' := Step(s, a);
            || Contents(s') == Contents(s)
            || (a.Produce? && a.t < |s.prod| && s.prod[a.t].PCas? && Contents(s') == Contents(s) + [s.prod[a.t].elem])
            || (a.Consume? && a.c < |s.cons| && s'.cons[a.c].CRead?
                && Contents(s) == [s.mem.data[Slot(s'.cons[a.c].pos, Capacity(s))]] + Contents(s'))
  {
    StepInv(s, a);
    var s' := Step(s, a);
    if a.Produce? && a.t < |s.prod| && s.prod[a.t].PCas? && s.prod[a.t].pos == s.mem.tail {
      assert s'.hist.reserved[s'.mem.head..] ==
             s.hist.reserved[s.mem.head..] + [Item(a.t, s.hist.calls[a.t], s.prod[a.t].elem)];
      assert Contents(s') == Contents(s) + [s.prod[a.t].elem];
    } else if a.Consume? && a.c < |s.cons| && s.cons[a.c].CCas? && s.cons[a.c].pos == s.mem.head {
      assert ConsumerOk(s, a.c);
      assert SlotOk(s, Slot(s.mem.head, Capacity(s)));
      var front := s.hist.reserved[s.mem.head];
      assert s.hist.reserved[s.mem.head..] == [front] + s'.hist.reserved[s'.mem.head..];
    } else {
      assert s'.hist.reserved[s'.mem.head..] == s.hist.reserved[s.mem.head..];
    }
  }

  /** The slot of the tail is free exactly when the position a lap earlier has been released. */
  ghost predicate TailSlotFree(s: State) {
    s.mem.tail < Capacity(s) || s.mem.tail - Capacity(s) in s.hist.released
  }

  lemma TailMark(s: State)
    requires Good(s)
    ensures var mark := s.mem.sequence[Slot(s.mem.tail, Capacity(s))];
            if TailSlotFree(s) then mark == s.mem.tail else mark < s.mem.tail
  {
    var cap := Capacity(s);
    var i := Slot(s.mem.tail, cap);
    var p := s.hist.serving[i];
    assert SlotOk(s, i);
    SlotFacts(p, s.mem.tail, cap);
    SlotFacts(s.mem.tail, p, cap);
    if p == s.mem.tail { ServedNext(s); }
  }

  /** If a slot serves the tail position, the position a lap earlier is released. */
  lemma ServedNext(s: State)
    requires Good(s) && s.hist.serving[Slot(s.mem.tail, Capacity(s))] == s.mem.tail
    ensures TailSlotFree(s)
  {
    var cap := Capacity(s);
    assert SlotOk(s, Slot(s.mem.tail, cap));
    if s.mem.tail >= cap {
      var p := s.mem.tail - cap;
      SlotFacts(p, p, cap);
      forall c | 0 <= c < |s.cons| ensures !(s.cons[c].OwnsSlot() && s.cons[c].pos == p) {
        assert ConsumerOk(s, c);
      }
      if p in s.hist.reader { assert false; }
    }
  }

  /** An idle producer that calls enqueue and takes its first steps alone: it reserves the tail position
      exactly when the tail's slot is free, and otherwise reports full and changes nothing. */
  lemma SoloEnqueue(s: State, t: nat, e: Elem) returns (s1: State, s2: State, s3: State, s4: State)
    requires Good(s) && t < |s.prod| && s.prod[t].PIdle? && e != 0
    ensures s1 == Step(s, Enqueue(t, e)) && s2 == Step(s1, Produce(t)) && s3 == Step(s2, Produce(t)) && s4 == Step(s3, Produce(t))
    ensures TailSlotFree(s) ==> s4.prod[t] == PWrite(e, s.mem.tail)
                                && s4.hist.reserved == s.hist.reserved + [Item(t, s1.hist.calls[t], e)]
    ensures !TailSlotFree(s) ==> s4 == s3 && s3.prod == s.prod && s3.mem == s.mem
                                 && s3.hist.failures == s.hist.failures + [Full(t, AllTaken(s))]
  {
    TailMark(s);
    s1 := Step(s, Enqueue(t, e));
    s2 := Step(s1, Produce(t));
    s3 := Step(s2, Produce(t));
    s4 := Step(s3, Produce(t));
    assert AllTaken(s1) == AllTaken(s);
  }

  /** An idle consumer that calls dequeue and runs alone returns the front element if that has been published. */
  lemma SoloDequeue(s: State, c: nat) returns (s1: State, s5: State, s7: State)
    requires Good(s) && c < |s.cons| && s.cons[c].CIdle?
    requires s.mem.head < s.mem.tail && s.mem.head !in s.hist.writer
    ensures s1 == Step(s, Dequeue(c))
    ensures s5 == ConsumerStep(ConsumerStep(ConsumerStep(ConsumerStep(s1, c), c), c), c)
    ensures s7 == ConsumerStep(ConsumerStep(s5, c), c)
    ensures s7.hist.deliveries == s.hist.deliveries + [Delivery(c, s.mem.head, s.hist.reserved[s.mem.head].elem)]
    ensures s7.mem.head == s.mem.head + 1 && s7.cons == s.cons
  {
    FrontReady(s);
    s1 := Step(s, Dequeue(c));
    hide Inv, HistInv, SlotOk, GoodCapacity;
    s5 := ClaimAlone(s1, c);
    s7 := ConsumerStep(ConsumerStep(s5, c), c);
    assert s7.cons == s.cons;
  }

  /** An idle consumer that calls dequeue on an empty queue and runs alone returns NULL and changes nothing else. */
  lemma SoloDequeueEmpty(s: State, c: nat) returns (s': State)
    requires Shaped(s) && c < |s.cons| && s.cons[c].CIdle? && s.mem.head == s.mem.tail
    ensures s' == ConsumerStep(ConsumerStep(Step(s, Dequeue(c)), c), c)
    ensures s'.cons == s.cons && s'.prod == s.prod && s'.mem == s.mem && s'.hist.deliveries == s.hist.deliveries
    ensures s'.hist.failures == s.hist.failures + [Empty(c, s.mem.head, s.mem.tail)]
  {
    var s1 := Step(s, Dequeue(c));
    var s2 := ConsumerStep(s1, c);
    EmptyAtOnce(s2, c);
    s' := ConsumerStep(s2, c);
    assert s'.cons == s.cons;
  }

  /** In any state, a consumer whose position equals the tail that it reads returns NULL with that very step. */
  lemma EmptyAtOnce(s: State, c: nat)
    requires Shaped(s) && c < |s.cons| && s.cons[c].CLoadTail? && s.cons[c].pos == s.mem.tail
    ensures var s' := ConsumerStep(s, c);
            && s'.cons == s.cons[c := CIdle] && s'.mem == s.mem && s'.prod == s.prod
            && s'.hist.failures == s.hist.failures + [Empty(c, s.mem.head, s.mem.tail)] && s'.hist.deliveries == s.hist.deliveries
  {
  }

  /** A consumer waits while the producer of the front position has yet to publish it: a round brings it back, and nothing changes. */
  lemma WaitsForWriter(s: State, c: nat)
    requires Good(s) && c < |s.cons| && s.cons[c].CLoadHead? && s.mem.head < s.mem.tail && s.mem.head in s.hist.writer
    ensures ConsumerStep(ConsumerStep(ConsumerStep(s, c), c), c) == s
  {
    assert WriterOk(s, s.mem.head);
    assert ProducerOk(s, s.hist.writer[s.mem.head]);
    hide Inv, HistInv;
    var s2 := ConsumerStep(ConsumerStep(s, c), c);
    assert s2 == s.(cons := s.cons[c := CLoadSeq(s.mem.head)]);
    assert s2.cons[c := CLoadHead] == s.cons;
  }

  /** A call of dequeue returns with exactly one more delivery or one more report of an empty queue, and no other step adds any. */
  lemma ConsumerReturns(s: State, c: nat)
    requires Shaped(s) && c < |s.cons| && !s.cons[c].CIdle?
    ensures var s', h := ConsumerStep(s, c), s.hist;
            && (s'.cons[c].CIdle? ==>
                  || (s'.hist.failures == h.failures && exists d :: s'.hist.deliveries == h.deliveries + [d] && d.consumer == c)
                  || (s'.hist.deliveries == h.deliveries && s'.hist.failures == h.failures + [Empty(c, s.mem.head, s.mem.tail)]))
            && (!s'.cons[c].CIdle? ==> s'.hist.failures == h.failures && s'.hist.deliveries == h.deliveries)
  {
    if s.cons[c].CRelease? {
      assert ConsumerStep(s, c).hist.deliveries == s.hist.deliveries + [Delivery(c, s.cons[c].pos, s.cons[c].elem)];
    }
  }

  /** A call of enqueue returns once its element is published, or with exactly one more report of a full queue. */
  lemma ProducerReturns(s: State, t: nat)
    requires Shaped(s) && t < |s.prod| && !s.prod[t].PIdle?
    ensures var s', p := ProducerStep(s, t), s.prod[t];
            && (s'.prod[t].PIdle? ==>
                  || (s'.hist.failures == s.hist.failures && p.PPublish?
                      && s'.mem.sequence == s.mem.sequence[Slot(p.pos, Capacity(s)) := p.pos + 1])
                  || (s'.mem == s.mem && s'.hist.failures == s.hist.failures + [Full(t, s.hist.sawFull[t])]))
            && (!s'.prod[t].PIdle? ==> s'.hist.failures == s.hist.failures)
  {
  }

  /** After its reservation a producer publishes its element in two steps, whatever the others do to other slots. */
  lemma Publishes(s: State, t: nat)
    requires Shaped(s) && t < |s.prod| && s.prod[t].PWrite?
    ensures var s', p := ProducerStep(ProducerStep(s, t), t), s.prod[t];
            var i := Slot(p.pos, Capacity(s));
            && s'.prod == s.prod[t := PIdle] && s'.cons == s.cons
            && s'.mem == s.mem.(data := s.mem.data[i := p.elem], sequence := s.mem.sequence[i := p.pos + 1])
  {
    assert ProducerStep(s, t).prod[t] == PPublish(s.prod[t].elem, s.prod[t].pos);
  }

  /** enqueue refuses the null pointer. */
  lemma NullIsRefused(s: State, t: nat)
    requires Shaped(s)
    ensures Step(s, Enqueue(t, 0)) == s
  {
  }

  /** The four steps up to the claim. */
  lemma ClaimAlone(s: State, c: nat) returns (s5: State)
    requires Shaped(s) && c < |s.cons| && s.cons[c].CLoadHead? && s.mem.head < s.mem.tail && Serves(s, s.mem.head, true)
    ensures s5 == ConsumerStep(ConsumerStep(ConsumerStep(ConsumerStep(s, c), c), c), c)
    ensures s5 == s.(cons := s.cons[c := CRead(s.mem.head)], mem := s.mem.(head := s.mem.head + 1),
                     hist := s.hist.(reader := s.hist.reader[s.mem.head := c]))
  {
    var s3 := ConsumerStep(ConsumerStep(s, c), c);
    assert s3 == s.(cons := s.cons[c := CLoadSeq(s.mem.head)]);
    s5 := ConsumerStep(ConsumerStep(s3, c), c);
  }

  /** The slot of an unclaimed, published front position holds the reserved element. */
  lemma FrontReady(s: State)
    requires Good(s) && s.mem.head < s.mem.tail && s.mem.head !in s.hist.writer
    ensures Serves(s, s.mem.head, true)
    ensures s.mem.data[Slot(s.mem.head, Capacity(s))] == s.hist.reserved[s.mem.head].elem
  {
    var cap := Capacity(s);
    var i := Slot(s.mem.head, cap);
    assert SlotOk(s, i);
    SlotFacts(s.hist.serving[i], s.mem.head, cap);
    SlotFacts(s.mem.head, s.hist.serving[i], cap);
  }

  // ---------- Why the capacity must be at least two ----------

  /** With one consumer every schedule, of any number of producers, returns the elements in reservation order. */
  ghost predicate DeliversInOrder(cap: nat) {
    forall producers: nat, acts: seq<Action> :: Shaped(Init(cap, producers, 1)) ==> InOrder(Run(Init(cap, producers, 1), acts).hist)
  }

  ghost predicate InOrder(h: History) { Delivered(h.deliveries) <= Elems(h.reserved) }

  /** Among the powers of two, the capacities from 2 on are exactly those that keep the order. */
  lemma OrderedExactlyFromTwo(cap: nat)
    requires IsPow2(cap)
    ensures DeliversInOrder(cap) <==> cap >= 2
  {
    if cap >= 2 {
      forall producers: nat, acts: seq<Action> | Shaped(Init(cap, producers, 1))
        ensures InOrder(Run(Init(cap, producers, 1), acts).hist)
      {
        DeliveredInReservationOrder(cap, producers, acts);
      }
    } else {
      assert cap == 1;
      var acts := CapacityOneLosesAnElement();
    }
  }

  /** At capacity 1 the mark "holds the element of 0" is also "free for 1": a second enqueue overwrites the first
      element, and the consumer returns the second element first. */
  lemma CapacityOneLosesAnElement() returns (acts: seq<Action>)
    ensures Shaped(Init(1, 1, 1))
    ensures var h := Run(Init(1, 1, 1), acts).hist;
            Elems(h.reserved) == [1, 2] && Delivered(h.deliveries) == [2] && !InOrder(h)
  {
    forall pos ensures Slot(pos, 1) == 0 { AndMask(pos, 0); }
    var s0 := Init(1, 1, 1);
    hide Run, Step;
    var s1 := EnqueueAlone(s0, 1);
    var s2 := EnqueueAlone(s1, 2);
    var s3 := DequeueAlone(s2);
    acts := Enqueueing(1) + (Enqueueing(2) + Dequeueing());
    RunParts(s0, Enqueueing(1), Enqueueing(2) + Dequeueing());
    RunParts(s1, Enqueueing(2), Dequeueing());
  }

  /** One call of enqueue, undisturbed. */
  function Enqueueing(e: Elem): seq<Action> {
    [Enqueue(0, e), Produce(0), Produce(0), Produce(0), Produce(0), Produce(0)]
  }

  /** One call of dequeue, undisturbed. */
  function Dequeueing(): seq<Action> {
    [Dequeue(0), Consume(0), Consume(0), Consume(0), Consume(0), Consume(0), Consume(0)]
  }

  lemma EnqueueAlone(s: State, e: Elem) returns (s': State)
    requires Shaped(s) && Capacity(s) == 1 && |s.prod| == 1 && s.prod[0].PIdle? && e != 0
    requires forall p :: Slot(p, 1) == 0
    requires s.mem.sequence[0] == s.mem.tail
    ensures s' == Run(s, Enqueueing(e))
    ensures Shaped(s') && Capacity(s') == 1 && |s'.prod| == 1 && s'.prod[0].PIdle? && s'.cons == s.cons
    ensures s'.mem == Memory(s.mem.head, s.mem.tail + 1, [e], [s.mem.tail + 1])
    ensures Elems(s'.hist.reserved) == Elems(s.hist.reserved) + [e] && s'.hist.deliveries == s.hist.deliveries
  {
    var acts := Enqueueing(e);
    var s1 := Step(s, acts[0]);
    var s2 := Step(s1, acts[1]);
    var s3 := Step(s2, acts[2]);
    var s4 := Step(s3, acts[3]);
    assert s4.prod[0] == PWrite(e, s.mem.tail);
    var s5 := Step(s4, acts[4]);
    s' := Step(s5, acts[5]);
    hide Step;
    RunFirst(s, acts);
    RunFirst(s1, acts[1..]);
    RunFirst(s2, acts[2..]);
    RunFirst(s3, acts[3..]);
    RunFirst(s4, acts[4..]);
    RunFirst(s5, acts[5..]);
    assert acts[5..][1..] == [];
  }

  lemma DequeueAlone(s: State) returns (s': State)
    requires Shaped(s) && Capacity(s) == 1 && |s.cons| == 1 && s.cons[0].CIdle?
    requires forall p :: Slot(p, 1) == 0
    requires s.mem.head < s.mem.tail && s.mem.sequence[0] > s.mem.head
    ensures s' == Run(s, Dequeueing()) && s'.hist.reserved == s.hist.reserved
    ensures s'.hist.deliveries == s.hist.deliveries + [Delivery(0, s.mem.head, s.mem.data[0])]
  {
    var acts := Dequeueing();
    var s1 := Step(s, acts[0]);
    var s2 := Step(s1, acts[1]);
    var s3 := Step(s2, acts[2]);
    var s4 := Step(s3, acts[3]);
    var s5 := Step(s4, acts[4]);
    assert s5.cons[0] == CRead(s.mem.head);
    var s6 := Step(s5, acts[5]);
    s' := Step(s6, acts[6]);
    hide Step;
    RunFirst(s, acts);
    RunFirst(s1, acts[1..]);
    RunFirst(s2, acts[2..]);
    RunFirst(s3, acts[3..]);
    RunFirst(s4, acts[4..]);
    RunFirst(s5, acts[5..]);
    RunFirst(s6, acts[6..]);
    assert acts[6..][1..] == [];
  }

  lemma RunFirst(s: State, acts: seq<Action>)
    requires Shaped(s) && |acts| > 0
    ensures Run(s, acts) == Run(Step(s, acts[0]), acts[1..])
    ensures |acts| > 1 ==> acts[1..][0] == acts[1]
    ensures forall k | 1 <= k <= |acts| :: acts[1..][k - 1..] == acts[k..]
  {
  }

  lemma {:induction false} RunParts(s: State, a: seq<Action>, b: seq<Action>)
    requires Shaped(s)
    ensures Run(s, a + b) == Run(Run(s, a), b)
    decreases |a|
  {
    hide Step;
    if a == [] {
      assert a + b == b;
    } else {
      assert (a + b)[0] == a[0] && (a + b)[1..] == a[1..] + b;
      RunParts(Step(s, a[0]), a[1..], b);
    }
  }
}
