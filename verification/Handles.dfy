/** The life of a handle in vox_handle.c. */
module Handles {

  /*
   Reference counting, the list of active handles, and the queue of closed handles whose callbacks run when nothing
   refers to them any more. The lists are sequences here; the module List shows that the linked lists behave like
   sequences.
   */

  class Handle {
    var refCount: nat
    var closing: bool
    var active: bool
    var hasCallback: bool
    /** How often the close callback has run. */
    ghost var calls: nat
    /** Whether the handle had a reference to give up when it was closed. */
    ghost var counted: bool
    /** Whether the closing queue has been worked off past this handle. */
    ghost var finished: bool

    /** vox_handle_init: one reference, neither active nor closing. */
    constructor ()
      ensures refCount == 1 && !closing && !active && !hasCallback && calls == 0 && !counted && !finished
    {
      refCount, closing, active, hasCallback, calls, counted, finished := 1, false, false, false, 0, false, false;
    }
  }

  /** What a close callback may do with handles of the loop. */
  datatype Command = Ref(h: Handle) | Unref(h: Handle) | Close(h: Handle, callback: bool) | Activate(h: Handle) | Deactivate(h: Handle)

  /** One thing that happens to a loop, and what a callback does when it runs. */
  datatype Event = Do(c: Command) | Process(callbacks: map<Handle, seq<Command>>)

  ghost predicate EventOk(e: Event, all: set<Handle>) {
    match e
    case Do(c) => c.h in all
    case Process(callbacks) => forall h, c | h in callbacks && c in callbacks[h] :: c.h in all
  }

  ghost predicate NoRepeats(s: seq<Handle>) {
    forall i, j | 0 <= i < j < |s| :: s[i] != s[j]
  }

  class Loop {
    var active: seq<Handle>
    var activeCount: nat
    var closing: seq<Handle>
    /** The queue that vox_handle_process_closing works off. */
    var queue: seq<Handle>
    /** Every handle that was initialised for this loop. */
    ghost var all: set<Handle>

    /** A handle is on the active list exactly if its flag says so; queued handles are closing, without references. */
    ghost predicate HandleOk(h: Handle)
      reads this, h
    {
      && (h.active <==> h in active)
      && (h in closing ==> h !in active && h !in queue && h.closing && h.refCount == 0 && h.calls == 0)
      && (h in queue ==> h !in active && h.closing && h.refCount == 0)
      && h.calls <= 1
      && (h.calls == 1 ==> h.closing && h.refCount == 0 && !h.active)
      && ((h.closing && h.refCount > 0) || h in closing || h in queue || h.finished || h.calls == 1 ==> h.counted)
      && (h.finished ==> h.closing && h.refCount == 0 && h !in closing && h !in queue && h.calls == if h.hasCallback then 1 else 0)
    }

    ghost predicate Sound()
      reads this, all
    {
      && NoRepeats(active) && NoRepeats(closing) && NoRepeats(queue) && activeCount == |active|
      && (forall h | h in active :: h in all) && (forall h | h in closing :: h in all) && (forall h | h in queue :: h in all)
      && forall h | h in all :: HandleOk(h)
    }

    /** A handle that was closed while it had references, and has none left, waits for its callback or is past it. */
    ghost predicate Owed(h: Handle)
      reads this, h
    {
      h.closing && h.refCount == 0 && h.counted ==> h in closing || h in queue || h.finished
    }

    /** Besides, a handle that is closing is no longer active, and what it is owed has not been forgotten. */
    ghost predicate Valid()
      reads this, all
    {
      Sound() && forall h | h in all :: (h.closing ==> !h.active) && Owed(h)
    }

    constructor ()
      ensures Valid() && all == {} && queue == []
    {
      active, activeCount, closing, queue, all := [], 0, [], [], {};
    }

    method New() returns (h: Handle)
      requires Valid()
      modifies this`all
      ensures Valid() && fresh(h) && all == old(all) + {h} && h.refCount == 1 && !h.closing && !h.active && h.calls == 0
    {
      h := new Handle();
      all := all + {h};
    }

    /** The node of a handle that is in none of the lists points to itself. */
    predicate Isolated(h: Handle)
      reads this
    {
      h !in active && h !in closing && h !in queue
    }

    /** vox_handle_ref; a handle is not referenced again once its count has dropped to zero. */
    method AddRef(h: Handle) returns (n: nat)
      requires Valid() && h in all && h.refCount > 0
      modifies h`refCount
      ensures Valid() && n == h.refCount == old(h.refCount) + 1
    {
      h.refCount := h.refCount + 1;
      n := h.refCount;
    }

    /** vox_handle_deactivate */
    method Leave(h: Handle)
      requires Sound() && h in all
      modifies `active, `activeCount, h`active
      ensures Sound() && !h.active && active == Removed(old(active), h)
      ensures forall g | g in all && g != h :: g in active <==> g in old(active)
      ensures old(Valid()) ==> Valid()
    {
      if !h.active {
        RemovedNone(active, h);
        return;
      }
      ghost var k :| 0 <= k < |active| && active[k] == h;
      WithoutOne(active, h, k);
      active := Removed(active, h);
      h.active := false;
      activeCount := activeCount - 1;
    }

    /** vox_handle_unref: the last reference of a closing handle queues it. */
    method Release(h: Handle) returns (n: nat)
      requires Sound() && h in all
      modifies h`refCount, `closing, `active, `activeCount, h`active
      ensures Sound() && n == h.refCount == if old(h.refCount) > 0 then old(h.refCount) - 1 else 0
      ensures old(h.refCount) == 1 && h.closing ==> closing == old(closing) + [h] && !h.active && active == Removed(old(active), h)
      ensures !(old(h.refCount) == 1 && h.closing) ==> closing == old(closing) && h.active == old(h.active) && active == old(active)
      ensures forall g | g in all && g != h :: g in active <==> g in old(active)
      ensures old(Valid()) ==> Valid()
    {
      hide Removed;
      if h.refCount == 0 {
        return 0;
      }
      h.refCount := h.refCount - 1;
      if h.refCount == 0 && h.closing {
        RemovedNone(active, h);
        if h.active {
          Leave(h);
        }
        if Isolated(h) {
          closing := closing + [h];
        }
      }
      n := h.refCount;
    }

    /** vox_handle_close */
    method CloseHandle(h: Handle, callback: bool)
      requires Valid() && h in all
      modifies h, `closing, `active, `activeCount
      ensures Valid() && h.closing && !h.active && h.calls == old(h.calls) && h.finished == old(h.finished)
      ensures old(h.closing) ==> h.hasCallback == old(h.hasCallback) && h.refCount == old(h.refCount) && h.counted == old(h.counted)
      ensures old(h.closing) ==> closing == old(closing) && active == old(active)
      ensures !old(h.closing) ==>
                && h.hasCallback == callback && h.counted == (old(h.refCount) > 0)
                && h.refCount == (if old(h.refCount) > 0 then old(h.refCount) - 1 else 0)
                && closing == old(closing) + (if old(h.refCount) == 1 then [h] else [])
                && active == Removed(old(active), h)
      ensures forall g | g in all && g != h :: g in active <==> g in old(active)
    {
      hide Removed;
      if h.closing {
        return;
      }
      h.closing, h.hasCallback, h.counted := true, callback, h.refCount > 0;
      RemovedNone(Removed(active, h), h);
      if h.active {
        Leave(h);
      }
      RemovedNone(active, h);
      var n := Release(h);
    }

    /** vox_handle_activate; -1 for a handle that is closing. */
    method Join(h: Handle) returns (ret: int)
      requires Valid() && h in all
      modifies h`active, `active, `activeCount
      ensures Valid() && ret == if !old(h.active) && h.closing then -1 else 0
      ensures h.active == (old(h.active) || !h.closing)
      ensures active == if old(h.active) || h.closing then old(active) else old(active) + [h]
    {
      if h.active {
        return 0;
      }
      if h.closing {
        return -1;
      }
      active := active + [h];
      h.active := true;
      activeCount := activeCount + 1;
      ret := 0;
    }

    /** Closed, without references, and in none of the lists. */
    predicate Settled(h: Handle)
      reads this, h
    {
      h.closing && h.refCount == 0 && Isolated(h)
    }

    /** What nothing that a callback may do changes: the queue, the calls made, and the callbacks of closing handles. */
    twostate predicate Undisturbed()
      reads this, all
    {
      && all == old(all) && queue == old(queue)
      && (forall h | h in old(all) :: h.calls == old(h.calls) && h.finished == old(h.finished) && (old(h.closing) ==> h.closing && h.hasCallback == old(h.hasCallback)))
      && forall h | h in old(all) :: old(Settled(h)) ==> Settled(h)
    }

    /** One thing that a callback does. A caller that keeps to the rule takes no new reference to a handle without any. */
    method Execute(c: Command)
      requires Valid() && c.h in all
      modifies this, all
      ensures Valid() && Undisturbed()
    {
      hide Removed, HandleOk, Owed;
      match c
      case Ref(h) =>
        if h.refCount > 0 {
          var n := AddRef(h);
        }
      case Unref(h) => var n := Release(h);
      case Close(h, callback) => CloseHandle(h, callback);
      case Activate(h) => var r := Join(h);
      case Deactivate(h) =>
        RemovedNone(active, h);
        Leave(h);
    }

    method ExecuteAll(cs: seq<Command>)
      requires Valid() && forall c | c in cs :: c.h in all
      modifies this, all
      ensures Valid() && Undisturbed()
    {
      for i := 0 to |cs|
        invariant Valid() && Undisturbed()
      {
        Execute(cs[i]);
      }
    }

    /** One handle of the queue: its callback runs, if it has one, and its node is isolated. */
    method ProcessOne(callbacks: map<Handle, seq<Command>>) returns (h: Handle)
      requires Valid() && queue != [] && queue[0].calls == 0
      requires forall h, c | h in callbacks && c in callbacks[h] :: c.h in all
      modifies this, all
      ensures Valid() && all == old(all) && h == old(queue)[0] && queue == old(queue)[1..]
      ensures h.calls == (if old(h.hasCallback) then 1 else 0) && Settled(h) && h.finished
      ensures forall g | g in all :: old(g.closing) ==> g.closing && g.hasCallback == old(g.hasCallback)
      ensures forall g | g in all && g != h :: g.calls == old(g.calls) && g.finished == old(g.finished)
      ensures forall g | g in all :: old(Settled(g)) ==> Settled(g)
    {
      h := queue[0];
      if h.hasCallback {
        RunCallback(h, if h in callbacks then callbacks[h] else []);
      }
      assert HandleOk(h);
      queue := queue[1..];
      h.finished := true;
    }

    /** The close callback of a queued handle. */
    method RunCallback(h: Handle, cs: seq<Command>)
      requires Valid() && h in queue && h.calls == 0 && forall c | c in cs :: c.h in all
      modifies this, all
      ensures Valid() && all == old(all) && queue == old(queue) && h.calls == 1
      ensures forall g | g in all :: g.finished == old(g.finished) && (g != h ==> g.calls == old(g.calls))
      ensures forall g | g in all :: old(g.closing) ==> g.closing && g.hasCallback == old(g.hasCallback)
      ensures forall g | g in all :: old(Settled(g)) ==> Settled(g)
    {
      assert HandleOk(h);
      h.calls := h.calls + 1;
      ExecuteAll(cs);
    }

    /** vox_handle_process_closing: the callback of every handle closed so far runs once, whatever the callbacks do. */
    method ProcessClosing(callbacks: map<Handle, seq<Command>>)
      requires Valid() && queue == []
      requires forall h, c | h in callbacks && c in callbacks[h] :: c.h in all
      modifies this, all
      ensures Valid() && queue == [] && all == old(all)
      ensures forall h | h in old(closing) :: h.calls == (if old(h.hasCallback) then 1 else 0) && Settled(h) && h.finished
      ensures forall h | h in all && h !in old(closing) :: h.calls == old(h.calls) && h.finished == old(h.finished)
    {
      hide Settled, HandleOk, Owed;
      ghost var batch := closing;
      Splice();
      ghost var done := 0;
      while queue != []
        invariant Valid() && all == old(all) && done <= |batch| && queue == batch[done..]
        invariant forall h | h in batch :: h.closing && h.hasCallback == old(h.hasCallback)
        invariant forall i | 0 <= i < done :: batch[i].calls == (if old(batch[i].hasCallback) then 1 else 0) && Settled(batch[i])
        invariant forall i | 0 <= i < done :: batch[i].finished
        invariant forall i | done <= i < |batch| :: batch[i].calls == 0
        invariant forall h | h in all && h !in batch :: h.calls == old(h.calls) && h.finished == old(h.finished)
        decreases |batch| - done
      {
        var h := ProcessOne(callbacks);
        assert h == batch[done];
        done := done + 1;
      }
    }

    /** With or without a callback: between calls of vox_handle_process_closing, a closed handle without references is past
        its callback or waits for the next call exactly if it was closed while it had a reference. */
    lemma NoneForgotten(h: Handle)
      requires Valid() && h in all && queue == [] && h.closing && h.refCount == 0
      ensures h.counted <==> h in closing || h.finished
      ensures h.calls == if h.finished && h.hasCallback then 1 else 0
    {
      assert HandleOk(h) && Owed(h);
    }

    /** Any run of operations and of vox_handle_process_closing: no callback runs twice, and none while its handle has
        references. */
    method Run(events: seq<Event>)
      requires Valid() && queue == [] && forall e | e in events :: EventOk(e, all)
      modifies this, all
      ensures Valid() && queue == [] && all == old(all)
      ensures forall h | h in all :: old(h.calls) <= h.calls <= 1 && (h.calls == 1 ==> h.closing && h.refCount == 0)
    {
      for i := 0 to |events|
        invariant Valid() && queue == [] && all == old(all) && forall h | h in all :: old(h.calls) <= h.calls
      {
        assert EventOk(events[i], all);
        match events[i] {
          case Do(c) => Execute(c);
          case Process(callbacks) =>
            assert forall h | h in all :: HandleOk(h);
            ProcessClosing(callbacks);
        }
      }
      assert forall h | h in all :: HandleOk(h);
    }

    /** A handle with any number of references is closed and every reference is given up: its callback runs at the next
        vox_handle_process_closing, and not before. */
    method CloseAndGiveUp(h: Handle)
      requires Valid() && queue == [] && h in all && !h.closing && h.refCount > 0
      modifies this, all
      ensures Valid() && h.calls == 1 && h.finished
    {
      assert HandleOk(h);
      CloseHandle(h, true);
      while h.refCount > 0
        invariant Valid() && queue == [] && h in all && h.closing && h.hasCallback && h.counted && h.calls == 0 && !h.finished
        invariant h.refCount == 0 ==> h in closing
        invariant all == old(all)
      {
        var n := Release(h);
      }
      ProcessClosing(map[]);
    }

    /** The closing list moves to the queue, so that callbacks may close further handles. */
    method Splice()
      requires Valid() && queue == []
      modifies `queue, `closing
      ensures Valid() && queue == old(closing) && closing == []
      ensures NoRepeats(queue) && forall h | h in queue :: h in all && h.closing && h.calls == 0
    {
      assert forall h | h in closing :: HandleOk(h);
      queue := closing;
      closing := [];
    }
  }

  function Removed(s: seq<Handle>, h: Handle): seq<Handle> {
    if s == [] then [] else if s[0] == h then s[1..] else [s[0]] + Removed(s[1..], h)
  }

  lemma {:induction false} RemovedNone(s: seq<Handle>, h: Handle)
    ensures h !in s ==> Removed(s, h) == s
  {
    if s != [] { RemovedNone(s[1..], h); }
  }

  lemma {:induction false} WithoutOne(s: seq<Handle>, h: Handle, k: nat)
    requires NoRepeats(s) && k < |s| && s[k] == h
    ensures var t := Removed(s, h);
            |t| == |s| - 1 && NoRepeats(t) && h !in t && forall g | g != h :: g in t <==> g in s
  {
    var t := Removed(s, h);
    if s[0] == h {
      assert s == [h] + s[1..];
    } else {
      WithoutOne(s[1..], h, k - 1);
      var u := Removed(s[1..], h);
      assert t == [s[0]] + u && s == [s[0]] + s[1..];
      assert s[0] !in s[1..];
    }
  }

  lemma {:induction false} AsManyAsElements(s: seq<Handle>)
    requires NoRepeats(s)
    ensures |set h | h in s| == |s|
  {
    if s != [] {
      AsManyAsElements(s[1..]);
      assert s == [s[0]] + s[1..];
      assert s[0] !in s[1..];
      assert (set h | h in s) == {s[0]} + set h | h in s[1..];
    }
  }

  /** The loop's counter is the length of its active list and the number of handles whose active flag is set. */
  lemma ActiveCountIs(l: Loop)
    requires l.Valid()
    ensures l.activeCount == |l.active| == |set h | h in l.all && h.active|
  {
    AsManyAsElements(l.active);
    forall h | h in l.all ensures h.active <==> h in l.active {
      assert l.HandleOk(h);
    }
    assert (set h | h in l.all && h.active) == set h | h in l.active;
  }
}
