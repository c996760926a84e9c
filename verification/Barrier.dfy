/** The generation barrier of vox_mutex.c. */
module Barrier {
  import opened Prelude

  /*
   A state machine: count threads call vox_barrier_wait again and again, the parts of a call that hold the mutex are
   single steps, and a sleeping thread may wake at any time for no reason.
   */

  type Tid = nat

  /** A thread outside a call, or asleep in one that read the given generation on arrival. */
  datatype Thread = Outside | Asleep(gen: nat)

  /**
   The barrier's waiting count and generation, the threads, and the bookkeeping of how often each thread has arrived and
   returned and how often the barrier has rounds.
   */
  datatype State = State(
    count: nat, waiting: nat, generation: nat, threads: map<Tid, Thread>,
    arrived: map<Tid, nat>, returned: map<Tid, nat>, rounds: nat)

  ghost predicate Init(s: State) {
    && s.count > 0 && |s.threads| == s.count && s.waiting == 0 && s.generation == 0 && s.rounds == 0
    && s.arrived.Keys == s.threads.Keys && s.returned.Keys == s.threads.Keys
    && forall t | t in s.threads :: s.threads[t] == Outside && s.arrived[t] == 0 && s.returned[t] == 0
  }

  datatype Event = Arrive(t: Tid) | Wake(t: Tid)

  ghost predicate Enabled(s: State, e: Event) {
    && e.t in s.threads && e.t in s.arrived && e.t in s.returned
    && match e case Arrive(t) => s.threads[t].Outside? case Wake(t) => s.threads[t].Asleep?
  }

  /**
   Arrive: the call up to its return or its first sleep. Wake: one turn of the waiting loop, after a broadcast or not.
   */
  ghost function Next(s: State, e: Event): State
    requires Enabled(s, e)
  {
    match e
    case Arrive(t) =>
      var s1 := s.(waiting := s.waiting + 1, arrived := s.arrived[t := s.arrived[t] + 1]);
      if s1.waiting == s.count then
        s1.(waiting := 0, generation := (s.generation + 1) % TWO_32, rounds := s.rounds + 1,
            returned := s.returned[t := s.returned[t] + 1])
      else s1.(threads := s.threads[t := Asleep(s.generation)])
    case Wake(t) =>
      if s.threads[t].gen == s.generation then s
      else s.(threads := s.threads[t := Outside], returned := s.returned[t := s.returned[t] + 1])
  }

  /** The threads that have arrived in the round that is still open. */
  ghost function Waiters(s: State): set<Tid>
    requires s.arrived.Keys == s.threads.Keys
  {
    set t | t in s.threads && s.arrived[t] == s.rounds + 1
  }

  /** A thread is outside with all rounds behind it, waits in the current round, or was released and has yet to wake. */
  ghost predicate ThreadOk(s: State, t: Tid)
    requires t in s.threads && t in s.arrived && t in s.returned
  {
    match s.threads[t]
    case Outside => s.arrived[t] == s.returned[t] == s.rounds
    case Asleep(gen) =>
      && s.returned[t] + 1 == s.arrived[t]
      && (s.arrived[t] == s.rounds || s.arrived[t] == s.rounds + 1)
      && s.arrived[t] > 0 && gen == (s.arrived[t] - 1) % TWO_32
  }

  ghost predicate Inv(s: State) {
    && s.count > 0 && |s.threads| == s.count && s.arrived.Keys == s.threads.Keys && s.returned.Keys == s.threads.Keys
    && s.generation == s.rounds % TWO_32 && s.waiting == |Waiters(s)| < s.count
    && forall t {:trigger ThreadOk(s, t)} | t in s.threads :: ThreadOk(s, t)
  }

  lemma InitInv(s: State)
    requires Init(s)
    ensures Inv(s)
  {
    assert Waiters(s) == {};
    assert forall t | t in s.threads :: ThreadOk(s, t);
  }

  lemma Subset(a: set<Tid>, b: set<Tid>)
    requires a <= b && |a| == |b|
    ensures a == b
  {
    assert b == a + (b - a);
    assert |b| == |a| + |b - a|;
    assert b - a == {};
  }

  lemma SmallerSubset(a: set<Tid>, b: set<Tid>)
    requires a <= b
    ensures |a| <= |b|
  {
    assert |b| == |a| + |b - a| by { assert b == a + (b - a); }
  }

  /** The last thread to arrive finds that all others have arrived, and opens the barrier for them. */
  lemma LastArrival(s: State, t: Tid)
    requires Inv(s) && Enabled(s, Arrive(t)) && s.waiting + 1 == s.count
    ensures forall u | u in s.threads && u != t :: s.arrived[u] == s.rounds + 1 && s.threads[u].Asleep?
    ensures s.arrived[t] == s.rounds
  {
    var w := Waiters(s);
    assert ThreadOk(s, t);
    assert w + {t} <= s.threads.Keys && t !in w;
    Subset(w + {t}, s.threads.Keys);
    forall u | u in s.threads && u != t ensures s.arrived[u] == s.rounds + 1 && s.threads[u].Asleep? {
      assert u in w + {t};
      assert ThreadOk(s, u);
    }
  }

  lemma ArriveKeepsThread(s: State, t: Tid, u: Tid)
    requires Inv(s) && Enabled(s, Arrive(t)) && u in s.threads
    requires s.waiting + 1 == s.count && u != t ==> s.arrived[u] == s.rounds + 1 && s.threads[u].Asleep?
    ensures ThreadOk(Next(s, Arrive(t)), u)
  {
    assert ThreadOk(s, t) && ThreadOk(s, u);
  }

  lemma ArriveWaiters(s: State, t: Tid)
    requires Inv(s) && Enabled(s, Arrive(t))
    ensures var s' := Next(s, Arrive(t)); s'.waiting == |Waiters(s')| < s'.count
  {
    var s' := Next(s, Arrive(t));
    assert ThreadOk(s, t);
    if s.waiting + 1 == s.count {
      LastArrival(s, t);
      assert Waiters(s') == {};
    } else {
      assert Waiters(s') == Waiters(s) + {t};
    }
  }

  lemma SameThreads(s: State, s': State)
    requires s'.threads.Keys == s.threads.Keys
    ensures |s'.threads| == |s.threads|
  {
    assert |s'.threads| == |s'.threads.Keys| == |s.threads.Keys| == |s.threads|;
  }

  lemma ArriveGeneration(s: State, t: Tid)
    requires Enabled(s, Arrive(t)) && s.generation == s.rounds % TWO_32
    requires s.arrived.Keys == s.threads.Keys && s.returned.Keys == s.threads.Keys
    ensures var s' := Next(s, Arrive(t));
            && s'.count == s.count && s'.generation == s'.rounds % TWO_32
            && s'.arrived.Keys == s.arrived.Keys && s'.returned.Keys == s.returned.Keys && s'.threads.Keys == s.threads.Keys
  {
    assert s.threads.Keys + {t} == s.threads.Keys;
  }

  lemma ArriveInv(s: State, t: Tid)
    requires Inv(s) && Enabled(s, Arrive(t))
    ensures Inv(Next(s, Arrive(t)))
  {
    hide ThreadOk, Waiters, Next;
    var s' := Next(s, Arrive(t));
    ArriveGeneration(s, t);
    SameThreads(s, s');
    ArriveWaiters(s, t);
    if s.waiting + 1 == s.count { LastArrival(s, t); }
    forall u | u in s'.threads ensures ThreadOk(s', u) { ArriveKeepsThread(s, t, u); }
  }

  lemma WakeInv(s: State, t: Tid)
    requires Inv(s) && Enabled(s, Wake(t))
    ensures Inv(Next(s, Wake(t)))
  {
    hide ThreadOk;
    var s' := Next(s, Wake(t));
    assert s'.threads.Keys == s.threads.Keys && s'.returned.Keys == s.returned.Keys;
    SameThreads(s, s');
    assert Waiters(s') == Waiters(s);
    forall u | u in s'.threads ensures ThreadOk(s', u) { WakeKeepsThread(s, t, u); }
  }

  /** Every step keeps the invariant. */
  lemma StepInv(s: State, e: Event)
    requires Inv(s) && Enabled(s, e)
    ensures Inv(Next(s, e))
  {
    hide Inv, Next;
    match e {
      case Arrive(t) => ArriveInv(s, t);
      case Wake(t) => WakeInv(s, t);
    }
  }

  lemma WakeKeepsThread(s: State, t: Tid, u: Tid)
    requires Inv(s) && Enabled(s, Wake(t)) && u in s.threads
    ensures ThreadOk(Next(s, Wake(t)), u)
  {
    assert ThreadOk(s, t) && ThreadOk(s, u);
  }

  /** The comparison of 32-bit generations tells the current round from the one before, however often it has wrapped. */
  lemma GenerationTells(s: State, t: Tid)
    requires Inv(s) && t in s.threads && s.threads[t].Asleep?
    ensures s.threads[t].gen == s.generation <==> s.arrived[t] == s.rounds + 1
    ensures s.rounds + 1 == s.arrived[t] || s.rounds == s.arrived[t]
  {
    assert ThreadOk(s, t);
    if s.arrived[t] == s.rounds {
      var k := s.rounds - 1;
      assert k % TWO_32 != (k + 1) % TWO_32;
    }
  }

  /** No call of round k returns before every thread has arrived in round k. */
  lemma NoneLeavesEarly(s: State, e: Event, t: Tid, u: Tid)
    requires Inv(s) && Enabled(s, e) && t in s.threads && u in s.threads
    requires Next(s, e).returned[t] > s.returned[t]
    ensures Next(s, e).arrived[u] >= Next(s, e).returned[t]
  {
    StepInv(s, e);
    var s' := Next(s, e);
    assert ThreadOk(s', t) && ThreadOk(s', u);
    assert s'.threads[t].Outside?  by {
      assert ThreadOk(s, t);
    }
  }

  /** The barrier never gets stuck: some thread has yet to arrive, or some sleeper will leave when it wakes. */
  lemma SomeoneCanGo(s: State)
    requires Inv(s)
    ensures exists e :: Enabled(s, e) && Next(s, e) != s
  {
    var w := Waiters(s);
    if forall t | t in s.threads :: t in w {
      assert s.threads.Keys <= w;
      SmallerSubset(s.threads.Keys, w);
    }
    var t :| t in s.threads && t !in w;
    assert ThreadOk(s, t);
    if s.threads[t].Outside? {
      var s' := Next(s, Arrive(t));
      assert s'.arrived[t] == s.arrived[t] + 1;
    } else {
      GenerationTells(s, t);
      var s' := Next(s, Wake(t));
      assert s'.returned[t] == s.returned[t] + 1;
    }
  }

  /** A call returns at once exactly if it completes the round, and then it opens the barrier; otherwise it sleeps. */
  lemma ArrivalReturns(s: State, t: Tid)
    requires Inv(s) && Enabled(s, Arrive(t))
    ensures var s' := Next(s, Arrive(t));
            && s'.arrived[t] == s.arrived[t] + 1
            && (s'.returned[t] == s'.arrived[t] <==> forall u | u in s.threads && u != t :: s.arrived[u] == s.rounds + 1)
            && (if s'.returned[t] == s'.arrived[t] then s'.rounds == s.rounds + 1 && s'.threads == s.threads
                else s'.rounds == s.rounds && s'.threads[t].Asleep?)
  {
    assert ThreadOk(s, t);
    if s.waiting + 1 == s.count {
      LastArrival(s, t);
    } else if forall u | u in s.threads && u != t :: s.arrived[u] == s.rounds + 1 {
      assert Waiters(s) + {t} == s.threads.Keys;
    }
  }

  /** A sleeper that wakes returns exactly if its round is over, and goes back to sleep without a change otherwise. */
  lemma WakeReturns(s: State, t: Tid)
    requires Inv(s) && Enabled(s, Wake(t))
    ensures var s' := Next(s, Wake(t));
            if s.arrived[t] == s.rounds
            then s'.threads[t] == Outside && s'.returned[t] == s'.arrived[t]
            else s' == s
  {
    GenerationTells(s, t);
    assert ThreadOk(s, t);
  }

  // ---------- Runs ----------

  ghost predicate Run(states: seq<State>, events: seq<Event>) {
    && |states| == |events| + 1 && Init(states[0])
    && forall i | 0 <= i < |events| :: Enabled(states[i], events[i]) && states[i + 1] == Next(states[i], events[i])
  }

  lemma {:induction false} RunInv(states: seq<State>, events: seq<Event>, i: nat)
    requires Run(states, events) && i < |states|
    ensures Inv(states[i])
  {
    if i == 0 {
      InitInv(states[0]);
    } else {
      RunInv(states, events, i - 1);
      StepInv(states[i - 1], events[i - 1]);
    }
  }

  /**
   In every interleaving, with any spurious wake-ups: after each step no thread has returned more often than any other has
   arrived, and the barrier is never more than one round ahead of a thread that still sleeps.
   */
  lemma RoundsStayTogether(states: seq<State>, events: seq<Event>, i: nat, t: Tid, u: Tid)
    requires Run(states, events) && i < |states| && t in states[i].threads && u in states[i].threads
    ensures t in states[i].returned && u in states[i].arrived && states[i].returned[t] <= states[i].arrived[u]
    ensures states[i].arrived[u] <= states[i].rounds + 1
    ensures states[i].threads[u].Asleep? ==> states[i].rounds <= states[i].arrived[u] <= states[i].rounds + 1
  {
    RunInv(states, events, i);
    assert ThreadOk(states[i], t) && ThreadOk(states[i], u);
  }
}
