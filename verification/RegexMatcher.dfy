/** The simulator of vox_regex.c: numbered states, the stamped closure, the lock-step match loop, search and findall. */
module RegexMatcher {
  import opened Prelude
  import opened RegexLang
  import opened RegexNfa
  import opened RegexText
  import opened RegexCompiler

  // ---------- Paths, cut at a character ----------

  /** A run that reads w passes, just before w[k], through a state that reads w[k]. */
  lemma {:induction false} CutSteps(st: Nfa, ic: bool, q: int, w: string, r: nat, n: nat, k: nat) returns (s: nat)
    requires Steps(st, ic, q, w, r, n) && k < |w|
    ensures s < |st| && !st[s].kind.Split? && Consumes(st[s].kind, ic, w[k])
    ensures Path(st, ic, q, w[..k], s) && Path(st, ic, st[s].out1, w[k + 1..], r)
    decreases n
  {
    if st[q].kind.Split? {
      if Steps(st, ic, st[q].out1, w, r, n - 1) {
        s := CutSteps(st, ic, st[q].out1, w, r, n - 1, k);
      } else {
        s := CutSteps(st, ic, st[q].out2, w, r, n - 1, k);
      }
      PathSplit(st, ic, q, w[..k], s);
    } else if k == 0 {
      s := q;
      assert Steps(st, ic, st[s].out1, w[1..], r, n - 1);
      PathRefl(st, ic, s);
    } else {
      s := CutSteps(st, ic, st[q].out1, w[1..], r, n - 1, k - 1);
      assert w[1..][..k - 1] == w[..k][1..];
      assert w[1..][k..] == w[k + 1..];
      PathConsume(st, ic, q, w[..k], s);
    }
  }

  /** Reading one more character: through a state that reads it, then empty edges. */
  lemma PathSnoc(st: Nfa, ic: bool, q: int, u: string, c: char, s: nat, p: nat)
    requires Path(st, ic, q, u, s) && s < |st| && Consumes(st[s].kind, ic, c) && Path(st, ic, st[s].out1, "", p)
    ensures Path(st, ic, q, u + [c], p)
  {
    assert [c][1..] == "";
    PathConsume(st, ic, s, [c], p);
    PathTrans(st, ic, q, u, s, [c], p);
  }

  /** A set of states closed under empty edges. */
  ghost predicate EpsClosed(st: Nfa, V: set<int>, open: set<int>) {
    forall p | p in V && p !in open :: EpsClosedAt(st, V, p)
  }

  ghost predicate EpsClosedAt(st: Nfa, V: set<int>, p: int) {
    0 <= p < |st| && (st[p].kind.Split? ==>
      (st[p].out1 == NULL || st[p].out1 in V) && (st[p].out2 == NULL || st[p].out2 in V))
  }

  lemma {:induction false} ClosedHasSteps(st: Nfa, ic: bool, V: set<int>, q: int, p: nat, n: nat)
    requires EpsClosed(st, V, {}) && q in V && Steps(st, ic, q, "", p, n)
    ensures p in V
    decreases n
  {
    if n > 0 {
      assert EpsClosedAt(st, V, q);
      NullStuck(st, ic, "", p, n - 1);
      if Steps(st, ic, st[q].out1, "", p, n - 1) {
        ClosedHasSteps(st, ic, V, st[q].out1, p, n - 1);
      } else {
        ClosedHasSteps(st, ic, V, st[q].out2, p, n - 1);
      }
    }
  }

  lemma OpenOne(st: Nfa, V: set<int>, open: set<int>, q: int)
    requires EpsClosed(st, V, open)
    ensures EpsClosed(st, V + {q}, open + {q})
  {
    forall p | p in V + {q} && p !in open + {q} ensures EpsClosedAt(st, V + {q}, p) { assert EpsClosedAt(st, V, p); }
  }

  lemma CloseOne(st: Nfa, V: set<int>, open: set<int>, q: int)
    requires EpsClosed(st, V, open + {q}) && 0 <= q < |st|
    requires st[q].kind.Split? ==> (st[q].out1 == NULL || st[q].out1 in V) && (st[q].out2 == NULL || st[q].out2 in V)
    ensures EpsClosed(st, V, open)
  {
  }

  /** Everything new in V' is reachable from q over empty edges. */
  ghost predicate AddedFrom(st: Nfa, ic: bool, q: int, V: set<int>, V': set<int>) {
    forall p | p in V' && p !in V :: p >= 0 && Path(st, ic, q, "", p)
  }

  lemma AddedBoth(st: Nfa, ic: bool, q: nat, V: set<int>, V2: set<int>, V3: set<int>)
    requires q < |st| && st[q].kind.Split?
    requires AddedFrom(st, ic, st[q].out1, V + {q}, V2) && AddedFrom(st, ic, st[q].out2, V2, V3)
    ensures AddedFrom(st, ic, q, V, V3)
  {
    PathRefl(st, ic, q);
    forall p | p in V3 && p !in V ensures p >= 0 && Path(st, ic, q, "", p) {
      if p != q { PathSplit(st, ic, q, "", p); }
    }
  }

  /** A state list holds exactly the states of V that are not splits. */
  ghost predicate Lists(st: Nfa, list: seq<nat>, V: set<int>)
    requires forall p | p in V :: 0 <= p < |st|
  {
    && (forall p | p in V && !st[p].kind.Split? :: p in list)
    && (forall i | 0 <= i < |list| :: list[i] in V && !st[list[i]].kind.Split?)
  }

  // ---------- Numbering the states ----------

  /** Distinct numbers below count for the numbered states; -1 for the others. */
  ghost predicate IdsOk(ids: seq<int>, count: nat) {
    && (forall p | 0 <= p < |ids| :: -1 <= ids[p] < count)
    && (forall p, q | 0 <= p < q < |ids| && ids[p] == ids[q] :: ids[p] == -1)
  }

  ghost function Numbered(ids: seq<int>): (s: set<int>)
    ensures forall p :: p in s <==> 0 <= p < |ids| && ids[p] != -1
  {
    set p | 0 <= p < |ids| && ids[p] != -1
  }

  /** Both out-edges of a numbered state lead to numbered states. */
  ghost predicate LinksNumbered(st: Nfa, ids: seq<int>, open: set<int>)
    requires |ids| == |st|
  {
    forall p | 0 <= p < |st| && ids[p] != -1 && p !in open :: LinksNumberedAt(st, ids, p)
  }

  ghost predicate LinksNumberedAt(st: Nfa, ids: seq<int>, p: int)
    requires |ids| == |st| && 0 <= p < |st|
  {
    HasId(ids, st[p].out1) && HasId(ids, st[p].out2)
  }

  ghost predicate HasId(ids: seq<int>, q: int) {
    q == NULL || (0 <= q < |ids| && ids[q] != -1)
  }

  class Numbering {
    const states: Nfa
    var ids: seq<int>
    var count: nat

    constructor (states: Nfa)
      ensures this.states == states && count == 0 && |ids| == |states| && forall p | 0 <= p < |ids| :: ids[p] == -1
    {
      this.states := states;
      ids, count := seq(|states|, _ => -1), 0;
    }

    /** assign_state_ids: depth first, out1 before out2. */
    method AssignIds(q: int, ghost open: set<int>)
      requires WellLinked(states) && NULL <= q < |states|
      requires |ids| == |states| && IdsOk(ids, count) && LinksNumbered(states, ids, open)
      modifies this
      ensures |ids| == |states| && IdsOk(ids, count) && LinksNumbered(states, ids, open)
      ensures HasId(ids, q)
      ensures forall p | 0 <= p < |ids| && old(ids)[p] != -1 :: ids[p] == old(ids)[p]
      decreases |states| - |Numbered(ids)|
    {
      if q == NULL || ids[q] != -1 { return; }
      hide IdsOk, LinksNumbered;
      AssignOne(states, ids, count, open, q);
      ids := ids[q := count];
      count := count + 1;
      ghost var first := ids;
      AssignIds(states[q].out1, open + {q});
      NumberedGrows(first, ids);
      AssignIds(states[q].out2, open + {q});
      CloseNumbering(states, ids, open, q);
    }
  }

  lemma AssignOne(st: Nfa, ids: seq<int>, count: nat, open: set<int>, q: nat)
    requires |ids| == |st| && IdsOk(ids, count) && LinksNumbered(st, ids, open) && q < |st| && ids[q] == -1
    ensures var ids' := ids[q := count];
            && IdsOk(ids', count + 1) && LinksNumbered(st, ids', open + {q})
            && |Numbered(ids)| < |Numbered(ids')| <= |st|
  {
    var ids' := ids[q := count];
    assert Numbered(ids') == Numbered(ids) + {q};
    NumberedBound(ids');
    forall p | 0 <= p < |st| && ids'[p] != -1 && p !in open + {q} ensures LinksNumberedAt(st, ids', p) {
      assert LinksNumberedAt(st, ids, p);
    }
  }

  lemma CloseNumbering(st: Nfa, ids: seq<int>, open: set<int>, q: nat)
    requires |ids| == |st| && LinksNumbered(st, ids, open + {q}) && q < |st|
    requires HasId(ids, st[q].out1) && HasId(ids, st[q].out2)
    ensures LinksNumbered(st, ids, open)
  {
    assert LinksNumberedAt(st, ids, q);
  }

  lemma NumberedBound(ids: seq<int>)
    ensures |Numbered(ids)| <= |ids|
  {
    SubsetBound(Numbered(ids), |ids|);
  }

  lemma {:induction false} SubsetBound(s: set<int>, n: nat)
    requires forall p | p in s :: 0 <= p < n
    ensures |s| <= n
  {
    if n > 0 {
      SubsetBound(s - {n - 1}, n - 1);
    } else {
      assert forall p :: p !in s;
      assert s == {};
    }
  }

  lemma SetGrows(a: set<int>, b: set<int>)
    requires a <= b
    ensures |a| <= |b|
  {
    assert b == a + (b - a);
  }

  lemma NumberedGrows(before: seq<int>, after: seq<int>)
    requires |before| == |after| && forall p | 0 <= p < |before| && before[p] != -1 :: after[p] == before[p]
    ensures |Numbered(before)| <= |Numbered(after)| <= |after|
  {
    SetGrows(Numbered(before), Numbered(after));
    NumberedBound(after);
  }

  // ---------- Literal prefix ----------

  /** Every accepted word begins with the prefix. */
  ghost predicate PrefixOk(st: Nfa, start: nat, prefix: string) {
    forall w | Accepts(st, false, start, w) :: prefix <= w
  }

  /** Where the walk stands: every accepted word begins with what was collected and is accepted from here on. */
  ghost predicate WalkOk(st: Nfa, start: nat, collected: string, q: int) {
    forall w | Accepts(st, false, start, w) :: collected <= w && 0 <= q && Accepts(st, false, q, w[|collected|..])
  }

  lemma WalkCharacter(st: Nfa, start: nat, collected: string, q: nat)
    requires WalkOk(st, start, collected, q) && q < |st| && st[q].kind.Character?
    ensures WalkOk(st, start, collected + [st[q].kind.ch], st[q].out1)
  {
    var more := collected + [st[q].kind.ch];
    forall w | Accepts(st, false, start, w)
      ensures more <= w && 0 <= st[q].out1 && Accepts(st, false, st[q].out1, w[|more|..])
    {
      var rest := w[|collected|..];
      var m: nat :| m < |st| && st[m].kind.Match? && Path(st, false, q, rest, m);
      var n: nat :| Steps(st, false, q, rest, m, n);
      assert Steps(st, false, st[q].out1, rest[1..], m, n - 1);
      NullStuck(st, false, rest[1..], m, n - 1);
      NotNegative(st, false, st[q].out1, rest[1..], m, n - 1);
      assert rest[1..] == w[|more|..];
      assert Path(st, false, st[q].out1, rest[1..], m);
    }
  }

  lemma WalkSplit(st: Nfa, start: nat, collected: string, q: nat)
    requires WalkOk(st, start, collected, q) && q < |st| && st[q].kind.Split? && st[q].out2 == NULL
    ensures WalkOk(st, start, collected, st[q].out1)
  {
    forall w | Accepts(st, false, start, w)
      ensures 0 <= st[q].out1 && Accepts(st, false, st[q].out1, w[|collected|..])
    {
      var rest := w[|collected|..];
      var m: nat :| m < |st| && st[m].kind.Match? && Path(st, false, q, rest, m);
      var n: nat :| Steps(st, false, q, rest, m, n);
      NullStuck(st, false, rest, m, n - 1);
      NotNegative(st, false, st[q].out1, rest, m, n - 1);
      assert Path(st, false, st[q].out1, rest, m);
    }
  }

  lemma NotNegative(st: Nfa, ic: bool, q: int, w: string, r: nat, n: nat)
    requires Steps(st, ic, q, w, r, n)
    ensures q >= 0
  {
  }

  /** The prefix loop of vox_regex_compile: at most 255 characters along states with a single way on. */
  method ExtractPrefix(st: Nfa, ic: bool, start: nat, ghost f: Frag, ghost L: Lang, ghost c: Cert, ghost m: nat) returns (prefix: string)
    requires Automaton(st, ic, f, L, c, m) && start == f.start
    ensures |prefix| <= 255 && PrefixOk(st, start, prefix)
  {
    var curr: int := start;
    prefix := "";
    ghost var steps := c.rank(start) + 1;
    assert WalkOk(st, start, prefix, start) by {
      assert forall w: string :: w[0..] == w;
    }
    while curr != NULL && |prefix| < 255
      invariant |prefix| <= 255 && WalkOk(st, start, prefix, curr)
      invariant curr == NULL || (curr == m && steps == 0) || (curr in c.states && steps == c.rank(curr) + 1)
      decreases if curr == NULL then 0 else steps + 1
    {
      assert curr in c.states && curr != f.end ==> StateOk(st, ic, c, curr);
      if st[curr].kind.Character? {
        WalkCharacter(st, start, prefix, curr);
        prefix := prefix + [st[curr].kind.ch];
        curr := st[curr].out1;
      } else if st[curr].kind.Split? && st[curr].out1 != NULL && st[curr].out2 == NULL {
        WalkSplit(st, start, prefix, curr);
        curr := st[curr].out1;
      } else {
        break;
      }
      steps := if curr in c.states then c.rank(curr) + 1 else 0;
    }
  }

  // ---------- Compiled patterns ----------

  /** What vox_regex_compile returns. The has-lazy flag is found by scanning the pattern text, so it is a parameter here. */
  datatype Regex = Regex(states: Nfa, start: nat, ids: seq<int>, stateCount: nat, prefix: Option<string>,
                         ignoreCase: bool, hasNonGreedy: bool)
  {
    ghost predicate Valid() {
      && WellLinked(states) && start < |states|
      && |ids| == |states| && IdsOk(ids, stateCount) && LinksNumbered(states, ids, {}) && ids[start] != -1
      && (prefix.Some? ==> |prefix.value| > 0 && PrefixOk(states, start, prefix.value))
    }

    ghost predicate AcceptsWord(w: string) {
      Accepts(states, ignoreCase, start, w)
    }

    /** text[s..e] is accepted. */
    ghost predicate IsMatch(text: string, s: nat, e: nat) {
      s <= e <= |text| && AcceptsWord(text[s..e])
    }

    /** Some accepted piece of the text starts at s. */
    ghost predicate StartsMatch(text: string, s: nat) {
      exists e: nat :: IsMatch(text, s, e)
    }

    /** The end that an unanchored match attempt at s reports: the nearest with a lazy pattern, the furthest otherwise. */
    ghost predicate IsChosenEnd(text: string, s: nat, e: nat) {
      && IsMatch(text, s, e)
      && forall e': nat | IsMatch(text, s, e') :: if hasNonGreedy then e <= e' else e' <= e
    }
  }

  lemma ValidLinks(r: Regex, q: nat)
    requires r.Valid() && q < |r.ids| && r.ids[q] != -1
    ensures q < |r.states| && HasId(r.ids, r.states[q].out1) && HasId(r.ids, r.states[q].out2)
  {
    assert LinksNumberedAt(r.states, r.ids, q);
  }

  /** vox_regex_compile on a pattern's syntax tree. */
  method CompileRegex(e: Expr, ignoreCase: bool, hasNonGreedy: bool) returns (r: Regex)
    requires InScope(e)
    ensures r.Valid() && r.ignoreCase == ignoreCase && r.hasNonGreedy == hasNonGreedy
    ensures forall w :: r.AcceptsWord(w) <==> w in CompiledExpr(e, ignoreCase)
  {
    hide InCat, Certified;
    var compiler := new Compiler(ignoreCase);
    var start, c, f, m := compiler.Compile(e);
    AutomatonStart(compiler.states, ignoreCase, f, CompiledExpr(e, ignoreCase), c, m);
    var numbering := new Numbering(compiler.states);
    numbering.AssignIds(start, {});
    r := Regex(compiler.states, start, numbering.ids, numbering.count, None, ignoreCase, hasNonGreedy);
    var prefix := ExtractPrefix(compiler.states, ignoreCase, start, f, CompiledExpr(e, ignoreCase), c, m);
    if |prefix| > 0 {
      r := r.(prefix := Some(prefix));
    }
  }

  lemma AutomatonStart(st: Nfa, ic: bool, f: Frag, L: Lang, c: Cert, m: nat)
    requires Automaton(st, ic, f, L, c, m)
    ensures f.start < |st|
  {
  }

  // ---------- Simulation ----------

  /** V is exactly the set of states that reading u can lead to. */
  ghost predicate Frontier(r: Regex, V: set<int>, u: string) {
    && (forall p | p in V :: p >= 0 && Path(r.states, r.ignoreCase, r.start, u, p))
    && (forall p: nat | Path(r.states, r.ignoreCase, r.start, u, p) :: p in V)
  }

  /** What the closure from the start state has collected is the frontier of the empty word. */
  lemma FirstFrontier(r: Regex, V: set<int>)
    requires r.start in V && EpsClosed(r.states, V, {}) && AddedFrom(r.states, r.ignoreCase, r.start, {}, V)
    ensures Frontier(r, V, "")
  {
    forall p: nat | Path(r.states, r.ignoreCase, r.start, "", p) ensures p in V {
      var n: nat :| Steps(r.states, r.ignoreCase, r.start, "", p, n);
      ClosedHasSteps(r.states, r.ignoreCase, V, r.start, p, n);
    }
  }

  /** State s of the frontier of u has been advanced over c. */
  ghost predicate Advanced(r: Regex, s: nat, c: char, V: set<int>) {
    s < |r.states| && (Consumes(r.states[s].kind, r.ignoreCase, c) ==> r.states[s].out1 == NULL || r.states[s].out1 in V)
  }

  /** Once every listed state has been advanced, the closure is the frontier of the longer word. */
  lemma NextFrontier(r: Regex, V: set<int>, u: string, list: seq<nat>, c: char, V': set<int>)
    requires Frontier(r, V, u) && (forall p | p in V :: 0 <= p < |r.states|) && Lists(r.states, list, V)
    requires EpsClosed(r.states, V', {}) && forall i | 0 <= i < |list| :: Advanced(r, list[i], c, V')
    requires forall p | p in V' :: p >= 0 && Path(r.states, r.ignoreCase, r.start, u + [c], p)
    ensures Frontier(r, V', u + [c])
  {
    var w := u + [c];
    forall p: nat | Path(r.states, r.ignoreCase, r.start, w, p) ensures p in V' {
      var n: nat :| Steps(r.states, r.ignoreCase, r.start, w, p, n);
      var s := CutSteps(r.states, r.ignoreCase, r.start, w, p, n, |u|);
      assert w[..|u|] == u && w[|u| + 1..] == "";
      var i :| 0 <= i < |list| && list[i] == s;
      assert Advanced(r, list[i], c, V');
      var k: nat :| Steps(r.states, r.ignoreCase, r.states[s].out1, "", p, k);
      NullStuck(r.states, r.ignoreCase, "", p, k);
      ClosedHasSteps(r.states, r.ignoreCase, V', r.states[s].out1, p, k);
    }
  }

  /** The closure after advancing one more state still reads u + [c]. */
  lemma AdvanceSound(r: Regex, u: string, c: char, s: nat, V: set<int>, V': set<int>)
    requires s < |r.states| && Consumes(r.states[s].kind, r.ignoreCase, c) && Path(r.states, r.ignoreCase, r.start, u, s)
    requires forall p | p in V :: p >= 0 && Path(r.states, r.ignoreCase, r.start, u + [c], p)
    requires AddedFrom(r.states, r.ignoreCase, r.states[s].out1, V, V')
    ensures forall p | p in V' :: p >= 0 && Path(r.states, r.ignoreCase, r.start, u + [c], p)
  {
    forall p | p in V' ensures p >= 0 && Path(r.states, r.ignoreCase, r.start, u + [c], p) {
      if p !in V { PathSnoc(r.states, r.ignoreCase, r.start, u, c, s, p); }
    }
  }

  /** An accepted longer word passes through a listed state. */
  lemma AcceptedNeedsState(r: Regex, V: set<int>, u: string, v: string) returns (s: nat)
    requires Frontier(r, V, u) && (forall p | p in V :: 0 <= p < |r.states|) && r.AcceptsWord(u + v)
    ensures s in V && !r.states[s].kind.Split?
  {
    var w := u + v;
    var m: nat :| m < |r.states| && r.states[m].kind.Match? && Path(r.states, r.ignoreCase, r.start, w, m);
    if v == "" {
      assert w == u;
      s := m;
    } else {
      var n: nat :| Steps(r.states, r.ignoreCase, r.start, w, m, n);
      s := CutSteps(r.states, r.ignoreCase, r.start, w, m, n, |u|);
      assert w[..|u|] == u;
    }
  }

  /** An empty list ends all hope: no longer word is accepted. */
  lemma DeadEnd(r: Regex, V: set<int>, u: string, v: string)
    requires Frontier(r, V, u) && (forall p | p in V :: 0 <= p < |r.states|) && Lists(r.states, [], V)
    ensures !r.AcceptsWord(u + v)
  {
    if r.AcceptsWord(u + v) {
      var s := AcceptedNeedsState(r, V, u, v);
    }
  }

  /** The match context: stamps, the current stamp and the two state lists. */
  class MatchContext {
    const regex: Regex
    const visited: array<nat>
    var generation: nat
    var current: seq<nat>
    var next: seq<nat>

    /** The states whose stamp is the current generation. */
    ghost predicate Stamps(V: set<int>)
      reads this, visited
    {
      && visited.Length == regex.stateCount && |regex.ids| == |regex.states| && IdsOk(regex.ids, regex.stateCount)
      && (forall p | p in V :: 0 <= p < |regex.states| && regex.ids[p] != -1)
      && (forall p | 0 <= p < |regex.states| && regex.ids[p] != -1 :: visited[regex.ids[p]] == generation <==> p in V)
      && (forall i | 0 <= i < visited.Length :: visited[i] <= generation)
    }

    constructor (regex: Regex)
      requires regex.Valid()
      ensures this.regex == regex && fresh(visited) && visited.Length == regex.stateCount
    {
      this.regex := regex;
      visited := new nat[regex.stateCount](_ => 0);
      generation, current, next := 1, [], [];
    }

    /** The test visited[state->id] == generation. */
    method IsStamped(q: nat, ghost V: set<int>) returns (b: bool)
      requires Stamps(V) && q < |regex.ids| && regex.ids[q] != -1
      ensures b <==> q in V
    {
      b := visited[regex.ids[q]] == generation;
    }

    lemma StampedRange(V: set<int>)
      requires Stamps(V)
      ensures |regex.ids| == |regex.states| && forall p | p in V :: 0 <= p < |regex.states|
    {
    }

    /** Stamps one more state. */
    method Mark(q: nat, ghost V: set<int>)
      requires Stamps(V) && q < |regex.ids| && regex.ids[q] != -1
      modifies visited
      ensures Stamps(V + {q})
    {
      visited[regex.ids[q]] := generation;
    }

    /** add_state: appends to the list every non-split state reachable over empty edges that is not stamped yet. */
    method AddState(list: seq<nat>, q: int, ghost V: set<int>, ghost open: set<int>) returns (list': seq<nat>, ghost V': set<int>)
      requires regex.Valid() && Stamps(V) && HasId(regex.ids, q) && forall p | p in V :: 0 <= p < |regex.states|
      requires EpsClosed(regex.states, V, open) && Lists(regex.states, list, V)
      modifies visited
      ensures Stamps(V') && V <= V' && (q == NULL || q in V')
      ensures forall p | p in V' :: 0 <= p < |regex.states|
      ensures EpsClosed(regex.states, V', open) && Lists(regex.states, list', V')
      ensures AddedFrom(regex.states, regex.ignoreCase, q, V, V')
      decreases |regex.states| - |V|
    {
      hide PrefixOk, WellLinked, Path, EpsClosed, EpsClosedAt, IdsOk, Stamps, LinksNumbered;
      if q == NULL { return list, V; }
      var seen := IsStamped(q, V);
      if seen { return list, V; }
      ValidLinks(regex, q);
      StampedRange(V);
      Mark(q, V);
      SubsetBound(V + {q}, |regex.states|);
      OpenOne(regex.states, V, open, q);
      if regex.states[q].kind.Split? {
        ghost var V2;
        list', V2 := AddState(list, regex.states[q].out1, V + {q}, open + {q});
        SetGrows(V + {q}, V2);
        StampedRange(V2);
        SubsetBound(V2, |regex.states|);
        list', V' := AddState(list', regex.states[q].out2, V2, open + {q});
        AddedBoth(regex.states, regex.ignoreCase, q, V, V2, V');
      } else {
        PathRefl(regex.states, regex.ignoreCase, q);
        list', V' := list + [q], V + {q};
      }
      StampedRange(V');
      CloseOne(regex.states, V', open, q);
    }

    /** The reset at the head of a match attempt: all stamps cleared, generation 1. */
    method Reset()
      requires visited.Length == regex.stateCount && |regex.ids| == |regex.states| && IdsOk(regex.ids, regex.stateCount)
      modifies this, visited
      ensures Stamps({}) && generation == 1 && current == [] && next == []
    {
      current, next, generation := [], [], 1;
      for i := 0 to visited.Length
        invariant current == [] && next == [] && generation == 1
        invariant forall j | 0 <= j < i :: visited[j] == 0
      {
        visited[i] := 0;
      }
    }

    /** No state carries a stamp that has not been used yet. */
    method NewGeneration(ghost V: set<int>)
      requires Stamps(V) && generation + 1 < TWO_32
      modifies this`generation
      ensures Stamps({}) && generation == old(generation) + 1
    {
      generation := (generation + 1) % TWO_32;
    }

    /** has_match_state. */
    method HasMatchState(ghost V: set<int>, ghost u: string) returns (b: bool)
      requires Frontier(regex, V, u) && (forall p | p in V :: 0 <= p < |regex.states|) && Lists(regex.states, current, V)
      ensures b <==> regex.AcceptsWord(u)
    {
      b := false;
      for i := 0 to |current|
        invariant forall j | 0 <= j < i :: !regex.states[current[j]].kind.Match?
      {
        if regex.states[current[i]].kind.Match? {
          assert Path(regex.states, regex.ignoreCase, regex.start, u, current[i]);
          return true;
        }
      }
      assert forall p | p in V :: !regex.states[p].kind.Match?;
    }

    /** One round of the match loop: every listed state that reads ch is advanced, then the lists are swapped. */
    method Advance(ch: char, ghost V: set<int>, ghost u: string) returns (ghost V': set<int>)
      requires regex.Valid() && Stamps(V) && Frontier(regex, V, u) && (forall p | p in V :: 0 <= p < |regex.states|)
      requires Lists(regex.states, current, V)
      requires generation + 1 < TWO_32
      modifies this, visited
      ensures Stamps(V') && Frontier(regex, V', u + [ch]) && (forall p | p in V' :: 0 <= p < |regex.states|)
      ensures Lists(regex.states, current, V') && generation == old(generation) + 1
    {
      hide PrefixOk, WellLinked, Path, EpsClosedAt, IdsOk, LinksNumbered, Frontier;
      next := [];
      NewGeneration(V);
      V' := {};
      for i := 0 to |current|
        invariant current == old(current) && generation == old(generation) + 1
        invariant Stamps(V') && EpsClosed(regex.states, V', {}) && (forall p | p in V' :: 0 <= p < |regex.states|)
        invariant Lists(regex.states, next, V')
        invariant forall p | p in V' :: p >= 0 && Path(regex.states, regex.ignoreCase, regex.start, u + [ch], p)
        invariant forall j | 0 <= j < i :: Advanced(regex, current[j], ch, V')
      {
        var s := current[i];
        if Consumes(regex.states[s].kind, regex.ignoreCase, ch) {
          ghost var W := V';
          var list := next;
          FrontierHas(regex, V, u, s);
          ValidLinks(regex, s);
          list, V' := AddState(list, regex.states[s].out1, W, {});
          AdvanceSound(regex, u, ch, s, W, V');
          next := list;
          AdvancedGrows(regex, current[..i], ch, W, V');
        }
      }
      NextFrontier(regex, V, u, current, ch, V');
      current, next := next, current;
    }

    /** match_internal_with_context: the lock-step loop over the text from startPos. */
    method MatchFrom(text: string, startPos: nat, fullMatch: bool) returns (best: Option<nat>)
      requires regex.Valid() && startPos <= |text| && |text| - startPos + 1 < TWO_32
      requires visited.Length == regex.stateCount
      modifies this, visited
      ensures fullMatch ==> best == if regex.IsMatch(text, startPos, |text|) then Some(|text|) else None
      ensures !fullMatch ==> if regex.StartsMatch(text, startPos) then best.Some? && regex.IsChosenEnd(text, startPos, best.value) else best == None
    {
      hide PrefixOk, WellLinked, Path, EpsClosed, EpsClosedAt, IdsOk, LinksNumbered, Frontier, Lists, Accepts;
      Reset();
      best := None;
      var list, V := StartStates();
      current := list;
      var pos := startPos;
      assert text[startPos..pos] == "";
      while true
        invariant startPos <= pos <= |text| && generation == 1 + pos - startPos
        invariant Stamps(V) && Frontier(regex, V, text[startPos..pos]) && (forall p | p in V :: 0 <= p < |regex.states|)
        invariant Lists(regex.states, current, V)
        invariant BestSoFar(regex, text, startPos, fullMatch, pos, best)
        invariant !fullMatch && regex.hasNonGreedy ==> best == None
        decreases |text| - pos
      {
        var hit := HasMatchState(V, text[startPos..pos]);
        if hit {
          if fullMatch {
            if pos == |text| { best := Some(pos); }
          } else {
            best := Some(pos);
            assert regex.IsMatch(text, startPos, pos);
            if regex.hasNonGreedy { return; }
          }
        }
        if pos >= |text| || |current| == 0 {
          NoFurtherMatch(regex, V, text, startPos, pos, current);
          assert best.Some? ==> regex.IsMatch(text, startPos, best.value);
          return;
        }
        assert text[startPos..pos] + [text[pos]] == text[startPos..pos + 1];
        V := Advance(text[pos], V, text[startPos..pos]);
        pos := pos + 1;
      }
    }

    /** The closure of the start state. */
    method StartStates() returns (list: seq<nat>, ghost V: set<int>)
      requires regex.Valid() && Stamps({})
      modifies visited
      ensures Stamps(V) && Frontier(regex, V, "") && (forall p | p in V :: 0 <= p < |regex.states|)
      ensures Lists(regex.states, list, V)
    {
      hide PrefixOk, WellLinked, Path, EpsClosedAt, IdsOk, LinksNumbered, Frontier;
      list, V := AddState([], regex.start, {}, {});
      FirstFrontier(regex, V);
    }
  }

  /** The best end among those before pos. */
  ghost predicate BestSoFar(r: Regex, text: string, s: nat, full: bool, pos: nat, best: Option<nat>)
    requires s <= pos <= |text|
  {
    if full then best == None
    else match best
         case None => forall e | s <= e < pos :: !r.IsMatch(text, s, e)
         case Some(b) => s <= b < pos && r.IsMatch(text, s, b) && forall e | b < e < pos :: !r.IsMatch(text, s, e)
  }

  /** At the end of the text, or when no state is left, no longer piece is accepted. */
  lemma NoFurtherMatch(r: Regex, V: set<int>, text: string, s: nat, pos: nat, list: seq<nat>)
    requires s <= pos <= |text| && Frontier(r, V, text[s..pos]) && (forall p | p in V :: 0 <= p < |r.states|)
    requires Lists(r.states, list, V) && (pos == |text| || list == [])
    ensures forall e: nat | pos < e :: !r.IsMatch(text, s, e)
  {
    forall e: nat | pos < e <= |text| ensures !r.IsMatch(text, s, e) {
      DeadEnd(r, V, text[s..pos], text[pos..e]);
      assert text[s..pos] + text[pos..e] == text[s..e];
    }
  }

  lemma FrontierHas(r: Regex, V: set<int>, u: string, s: nat)
    requires Frontier(r, V, u) && s in V
    ensures Path(r.states, r.ignoreCase, r.start, u, s)
  {
  }

  lemma AdvancedGrows(r: Regex, list: seq<nat>, c: char, V: set<int>, V': set<int>)
    requires V <= V' && forall i | 0 <= i < |list| :: Advanced(r, list[i], c, V)
    ensures forall i | 0 <= i < |list| :: Advanced(r, list[i], c, V')
  {
    forall i | 0 <= i < |list| ensures Advanced(r, list[i], c, V') { assert Advanced(r, list[i], c, V); }
  }

  // ---------- Public operations ----------

  datatype Span = Span(start: nat, end: nat)

  /** vox_regex_match: the whole text. */
  method MatchWhole(regex: Regex, text: string) returns (matched: bool)
    requires regex.Valid() && |text| + 1 < TWO_32
    ensures matched <==> regex.AcceptsWord(text)
  {
    var ctx := new MatchContext(regex);
    var best := ctx.MatchFrom(text, 0, true);
    matched := best.Some?;
    assert text[0..|text|] == text;
  }

  ghost predicate StandsAt(text: string, p: nat, prefix: string) {
    p + |prefix| <= |text| && text[p..p + |prefix|] == prefix
  }

  /** strstr on the text, which ends at its first NUL: the least position from `from` where the prefix stands. */
  method Strstr(text: string, from: nat, prefix: string) returns (at: Option<nat>)
    requires from <= |text| && |prefix| > 0 && '\0' !in text
    ensures at.Some? ==> from <= at.value && StandsAt(text, at.value, prefix)
    ensures forall p: nat | from <= p && (at.Some? ==> p < at.value) :: !StandsAt(text, p, prefix)
  {
    var i := from;
    while i + |prefix| <= |text|
      invariant from <= i <= |text|
      invariant forall p: nat | from <= p < i :: !StandsAt(text, p, prefix)
    {
      if text[i..i + |prefix|] == prefix { return Some(i); }
      i := i + 1;
    }
    at := None;
  }

  /** No accepted piece starts at any of the positions from..to. */
  ghost predicate NoMatchIn(regex: Regex, text: string, from: nat, to: nat) {
    forall s: nat | from <= s < to :: !regex.StartsMatch(text, s)
  }

  /** Where the prefix does not stand, no match starts. */
  lemma PrefixNeeded(regex: Regex, text: string, s: nat)
    requires regex.Valid() && regex.prefix.Some? && !regex.ignoreCase && regex.StartsMatch(text, s)
    ensures StandsAt(text, s, regex.prefix.value)
  {
    var e: nat :| regex.IsMatch(text, s, e);
    assert regex.prefix.value <= text[s..e];
    assert text[s..e][..|regex.prefix.value|] == text[s..s + |regex.prefix.value|];
  }

  /** The leftmost match from `from` on, with the end a match attempt there reports. */
  ghost predicate IsLeftmost(regex: Regex, text: string, from: nat, m: Span) {
    from <= m.start && NoMatchIn(regex, text, from, m.start) && regex.IsChosenEnd(text, m.start, m.end)
  }

  /** vox_regex_search_with_context: tries positions in turn, skipping with the literal prefix. */
  method Search(ctx: MatchContext, text: string, startPos: nat) returns (m: Option<Span>)
    requires ctx.regex.Valid() && ctx.visited.Length == ctx.regex.stateCount
    requires startPos <= |text| && |text| + 1 < TWO_32 && '\0' !in text
    modifies ctx, ctx.visited
    ensures m.Some? ==> IsLeftmost(ctx.regex, text, startPos, m.value)
    ensures m == None ==> NoMatchIn(ctx.regex, text, startPos, |text| + 1)
  {
    hide PrefixOk, WellLinked, Path, EpsClosed, EpsClosedAt, IdsOk, LinksNumbered, Frontier, Accepts;
    var regex := ctx.regex;
    var pos := startPos;
    while pos <= |text|
      invariant startPos <= pos <= |text| + 1
      invariant NoMatchIn(regex, text, startPos, pos)
    {
      if regex.prefix.Some? && !regex.ignoreCase && pos < |text| {
        var next := Strstr(text, pos, regex.prefix.value);
        forall s: nat | pos <= s && (next.Some? ==> s < next.value) ensures !regex.StartsMatch(text, s) {
          if regex.StartsMatch(text, s) { PrefixNeeded(regex, text, s); }
        }
        if next == None { return None; }
        pos := next.value;
      }
      var end := ctx.MatchFrom(text, pos, false);
      if end.Some? {
        return Some(Span(pos, end.value));
      }
      if pos == |text| { break; }
      pos := pos + 1;
    }
    assert NoMatchIn(regex, text, startPos, |text| + 1);
    m := None;
  }

  /** Where findall resumes after a match. */
  function Resume(from: nat, m: Span): nat {
    if m.end > from then m.end else from + 1
  }

  /** A complete scan: each match is the leftmost from where the scan resumed, and none starts after the last. */
  ghost predicate IsScan(regex: Regex, text: string, from: nat, ms: seq<Span>)
    decreases |ms|
  {
    if ms == [] then NoMatchIn(regex, text, from, |text| + 1)
    else IsLeftmost(regex, text, from, ms[0]) && IsScan(regex, text, Resume(from, ms[0]), ms[1..])
  }

  /** The part of a scan that has been done, with the position it has reached. */
  ghost predicate ScanTo(regex: Regex, text: string, from: nat, ms: seq<Span>, to: nat)
    decreases |ms|
  {
    if ms == [] then to == from
    else IsLeftmost(regex, text, from, ms[0]) && ScanTo(regex, text, Resume(from, ms[0]), ms[1..], to)
  }

  lemma {:induction false} ScanSnoc(regex: Regex, text: string, from: nat, ms: seq<Span>, to: nat, m: Span)
    requires ScanTo(regex, text, from, ms, to) && IsLeftmost(regex, text, to, m)
    ensures ScanTo(regex, text, from, ms + [m], Resume(to, m))
    decreases |ms|
  {
    if ms == [] {
      assert ([m])[1..] == [];
    } else {
      ScanSnoc(regex, text, Resume(from, ms[0]), ms[1..], to, m);
      assert (ms + [m])[1..] == ms[1..] + [m];
    }
  }

  lemma {:induction false} ScanDone(regex: Regex, text: string, from: nat, ms: seq<Span>, to: nat)
    requires ScanTo(regex, text, from, ms, to) && NoMatchIn(regex, text, to, |text| + 1)
    ensures IsScan(regex, text, from, ms)
    decreases |ms|
  {
    if ms != [] { ScanDone(regex, text, Resume(from, ms[0]), ms[1..], to); }
  }

  /** vox_regex_findall. */
  method FindAll(regex: Regex, text: string) returns (ms: seq<Span>)
    requires regex.Valid() && |text| + 1 < TWO_32 && '\0' !in text
    ensures IsScan(regex, text, 0, ms)
  {
    var ctx := new MatchContext(regex);
    ms := [];
    var pos := 0;
    while pos <= |text|
      invariant ScanTo(regex, text, 0, ms, pos)
      invariant fresh(ctx) && fresh(ctx.visited) && ctx.regex == regex && ctx.visited.Length == regex.stateCount
      decreases |text| + 1 - pos
    {
      var m := Search(ctx, text, pos);
      if m == None {
        ScanDone(regex, text, 0, ms, pos);
        return;
      }
      ScanSnoc(regex, text, 0, ms, pos, m.value);
      ms := ms + [m.value];
      pos := Resume(pos, m.value);
    }
    ScanDone(regex, text, 0, ms, pos);
  }

  /** A pattern that accepts the empty word matches wherever the scan stands, so an empty match never lies ahead. */
  lemma EmptyMatchIsHere(regex: Regex, text: string, from: nat, m: Span)
    requires IsLeftmost(regex, text, from, m) && m.start == m.end
    ensures m.start == from
  {
    if from < m.start {
      assert text[from..from] == text[m.start..m.end];
      assert regex.IsMatch(text, from, from);
      assert regex.StartsMatch(text, from);
    }
  }

  /** The matches of a scan come in strictly increasing order and do not overlap. */
  lemma {:induction false} ScanIncreases(regex: Regex, text: string, from: nat, ms: seq<Span>)
    requires IsScan(regex, text, from, ms)
    ensures forall i | 0 <= i < |ms| :: from <= ms[i].start <= ms[i].end <= |text|
    ensures forall i, j | 0 <= i < j < |ms| :: ms[i].start < ms[j].start && ms[i].end <= ms[j].start
    decreases |ms|
  {
    if ms != [] {
      var r := Resume(from, ms[0]);
      ScanIncreases(regex, text, r, ms[1..]);
      if ms[0].start == ms[0].end { EmptyMatchIsHere(regex, text, from, ms[0]); }
      assert forall j | 1 <= j < |ms| :: ms[j] == ms[1..][j - 1];
    }
  }

  /** Every start of a match that a scan passes over lies inside an earlier match of the scan or is one of its starts. */
  lemma {:induction false} ScanMissesNone(regex: Regex, text: string, from: nat, ms: seq<Span>, s: nat)
    requires IsScan(regex, text, from, ms) && from <= s && regex.StartsMatch(text, s)
    ensures exists i :: 0 <= i < |ms| && ms[i].start <= s && (s == ms[i].start || s < ms[i].end)
    decreases |ms|
  {
    var e: nat :| regex.IsMatch(text, s, e);
    if ms != [] {
      var m, r := ms[0], Resume(from, ms[0]);
      if s < m.start {
      } else if s < r {
        if m.start == m.end { EmptyMatchIsHere(regex, text, from, m); }
        assert ms[0].start <= s && (s == ms[0].start || s < ms[0].end);
      } else {
        ScanMissesNone(regex, text, r, ms[1..], s);
        var i :| 0 <= i < |ms[1..]| && ms[1..][i].start <= s && (s == ms[1..][i].start || s < ms[1..][i].end);
        assert ms[1..][i] == ms[i + 1];
      }
    }
  }

  // ---------- From pattern to result ----------

  /** vox_regex_compile on a pattern with the tree e: the flag is what the scan of the pattern's text finds. */
  method CompilePattern(pattern: string, e: Expr, ignoreCase: bool, ghost sp: Spelling) returns (r: Regex)
    requires InScope(e) && Sensible(sp) && pattern == ExprText(sp, e)
    ensures r.Valid() && r.ignoreCase == ignoreCase && (r.hasNonGreedy <==> LazyExpr(e) || MisreadExpr(sp, e))
    ensures forall w :: r.AcceptsWord(w) <==> w in CompiledExpr(e, ignoreCase)
  {
    hide Marked, ExprText;
    var lazy := ScanForLazy(pattern);
    MarkedExpr(sp, e);
    r := CompileRegex(e, ignoreCase, lazy);
  }

  /** vox_regex_compile then vox_regex_match, on patterns within the compiler's limits. */
  method CompileAndMatch(pattern: string, e: Expr, ignoreCase: bool, ghost sp: Spelling, text: string) returns (matched: bool)
    requires InScope(e) && SupportedExpr(e) && Sensible(sp) && pattern == ExprText(sp, e) && |text| + 1 < TWO_32
    ensures matched <==> text in ExprLang(e, ignoreCase)
  {
    var r := CompilePattern(pattern, e, ignoreCase, sp);
    matched := MatchWhole(r, text);
    SupportedExprMeaning(e, ignoreCase);
  }

  /** The piece of the text from s to t is in the language of the pattern. */
  ghost predicate Matches(e: Expr, ignoreCase: bool, text: string, s: nat, t: nat) {
    s <= t <= |text| && text[s..t] in ExprLang(e, ignoreCase)
  }

  /** vox_regex_compile then vox_regex_search, on patterns within the compiler's limits: the leftmost match in the
      language, as short as possible if the pattern has, or seems to have, a lazy quantifier, and as long as possible if not. */
  method CompileAndSearch(pattern: string, e: Expr, ignoreCase: bool, ghost sp: Spelling, text: string, startPos: nat)
    returns (m: Option<Span>)
    requires InScope(e) && SupportedExpr(e) && Sensible(sp) && pattern == ExprText(sp, e)
    requires startPos <= |text| && |text| + 1 < TWO_32 && '\0' !in text
    ensures m == None ==> forall s: nat, t: nat | startPos <= s :: !Matches(e, ignoreCase, text, s, t)
    ensures m.Some? ==>
              && startPos <= m.value.start && Matches(e, ignoreCase, text, m.value.start, m.value.end)
              && (forall s: nat, t: nat | startPos <= s < m.value.start :: !Matches(e, ignoreCase, text, s, t))
              && (forall t: nat | Matches(e, ignoreCase, text, m.value.start, t) ::
                    if LazyExpr(e) || MisreadExpr(sp, e) then m.value.end <= t else t <= m.value.end)
  {
    hide Accepts, WellLinked, IdsOk, LinksNumbered, PrefixOk;
    var r := CompilePattern(pattern, e, ignoreCase, sp);
    SupportedExprMeaning(e, ignoreCase);
    var ctx := new MatchContext(r);
    m := Search(ctx, text, startPos);
    MatchesAre(r, e, text);
  }

  lemma MatchesAre(r: Regex, e: Expr, text: string)
    requires forall w :: r.AcceptsWord(w) <==> w in ExprLang(e, r.ignoreCase)
    ensures forall s: nat, t: nat :: Matches(e, r.ignoreCase, text, s, t) <==> r.IsMatch(text, s, t)
    ensures forall s: nat, t: nat | Matches(e, r.ignoreCase, text, s, t) :: r.StartsMatch(text, s)
  {
  }
}
