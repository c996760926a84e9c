/** Automata as vox_regex.c links them. */
module RegexNfa {
  import opened RegexLang

  /*
   The states lie in one arena, joined by two out-edges; a fragment of them has an entry and an open end. It comes with
   a certificate from which both inclusions of "the fragment accepts L" follow: a language for every state that every
   edge respects, and a path for every word.
   */

  /** A state pointer is a position in the arena; NULL is none. */
  const NULL: int := -1

  datatype Kind = Match | Character(ch: char) | Split | CharSet(chars: set<char>)

  datatype State = State(kind: Kind, out1: int, out2: int, groupId: int, groupStart: bool, nonGreedy: bool)

  type Nfa = seq<State>

  predicate Consumes(k: Kind, ignoreCase: bool, c: char) {
    match k
    case Character(ch) => SameChar(ignoreCase, c, ch)
    case CharSet(chars) => c in chars
    case _ => false
  }

  ghost function KindLang(k: Kind, ignoreCase: bool): Lang {
    CharLang(iset c: char | Consumes(k, ignoreCase, c))
  }

  // ---------- Runs of an automaton ----------

  /** From q, n edges lead to r and read w. */
  ghost predicate Steps(st: Nfa, ic: bool, q: int, w: string, r: nat, n: nat)
    decreases n
  {
    if n == 0 then q == r && w == ""
    else
      0 <= q < |st| &&
      if st[q].kind.Split? then
        Steps(st, ic, st[q].out1, w, r, n - 1) || Steps(st, ic, st[q].out2, w, r, n - 1)
      else
        |w| > 0 && Consumes(st[q].kind, ic, w[0]) && Steps(st, ic, st[q].out1, w[1..], r, n - 1)
  }

  ghost predicate Path(st: Nfa, ic: bool, q: int, w: string, r: nat) {
    exists n: nat :: Steps(st, ic, q, w, r, n)
  }

  lemma PathRefl(st: Nfa, ic: bool, q: nat)
    ensures Path(st, ic, q, "", q)
  {
    assert Steps(st, ic, q, "", q, 0);
  }

  lemma {:induction false} StepsTrans(st: Nfa, ic: bool, q: int, u: string, p: nat, n: nat, v: string, r: nat, m: nat)
    requires Steps(st, ic, q, u, p, n) && Steps(st, ic, p, v, r, m)
    ensures Steps(st, ic, q, u + v, r, n + m)
    decreases n
  {
    if n == 0 {
      assert u + v == v;
    } else if st[q].kind.Split? {
      if Steps(st, ic, st[q].out1, u, p, n - 1) {
        StepsTrans(st, ic, st[q].out1, u, p, n - 1, v, r, m);
      } else {
        StepsTrans(st, ic, st[q].out2, u, p, n - 1, v, r, m);
      }
    } else {
      StepsTrans(st, ic, st[q].out1, u[1..], p, n - 1, v, r, m);
      assert (u + v)[1..] == u[1..] + v;
    }
  }

  lemma PathTrans(st: Nfa, ic: bool, q: int, u: string, p: nat, v: string, r: nat)
    requires Path(st, ic, q, u, p) && Path(st, ic, p, v, r)
    ensures Path(st, ic, q, u + v, r)
  {
    var n: nat :| Steps(st, ic, q, u, p, n);
    var m: nat :| Steps(st, ic, p, v, r, m);
    StepsTrans(st, ic, q, u, p, n, v, r, m);
  }

  /** A path through an out-edge of a split. */
  lemma PathSplit(st: Nfa, ic: bool, q: int, w: string, r: nat)
    requires 0 <= q < |st| && st[q].kind.Split?
    requires Path(st, ic, st[q].out1, w, r) || Path(st, ic, st[q].out2, w, r)
    ensures Path(st, ic, q, w, r)
  {
    if Path(st, ic, st[q].out1, w, r) {
      var n: nat :| Steps(st, ic, st[q].out1, w, r, n);
      assert Steps(st, ic, q, w, r, n + 1);
    } else {
      var n: nat :| Steps(st, ic, st[q].out2, w, r, n);
      assert Steps(st, ic, q, w, r, n + 1);
    }
  }

  lemma PathConsume(st: Nfa, ic: bool, q: int, w: string, r: nat)
    requires 0 <= q < |st| && |w| > 0 && Consumes(st[q].kind, ic, w[0])
    requires Path(st, ic, st[q].out1, w[1..], r)
    ensures Path(st, ic, q, w, r)
  {
    var n: nat :| Steps(st, ic, st[q].out1, w[1..], r, n);
    assert Steps(st, ic, q, w, r, n + 1);
  }

  /** Later automata keep every edge of earlier ones; only missing edges may be added. */
  ghost predicate Extends(st: Nfa, st': Nfa) {
    |st| <= |st'| && forall q | 0 <= q < |st| :: KeepsEdges(st[q], st'[q])
  }

  ghost predicate KeepsEdges(s: State, s': State) {
    s'.kind == s.kind && (s.out1 >= 0 ==> s'.out1 == s.out1) && (s.out2 >= 0 ==> s'.out2 == s.out2)
  }

  lemma {:induction false} StepsExtend(st: Nfa, st': Nfa, ic: bool, q: int, w: string, r: nat, n: nat)
    requires Extends(st, st') && Steps(st, ic, q, w, r, n)
    ensures Steps(st', ic, q, w, r, n)
    decreases n
  {
    if n > 0 {
      assert KeepsEdges(st[q], st'[q]);
      if st[q].kind.Split? {
        if Steps(st, ic, st[q].out1, w, r, n - 1) {
          StepsExtend(st, st', ic, st[q].out1, w, r, n - 1);
        } else {
          StepsExtend(st, st', ic, st[q].out2, w, r, n - 1);
        }
      } else {
        StepsExtend(st, st', ic, st[q].out1, w[1..], r, n - 1);
      }
    }
  }

  // ---------- Fragments ----------

  datatype Frag = Frag(start: nat, end: nat)

  /** The states of a fragment; for each, what may still be read from it to the fragment's end; and a rank that
      falls along every chain of states with a single way on. */
  datatype Cert = Cert(states: set<int>, lab: int -> Lang, rank: int -> nat, bound: nat)

  ghost predicate EdgeIn(c: Cert, out: int) {
    out == NULL || out in c.states
  }

  /** The edges of state q stay inside the fragment and respect the labels and ranks. */
  ghost predicate StateOk(st: Nfa, ic: bool, c: Cert, q: int)
    requires 0 <= q < |st|
  {
    var s := st[q];
    && EdgeIn(c, s.out1) && EdgeIn(c, s.out2)
    && match s.kind
       case Match => false
       case Split =>
         && (s.out1 != NULL ==> c.lab(s.out1) <= c.lab(q))
         && (s.out2 != NULL ==> c.lab(s.out2) <= c.lab(q))
         && (s.out1 != NULL && s.out2 == NULL ==> c.rank(s.out1) < c.rank(q))
       case _ =>
         s.out1 != NULL ==> Cat(KindLang(s.kind, ic), c.lab(s.out1)) <= c.lab(q) && c.rank(s.out1) < c.rank(q)
  }

  /** c certifies that, whatever the out-edges of its end are, the fragment reads exactly L from start to end. */
  ghost predicate Certified(st: Nfa, ic: bool, f: Frag, L: Lang, c: Cert) {
    && f.start in c.states && f.end in c.states
    && (forall q | q in c.states :: 0 <= q < |st| && c.rank(q) < c.bound)
    && st[f.end].kind.Split?
    && c.lab(f.end) == Eps()
    && c.lab(f.start) <= L
    && (forall q | q in c.states && q != f.end :: StateOk(st, ic, c, q))
    && Complete(st, ic, f, L)
  }

  ghost predicate Complete(st: Nfa, ic: bool, f: Frag, L: Lang) {
    forall w | w in L :: Path(st, ic, f.start, w, f.end)
  }

  /** A split with no out-edges: where a fragment is still open. */
  predicate Bare(s: State) {
    s.kind.Split? && s.out1 == NULL && s.out2 == NULL
  }

  ghost predicate FragOk(st: Nfa, ic: bool, f: Frag, L: Lang, c: Cert) {
    Certified(st, ic, f, L, c) && Bare(st[f.end])
  }

  /** A certified fragment stays certified when its own states other than the end stay as they are. */
  lemma FrameFrag(st: Nfa, st': Nfa, ic: bool, f: Frag, L: Lang, c: Cert)
    requires Certified(st, ic, f, L, c) && Extends(st, st')
    requires forall q | q in c.states && q != f.end :: st'[q] == st[q]
    ensures Certified(st', ic, f, L, c)
  {
    assert KeepsEdges(st[f.end], st'[f.end]);
    forall q | q in c.states && q != f.end ensures StateOk(st', ic, c, q) {
      assert StateOk(st, ic, c, q);
    }
    forall w | w in L ensures Path(st', ic, f.start, w, f.end) {
      var n: nat :| Steps(st, ic, f.start, w, f.end, n);
      StepsExtend(st, st', ic, f.start, w, f.end, n);
    }
  }

  /** A single split: the fragment of the empty word. */
  lemma BareFrag(st: Nfa, ic: bool, e: nat) returns (c: Cert)
    requires e < |st| && st[e].kind.Split?
    ensures Certified(st, ic, Frag(e, e), Eps(), c) && c.states == {e}
  {
    c := Cert({e}, (q: int) => Eps(), (q: int) => 0, 1);
    PathRefl(st, ic, e);
  }

  /** A state that reads one character, placed before a fragment. */
  lemma ConsumeFrag(st: Nfa, ic: bool, q: nat, f: Frag, L: Lang, c: Cert) returns (c': Cert)
    requires Certified(st, ic, f, L, c) && q < |st| && q !in c.states
    requires st[q].kind.Character? || st[q].kind.CharSet?
    requires st[q].out1 == f.start && st[q].out2 == NULL
    ensures Certified(st, ic, Frag(q, f.end), Cat(KindLang(st[q].kind, ic), L), c') && c'.states == c.states + {q}
  {
    var K := KindLang(st[q].kind, ic);
    c' := Cert(c.states + {q}, (p: int) => if p == q then Cat(K, L) else c.lab(p),
               (p: int) => if p == q then c.bound else c.rank(p), c.bound + 1);
    CatMono(K, K, c.lab(f.start), L);
    forall p | p in c'.states && p != f.end ensures StateOk(st, ic, c', p) {
      if p != q { assert StateOk(st, ic, c, p); }
    }
    forall w | w in Cat(K, L) ensures Path(st, ic, q, w, f.end) {
      var k: nat :| Splits(K, L, w, k);
      PathConsume(st, ic, q, w, f.end);
    }
  }

  /** A split placed before a fragment, with or without a way around it. */
  lemma SplitFrag(st: Nfa, ic: bool, q: nat, f: Frag, L: Lang, c: Cert, around: bool) returns (c': Cert)
    requires Certified(st, ic, f, L, c) && q < |st| && q !in c.states && st[q].kind.Split?
    requires around ==> (st[q].out1 == f.start && st[q].out2 == f.end) || (st[q].out1 == f.end && st[q].out2 == f.start)
    requires !around ==> st[q].out1 == f.start && st[q].out2 == NULL
    ensures Certified(st, ic, Frag(q, f.end), if around then Eps() + L else L, c') && c'.states == c.states + {q}
  {
    var L' := if around then Eps() + L else L;
    c' := Cert(c.states + {q}, (p: int) => if p == q then L' else c.lab(p),
               (p: int) => if p == q then c.bound else c.rank(p), c.bound + 1);
    forall p | p in c'.states && p != f.end ensures StateOk(st, ic, c', p) {
      if p != q { assert StateOk(st, ic, c, p); }
    }
    PathRefl(st, ic, f.end);
    forall w | w in L' ensures Path(st, ic, q, w, f.end) {
      PathSplit(st, ic, q, w, f.end);
    }
  }

  ghost function CatCert(c1: Cert, c2: Cert, L2: Lang): Cert {
    Cert(c1.states + c2.states,
         (q: int) => if q in c1.states then Cat(c1.lab(q), L2) else c2.lab(q),
         (q: int) => if q in c1.states then c1.rank(q) + c2.bound else c2.rank(q),
         c1.bound + c2.bound)
  }

  /** Concatenation: the end of one fragment leads to the start of the next. */
  lemma CatFrag(st: Nfa, ic: bool, f1: Frag, L1: Lang, c1: Cert, f2: Frag, L2: Lang, c2: Cert) returns (c': Cert)
    requires Certified(st, ic, f1, L1, c1) && Certified(st, ic, f2, L2, c2) && c1.states !! c2.states
    requires st[f1.end].out1 == f2.start && st[f1.end].out2 == NULL
    ensures Certified(st, ic, Frag(f1.start, f2.end), Cat(L1, L2), c') && c'.states == c1.states + c2.states
  {
    c' := CatCert(c1, c2, L2);
    CatMono(c1.lab(f1.start), L1, L2, L2);
    forall q | q in c'.states && q != f2.end ensures StateOk(st, ic, c', q) {
      CatFragState(st, ic, f1, L1, c1, f2, L2, c2, q);
    }
    CatFragPaths(st, ic, f1, L1, c1, f2, L2, c2);
  }

  lemma CatFragState(st: Nfa, ic: bool, f1: Frag, L1: Lang, c1: Cert, f2: Frag, L2: Lang, c2: Cert, q: int)
    requires Certified(st, ic, f1, L1, c1) && Certified(st, ic, f2, L2, c2) && c1.states !! c2.states
    requires st[f1.end].out1 == f2.start && st[f1.end].out2 == NULL
    requires q in c1.states + c2.states && q != f2.end
    ensures StateOk(st, ic, CatCert(c1, c2, L2), q)
  {
    var c' := CatCert(c1, c2, L2);
    if q in c2.states {
      assert StateOk(st, ic, c2, q);
    } else if q == f1.end {
      CatEps(L2);
    } else {
      AppendKeepsState(st, ic, c1, c', q, L2);
    }
  }

  lemma CatFragPaths(st: Nfa, ic: bool, f1: Frag, L1: Lang, c1: Cert, f2: Frag, L2: Lang, c2: Cert)
    requires Certified(st, ic, f1, L1, c1) && Certified(st, ic, f2, L2, c2)
    requires st[f1.end].out1 == f2.start
    ensures Complete(st, ic, Frag(f1.start, f2.end), Cat(L1, L2))
  {
    forall w | w in Cat(L1, L2) ensures Path(st, ic, f1.start, w, f2.end) {
      var k: nat :| Splits(L1, L2, w, k);
      PathSplit(st, ic, f1.end, w[k..], f2.end);
      PathTrans(st, ic, f1.start, w[..k], f1.end, w[k..], f2.end);
      assert w[..k] + w[k..] == w;
    }
  }

  /** Appending a language to every label of a fragment keeps its edges right. */
  lemma AppendKeepsState(st: Nfa, ic: bool, c: Cert, c': Cert, q: int, L: Lang)
    requires 0 <= q < |st| && q in c.states && StateOk(st, ic, c, q)
    requires c.states <= c'.states
    requires forall p | p in c.states :: c'.lab(p) == Cat(c.lab(p), L)
    requires forall p | p in c.states :: c'.rank(p) - c.rank(p) == c'.rank(q) - c.rank(q)
    ensures StateOk(st, ic, c', q)
  {
    var s := st[q];
    match s.kind
    case Split =>
      if s.out1 != NULL { CatMono(c.lab(s.out1), c.lab(q), L, L); }
      if s.out2 != NULL { CatMono(c.lab(s.out2), c.lab(q), L, L); }
    case _ =>
      if s.out1 != NULL {
        var K := KindLang(s.kind, ic);
        CatAssoc(K, c.lab(s.out1), L);
        CatMono(Cat(K, c.lab(s.out1)), c.lab(q), L, L);
      }
  }

  /** Alternation: a split leads to both fragments, and both ends lead to a common end. */
  lemma OrFrag(st: Nfa, ic: bool, s: nat, f1: Frag, L1: Lang, c1: Cert, f2: Frag, L2: Lang, c2: Cert, e: nat) returns (c': Cert)
    requires Certified(st, ic, f1, L1, c1) && Certified(st, ic, f2, L2, c2) && c1.states !! c2.states
    requires s < |st| && e < |st| && s != e && s !in c1.states + c2.states && e !in c1.states + c2.states
    requires st[s].kind.Split? && st[s].out1 == f1.start && st[s].out2 == f2.start && st[e].kind.Split?
    requires st[f1.end].out1 == e && st[f1.end].out2 == NULL && st[f2.end].out1 == e && st[f2.end].out2 == NULL
    ensures Certified(st, ic, Frag(s, e), L1 + L2, c') && c'.states == c1.states + c2.states + {s, e}
  {
    c' := Cert(c1.states + c2.states + {s, e},
               (q: int) => if q in c1.states then c1.lab(q) else if q in c2.states then c2.lab(q)
                           else if q == s then L1 + L2 else Eps(),
               (q: int) => if q in c1.states then c1.rank(q) + 1 else if q in c2.states then c2.rank(q) + 1 else 0,
               c1.bound + c2.bound + 1);
    forall q | q in c'.states && q != e ensures StateOk(st, ic, c', q) {
      if q in c1.states && q != f1.end { assert StateOk(st, ic, c1, q); }
      if q in c2.states && q != f2.end { assert StateOk(st, ic, c2, q); }
    }
    PathRefl(st, ic, e);
    PathSplit(st, ic, f1.end, "", e);
    PathSplit(st, ic, f2.end, "", e);
    forall w | w in L1 + L2 ensures Path(st, ic, s, w, e) {
      assert w + "" == w;
      if w in L1 {
        PathTrans(st, ic, f1.start, w, f1.end, "", e);
      } else {
        PathTrans(st, ic, f2.start, w, f2.end, "", e);
      }
      PathSplit(st, ic, s, w, e);
    }
  }

  /** Two out-edges in either order: lazy quantifiers swap them. */
  predicate Outs(s: State, a: int, b: int) {
    s.kind.Split? && ((s.out1 == a && s.out2 == b) || (s.out1 == b && s.out2 == a))
  }

  /** A fragment whose end leads back to the loop's entry or to its own start, or out to e: n more rounds. */
  lemma {:induction false} LoopPath(st: Nfa, ic: bool, f: Frag, L: Lang, c: Cert, back: nat, e: nat, w: string, n: nat)
    requires Certified(st, ic, f, L, c) && Outs(st[f.end], back, e) && w in Pow(L, n)
    requires back == f.start || (back < |st| && st[back].kind.Split? && (st[back].out1 == f.start || st[back].out2 == f.start))
    ensures Path(st, ic, f.end, w, e)
    decreases n
  {
    if n == 0 {
      PathRefl(st, ic, e);
    } else {
      var k: nat :| Splits(L, Pow(L, n - 1), w, k);
      LoopPath(st, ic, f, L, c, back, e, w[k..], n - 1);
      PathTrans(st, ic, f.start, w[..k], f.end, w[k..], e);
      assert w[..k] + w[k..] == w;
      if back != f.start { PathSplit(st, ic, back, w, e); }
    }
    PathSplit(st, ic, f.end, w, e);
  }

  ghost function LoopCert(f: Frag, L: Lang, c: Cert, s: int, entry: Lang, e: int): Cert {
    Cert(c.states + {s, e},
         (q: int) => if q in c.states then Cat(c.lab(q), Star(L)) else if q == s then entry else Eps(),
         (q: int) => if q in c.states then c.rank(q) else if q == s then c.bound else 0,
         c.bound + 1)
  }

  /** The shared part of the loops: every state of the body is labelled with "the rest of this round, then any more". */
  lemma LoopBody(st: Nfa, ic: bool, f: Frag, L: Lang, c: Cert, s: nat, entry: Lang, back: nat, e: nat, q: int)
    requires Certified(st, ic, f, L, c)
    requires s < |st| && e < |st| && s != e && s !in c.states && e !in c.states
    requires Outs(st[f.end], back, e) && (back == s || back == f.start)
    requires back == s ==> entry <= Star(L)
    requires q in c.states
    ensures StateOk(st, ic, LoopCert(f, L, c, s, entry, e), q)
  {
    hide InCat, InStar;
    var c' := LoopCert(f, L, c, s, entry, e);
    if q == f.end {
      LoopLabels(f, L, c);
    } else {
      AppendKeepsState(st, ic, c, c', q, Star(L));
    }
  }

  lemma LoopLabels(f: Frag, L: Lang, c: Cert)
    requires c.lab(f.start) <= L && c.lab(f.end) == Eps()
    ensures Cat(c.lab(f.start), Star(L)) <= Cat(L, Star(L)) <= Star(L)
    ensures Cat(c.lab(f.end), Star(L)) == Star(L) && Eps() <= Star(L)
  {
    hide InCat, InStar;
    CatMono(c.lab(f.start), L, Star(L), Star(L));
    CatEps(Star(L));
    StarUnroll(L);
  }

  /** From the start of a looping body, one round and then any number of further rounds. */
  lemma LoopEntry(st: Nfa, ic: bool, f: Frag, L: Lang, c: Cert, back: nat, e: nat, w: string)
    requires Certified(st, ic, f, L, c) && Outs(st[f.end], back, e) && w in Cat(L, Star(L))
    requires back == f.start || (back < |st| && st[back].kind.Split? && (st[back].out1 == f.start || st[back].out2 == f.start))
    ensures Path(st, ic, f.start, w, e)
  {
    var k: nat :| Splits(L, Star(L), w, k);
    var n: nat :| w[k..] in Pow(L, n);
    LoopPath(st, ic, f, L, c, back, e, w[k..], n);
    PathTrans(st, ic, f.start, w[..k], f.end, w[k..], e);
    assert w[..k] + w[k..] == w;
  }

  /** `*`: an entry split around the body, whose end loops. */
  lemma StarFrag(st: Nfa, ic: bool, f: Frag, L: Lang, c: Cert, s: nat, back: nat, e: nat) returns (c': Cert)
    requires Certified(st, ic, f, L, c)
    requires s < |st| && e < |st| && s != e && s !in c.states && e !in c.states && st[e].kind.Split?
    requires Outs(st[s], f.start, e) && Outs(st[f.end], back, e) && (back == s || back == f.start)
    ensures Certified(st, ic, Frag(s, e), Star(L), c') && c'.states == c.states + {s, e}
  {
    hide InCat, InStar;
    c' := LoopCert(f, L, c, s, Star(L), e);
    LoopLabels(f, L, c);
    forall q | q in c'.states && q != e ensures StateOk(st, ic, c', q) {
      if q in c.states { LoopBody(st, ic, f, L, c, s, Star(L), back, e, q); }
    }
    StarPaths(st, ic, f, L, c, s, back, e);
  }

  lemma StarPaths(st: Nfa, ic: bool, f: Frag, L: Lang, c: Cert, s: nat, back: nat, e: nat)
    requires Certified(st, ic, f, L, c) && s < |st|
    requires Outs(st[s], f.start, e) && Outs(st[f.end], back, e) && (back == s || back == f.start)
    ensures Complete(st, ic, Frag(s, e), Star(L))
  {
    hide InCat, InStar;
    StarUnroll(L);
    forall w | w in Star(L) ensures Path(st, ic, s, w, e) {
      if w in Eps() {
        PathRefl(st, ic, e);
      } else {
        LoopEntry(st, ic, f, L, c, back, e, w);
      }
      PathSplit(st, ic, s, w, e);
    }
  }

  /** `+`: an entry split into the body, whose end loops. */
  lemma PlusFrag(st: Nfa, ic: bool, f: Frag, L: Lang, c: Cert, s: nat, e: nat) returns (c': Cert)
    requires Certified(st, ic, f, L, c)
    requires s < |st| && e < |st| && s != e && s !in c.states && e !in c.states && st[e].kind.Split?
    requires st[s].kind.Split? && st[s].out1 == f.start && st[s].out2 == NULL && Outs(st[f.end], s, e)
    ensures Certified(st, ic, Frag(s, e), Cat(L, Star(L)), c') && c'.states == c.states + {s, e}
  {
    hide InCat, InStar;
    var P := Cat(L, Star(L));
    c' := LoopCert(f, L, c, s, P, e);
    LoopLabels(f, L, c);
    forall q | q in c'.states && q != e ensures StateOk(st, ic, c', q) {
      if q in c.states { LoopBody(st, ic, f, L, c, s, P, s, e, q); }
    }
    forall w | w in P ensures Path(st, ic, s, w, e) {
      LoopEntry(st, ic, f, L, c, s, e, w);
      PathSplit(st, ic, s, w, e);
    }
  }

  /** `?`: an entry split around the body. */
  lemma OptFrag(st: Nfa, ic: bool, f: Frag, L: Lang, c: Cert, s: nat, e: nat) returns (c': Cert)
    requires Certified(st, ic, f, L, c)
    requires s < |st| && e < |st| && s != e && s !in c.states && e !in c.states && st[e].kind.Split?
    requires Outs(st[s], f.start, e) && st[f.end].out1 == e && st[f.end].out2 == NULL
    ensures Certified(st, ic, Frag(s, e), Eps() + L, c') && c'.states == c.states + {s, e}
  {
    hide InCat, InStar;
    var ce := BareFrag(st, ic, e);
    var cb := CatFrag(st, ic, f, L, c, Frag(e, e), Eps(), ce);
    CatEps(L);
    assert Certified(st, ic, Frag(f.start, e), L, cb);
    c' := SplitFrag(st, ic, s, Frag(f.start, e), L, cb, true);
  }

  // ---------- What a certificate proves ----------

  lemma NullStuck(st: Nfa, ic: bool, w: string, r: nat, n: nat)
    ensures !Steps(st, ic, NULL, w, r, n)
  {
  }

  /** An automaton: a fragment whose end leads to the match state. */
  ghost predicate Accepts(st: Nfa, ic: bool, start: nat, w: string) {
    exists m: nat :: m < |st| && st[m].kind.Match? && Path(st, ic, start, w, m)
  }

  /** Closing a fragment with a match state gives an automaton for exactly its language. */
  lemma Closed(st: Nfa, ic: bool, f: Frag, L: Lang, c: Cert, m: nat)
    requires Certified(st, ic, f, L, c) && m < |st| && m !in c.states
    requires st[f.end].out1 == m && st[f.end].out2 == NULL && st[m].kind.Match?
    ensures forall w :: Accepts(st, ic, f.start, w) <==> w in L
  {
    forall w | w in L ensures Accepts(st, ic, f.start, w) {
      PathRefl(st, ic, m);
      PathSplit(st, ic, f.end, "", m);
      PathTrans(st, ic, f.start, w, f.end, "", m);
      assert w + "" == w;
    }
    forall w | Accepts(st, ic, f.start, w) ensures w in L {
      var r: nat :| r < |st| && st[r].kind.Match? && Path(st, ic, f.start, w, r);
      var n: nat :| Steps(st, ic, f.start, w, r, n);
      ClosedLabels(st, ic, f, L, c, m, f.start, w, r, n);
    }
  }

  lemma NoMatchInside(st: Nfa, ic: bool, f: Frag, L: Lang, c: Cert, q: int)
    requires Certified(st, ic, f, L, c) && q in c.states
    ensures !st[q].kind.Match?
  {
    assert q == f.end || StateOk(st, ic, c, q);
  }

  lemma {:induction false} ClosedLabels(st: Nfa, ic: bool, f: Frag, L: Lang, c: Cert, m: nat, q: int, w: string, r: nat, n: nat)
    requires Certified(st, ic, f, L, c) && m < |st| && m !in c.states
    requires st[f.end].out1 == m && st[f.end].out2 == NULL && st[m].kind.Match?
    requires q in c.states && Steps(st, ic, q, w, r, n) && r < |st| && st[r].kind.Match?
    ensures w in c.lab(q)
    decreases n
  {
    NoMatchInside(st, ic, f, L, c, q);
    if n == 0 {
    } else if q == f.end {
      NullStuck(st, ic, w, r, n - 1);
      assert Steps(st, ic, m, w, r, n - 1);
    } else {
      assert StateOk(st, ic, c, q);
      var s := st[q];
      if s.kind.Split? {
        NullStuck(st, ic, w, r, n - 1);
        if Steps(st, ic, s.out1, w, r, n - 1) {
          ClosedLabels(st, ic, f, L, c, m, s.out1, w, r, n - 1);
        } else {
          ClosedLabels(st, ic, f, L, c, m, s.out2, w, r, n - 1);
        }
      } else {
        NullStuck(st, ic, w[1..], r, n - 1);
        ClosedLabels(st, ic, f, L, c, m, s.out1, w[1..], r, n - 1);
        CatIntro(KindLang(s.kind, ic), c.lab(s.out1), [w[0]], w[1..]);
        assert [w[0]] + w[1..] == w;
      }
    }
  }
}
