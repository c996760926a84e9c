/**
 The pattern compiler of vox_regex.c: states are appended to an arena and their out-edges are set in place.

 Each method mirrors one parse function, from the syntax tree on, and returns a fragment with a certificate for the
 language that it accepts. A fragment owns the states of its certificate; linking the open end of one to the start of
 another changes that one state, so the certificates of all other fragments stay valid. The lemmas before the class
 turn the links that a quantifier sets into the certificate of the whole fragment.
 */
module RegexCompiler {
  import opened RegexLang
  import opened RegexNfa

  /** Counted repetition copies the start and the end of the body. */
  predicate CopiesBody(q: Quant) {
    match q
    case Exactly(n, _) => n > 0
    case AtLeast(n, _) => n > 0
    case Between(n, _, _) => n > 0
    case _ => false
  }

  /** Atoms that compile to one reading state and its end: characters, classes, and these in non-capturing groups. */
  predicate OneCharAtom(a: Atom)
    decreases a
  {
    a.Group? ==> !a.capturing && OneCharExpr(a.body)
  }

  predicate OneCharTerm(t: Term)
    decreases t
  {
    t.Single? && t.f.quant.Once? && OneCharAtom(t.f.atom)
  }

  predicate OneCharExpr(e: Expr)
    decreases e
  {
    e.Only? && OneCharTerm(e.t)
  }

  predicate InScopeFactor(f: Factor)
    decreases f
  {
    (CopiesBody(f.quant) ==> OneCharAtom(f.atom)) && (f.atom.Group? ==> InScope(f.atom.body))
  }

  predicate InScopeTerm(t: Term)
    decreases t
  {
    InScopeFactor(t.f) && (t.Then? ==> InScopeTerm(t.rest))
  }

  /** Patterns that copy one-character atoms only; see CopyIsRightExactly for the others. */
  predicate InScope(e: Expr)
    decreases e
  {
    InScopeTerm(e.t) && (e.Or? ==> InScope(e.others))
  }

  ghost function FactorSize(f: Factor): nat
    decreases f
  {
    1 + if f.atom.Group? then ExprSize(f.atom.body) else 0
  }

  ghost function TermSize(t: Term): nat
    decreases t
  {
    1 + FactorSize(t.f) + if t.Then? then TermSize(t.rest) else 0
  }

  ghost function ExprSize(e: Expr): nat
    decreases e
  {
    1 + TermSize(e.t) + if e.Or? then ExprSize(e.others) else 0
  }

  /** Every out-edge is NULL or points into the arena. */
  ghost predicate WellLinked(st: Nfa) {
    forall q | 0 <= q < |st| :: NULL <= st[q].out1 < |st| && NULL <= st[q].out2 < |st|
  }

  /** A freshly created state. */
  function Fresh(k: Kind): State { State(k, NULL, NULL, -1, false, false) }

  /** A state that reads one character and leads to a bare end, and nothing else. */
  ghost predicate OneChar(st: Nfa, ic: bool, f: Frag, L: Lang) {
    && f.start < |st| && f.end < |st|
    && (st[f.start].kind.Character? || st[f.start].kind.CharSet?)
    && st[f.start].out1 == f.end && st[f.start].out2 == NULL && Bare(st[f.end])
    && L == KindLang(st[f.start].kind, ic)
  }

  /** What is left to read after the first factor. */
  ghost function AfterFirst(t: Term, ic: bool): Lang {
    if t.Single? then Eps() else CompiledTerm(t.rest, ic)
  }

  ghost function OtherAlternatives(e: Expr, ic: bool): Lang {
    if e.Only? then iset{} else CompiledExpr(e.others, ic)
  }

  // ---------- Repetition ----------

  ghost function Range(lo: int, hi: int): (s: set<int>)
    ensures forall q :: q in s <==> lo <= q < hi
    decreases hi - lo
  {
    if lo >= hi then {} else {lo} + Range(lo + 1, hi)
  }

  lemma PowThen(A: Lang, n: nat, T: Lang)
    ensures Cat(A, Cat(Pow(A, n), T)) == Cat(Pow(A, n + 1), T)
    ensures Cat(Pow(A, 0), T) == T
  {
    hide InCat;
    CatAssoc(A, Pow(A, n), T);
    assert Pow(A, n + 1) == Cat(A, Pow(A, n));
    CatEps(T);
  }

  /** Clones at b, b + 2, ...: each a copy of the one-character fragment k, linked to the next. */
  ghost predicate Cloned(st: Nfa, k: Kind, b: nat, n: nat) {
    && b + 2 * n <= |st|
    && forall i | 0 <= i < n :: CloneAt(st, k, b + 2 * i)
  }

  ghost predicate CloneAt(st: Nfa, k: Kind, q: nat)
    requires q + 1 < |st|
  {
    && st[q].kind == k && st[q].out1 == q + 1 && st[q].out2 == NULL
    && st[q + 1].kind.Split?
  }

  ghost predicate LinkedTo(st: Nfa, q: nat, next: int)
    requires q < |st|
  {
    st[q].kind.Split? && st[q].out1 == next && st[q].out2 == NULL
  }

  /** Clones i to n - 1 in front of a fragment that starts at the end of the last clone. */
  lemma {:induction false} ChainFrag(st: Nfa, ic: bool, k: Kind, b: nat, n: nat, i: nat, e: nat, T: Lang, ct: Cert) returns (c: Cert)
    requires k.Character? || k.CharSet?
    requires i < n && Cloned(st, k, b, n)
    requires forall j | 0 <= j < n - 1 :: LinkedTo(st, b + 2 * j + 1, b + 2 * j + 2)
    requires Certified(st, ic, Frag(b + 2 * n - 1, e), T, ct)
    requires forall q | b <= q < b + 2 * n - 1 :: q !in ct.states
    ensures Certified(st, ic, Frag(b + 2 * i, e), Cat(Pow(KindLang(k, ic), n - i), T), c)
    ensures c.states == ct.states + Range(b + 2 * i, b + 2 * n - 1)
    decreases n - i
  {
    hide InCat, Certified, StateOk, Pow;
    var A := KindLang(k, ic);
    assert CloneAt(st, k, b + 2 * i);
    if i == n - 1 {
      c := ConsumeFrag(st, ic, b + 2 * i, Frag(b + 2 * n - 1, e), T, ct);
      PowThen(A, 0, T);
    } else {
      var c1 := ChainFrag(st, ic, k, b, n, i + 1, e, T, ct);
      assert LinkedTo(st, b + 2 * i + 1, b + 2 * i + 2);
      var c2 := SplitFrag(st, ic, b + 2 * i + 1, Frag(b + 2 * i + 2, e), Cat(Pow(A, n - i - 1), T), c1, false);
      c := ConsumeFrag(st, ic, b + 2 * i, Frag(b + 2 * i + 1, e), Cat(Pow(A, n - i - 1), T), c2);
      PowThen(A, n - i - 1, T);
    }
  }

  /** An entry split and n linked clones in front of a fragment that starts at the end of the last clone. */
  lemma EntryChain(st: Nfa, ic: bool, k: Kind, b: nat, n: nat, split: nat, e: nat, T: Lang, ct: Cert) returns (c: Cert)
    requires k.Character? || k.CharSet?
    requires 0 < n && Cloned(st, k, b, n) && split < b
    requires forall j | 0 <= j < n - 1 :: LinkedTo(st, b + 2 * j + 1, b + 2 * j + 2)
    requires LinkedTo(st, split, b)
    requires Certified(st, ic, Frag(b + 2 * n - 1, e), T, ct)
    requires forall q | b <= q < b + 2 * n - 1 :: q !in ct.states
    requires split !in ct.states
    ensures Certified(st, ic, Frag(split, e), Cat(Pow(KindLang(k, ic), n), T), c)
    ensures c.states == ct.states + {split as int} + Range(b, b + 2 * n - 1)
  {
    hide InCat, Certified, StateOk, Pow;
    var c2 := ChainFrag(st, ic, k, b, n, 0, e, T, ct);
    c := SplitFrag(st, ic, split, Frag(b, e), Cat(Pow(KindLang(k, ic), n), T), c2, false);
  }

  /** An entry split, n linked clones and an end, in a line. */
  lemma ExactFrag(st: Nfa, ic: bool, k: Kind, b: nat, n: nat, split: nat, end: nat) returns (c: Cert)
    requires k.Character? || k.CharSet?
    requires 0 < n && Cloned(st, k, b, n) && split < b && end < b && split != end && st[end].kind.Split?
    requires forall j | 0 <= j < n - 1 :: LinkedTo(st, b + 2 * j + 1, b + 2 * j + 2)
    requires LinkedTo(st, b + 2 * n - 1, end) && LinkedTo(st, split, b)
    ensures Certified(st, ic, Frag(split, end), Pow(KindLang(k, ic), n), c)
    ensures c.states == {split as int, end} + Range(b, b + 2 * n)
  {
    hide InCat, Certified, StateOk, Pow;
    var c0 := BareFrag(st, ic, end);
    var c1 := SplitFrag(st, ic, b + 2 * n - 1, Frag(end, end), Eps(), c0, false);
    c := EntryChain(st, ic, k, b, n, split, end, Eps(), c1);
    CatEps(Pow(KindLang(k, ic), n));
  }

  /** Optional copy i: a one-character clone at b + 3 i and its split at b + 3 i + 2. */
  ghost predicate OptionAt(st: Nfa, k: Kind, b: nat, d: nat, i: nat, e: nat)
    requires b + 3 * d <= |st| && i < d
  {
    var q := b + 3 * i;
    && st[q].kind == k && st[q].out1 == q + 1 && st[q].out2 == NULL
    && Outs(st[q + 2], q, e)
    && if i < d - 1 then Outs(st[q + 1], q + 5, e) else LinkedTo(st, q + 1, e)
  }

  /** Optional copy i before its end is linked. */
  ghost predicate OptionOpen(st: Nfa, k: Kind, b: nat, i: nat, e: nat)
    requires b + 3 * i + 3 <= |st|
  {
    var q := b + 3 * i;
    && st[q].kind == k && st[q].out1 == q + 1 && st[q].out2 == NULL
    && Outs(st[q + 2], q, e) && Bare(st[q + 1])
  }

  /** The i-th copy's end is still bare. */
  lemma EndOfOption(st: Nfa, k: Kind, b: nat, d: nat, i: nat, e: nat)
    requires i < d && b + 3 * d <= |st| && OptionOpen(st, k, b, i, e)
    ensures Bare(st[b + 3 * i + 1])
  {
  }

  /** Linking the end of copy i completes it and leaves the other copies as they are. */
  lemma LinkOption(st: Nfa, st': Nfa, k: Kind, b: nat, d: nat, i: nat, e: nat)
    requires i < d && b + 3 * d <= |st| == |st'|
    requires forall j | 0 <= j < i :: OptionAt(st, k, b, d, j, e)
    requires forall j | i <= j < d :: OptionOpen(st, k, b, j, e)
    requires forall q | 0 <= q < |st| && q != b + 3 * i + 1 :: st'[q] == st[q]
    requires if i < d - 1 then Outs(st'[b + 3 * i + 1], b + 3 * i + 5, e) else LinkedTo(st', b + 3 * i + 1, e)
    ensures forall j | 0 <= j < i + 1 :: OptionAt(st', k, b, d, j, e)
    ensures forall j | i + 1 <= j < d :: OptionOpen(st', k, b, j, e)
  {
    forall j | 0 <= j < i ensures OptionAt(st', k, b, d, j, e) { assert OptionAt(st, k, b, d, j, e); }
    forall j | i + 1 <= j < d ensures OptionOpen(st', k, b, j, e) { assert OptionOpen(st, k, b, j, e); }
    assert OptionOpen(st, k, b, i, e);
  }

  lemma KeepOptions(st: Nfa, st': Nfa, k: Kind, b: nat, d: nat, e: nat)
    requires b + 3 * d <= |st| == |st'| && forall q | b <= q < |st| :: st'[q] == st[q]
    requires forall i | 0 <= i < d :: OptionOpen(st, k, b, i, e)
    ensures forall i | 0 <= i < d :: OptionOpen(st', k, b, i, e)
  {
    forall i | 0 <= i < d ensures OptionOpen(st', k, b, i, e) { assert OptionOpen(st, k, b, i, e); }
  }

  /** At most d - i optional copies, from copy i on. */
  lemma {:induction false} OptionsFrag(st: Nfa, ic: bool, k: Kind, b: nat, d: nat, i: nat, e: nat) returns (c: Cert)
    requires k.Character? || k.CharSet?
    requires i < d && b + 3 * d <= |st| && e < |st| && st[e].kind.Split? && !(b <= e < b + 3 * d)
    requires forall j | 0 <= j < d :: OptionAt(st, k, b, d, j, e)
    ensures Certified(st, ic, Frag(b + 3 * i + 2, e), UpTo(KindLang(k, ic), d - i), c)
    ensures c.states == {e as int} + Range(b + 3 * i, b + 3 * d)
    decreases d - i
  {
    hide InCat, Certified, StateOk, UpTo;
    var A := KindLang(k, ic);
    var q := b + 3 * i;
    assert OptionAt(st, k, b, d, i, e);
    UpToSucc(A, d - i - 1);
    hide OptionAt, KindLang;
    var c1;
    if i == d - 1 {
      var c0 := BareFrag(st, ic, e);
      c1 := SplitFrag(st, ic, q + 1, Frag(e, e), Eps(), c0, false);
    } else {
      var c0 := OptionsFrag(st, ic, k, b, d, i + 1, e);
      c1 := SplitFrag(st, ic, q + 1, Frag(q + 5, e), UpTo(A, d - i - 1), c0, true);
    }
    c := OneOption(st, ic, k, q, e, UpTo(A, d - i - 1), c1);
  }

  /** One optional copy before a fragment. */
  lemma OneOption(st: Nfa, ic: bool, k: Kind, q: nat, e: nat, T: Lang, ct: Cert) returns (c: Cert)
    requires k.Character? || k.CharSet?
    requires q + 2 < |st| && st[q].kind == k && st[q].out1 == q + 1 && st[q].out2 == NULL && Outs(st[q + 2], q, e)
    requires Certified(st, ic, Frag(q + 1, e), T, ct) && q !in ct.states && q + 2 !in ct.states
    ensures Certified(st, ic, Frag(q + 2, e), Eps() + Cat(KindLang(k, ic), T), c)
    ensures c.states == ct.states + {q as int, q + 2}
  {
    hide InCat, Certified, KindLang;
    var c1 := ConsumeFrag(st, ic, q, Frag(q + 1, e), T, ct);
    c := SplitFrag(st, ic, q + 2, Frag(q, e), Cat(KindLang(k, ic), T), c1, true);
  }

  lemma UpToSucc(A: Lang, n: nat)
    ensures UpTo(A, 0) == Eps()
    ensures UpTo(A, n + 1) == Eps() + Cat(A, UpTo(A, n))
    ensures Eps() + UpTo(A, n) == UpTo(A, n)
  {
    hide InCat;
  }

  /** The clones before i - 1 are linked to their successors; the others are still open. */
  ghost predicate LinkedUpTo(st: Nfa, b: nat, n: nat, i: nat)
    requires b + 2 * n <= |st|
  {
    && (forall j | 0 <= j < n && j + 1 < i :: LinkedTo(st, b + 2 * j + 1, b + 2 * j + 2))
    && (forall j | 0 <= j < n && j + 1 >= i :: Bare(st[b + 2 * j + 1]))
  }

  lemma LinkStep(st: Nfa, st': Nfa, k: Kind, b: nat, n: nat, i: nat, current: nat)
    requires Cloned(st, k, b, n) && i < n && LinkedUpTo(st, b, n, i)
    requires current < |st| && (i == 0 ==> current < b) && (i > 0 ==> current == b + 2 * i - 1)
    requires st' == st[current := st[current].(out1 := b + 2 * i, out2 := NULL)]
    ensures Cloned(st', k, b, n) && LinkedUpTo(st', b, n, i + 1)
  {
    forall j | 0 <= j < n ensures CloneAt(st', k, b + 2 * j) { assert CloneAt(st, k, b + 2 * j); }
    forall j | 0 <= j < n && j + 1 < i + 1 ensures LinkedTo(st', b + 2 * j + 1, b + 2 * j + 2) {
      if j + 1 < i {
        assert LinkedTo(st, b + 2 * j + 1, b + 2 * j + 2);
      } else {
        assert Bare(st[b + 2 * j + 1]);
      }
    }
    forall j | 0 <= j < n && j + 1 >= i + 1 ensures Bare(st'[b + 2 * j + 1]) { assert Bare(st[b + 2 * j + 1]); }
  }

  /** Setting the out-edges of the last clone's end leaves the chain as it is. */
  lemma CloseChain(st: Nfa, st': Nfa, k: Kind, b: nat, n: nat)
    requires n > 0 && Cloned(st, k, b, n) && LinkedUpTo(st, b, n, n) && |st'| >= |st|
    requires forall q | b <= q < b + 2 * n - 1 :: st'[q] == st[q]
    requires st'[b + 2 * n - 1].kind.Split?
    ensures Cloned(st', k, b, n) && forall j | 0 <= j < n - 1 :: LinkedTo(st', b + 2 * j + 1, b + 2 * j + 2)
  {
    forall j | 0 <= j < n ensures CloneAt(st', k, b + 2 * j) { assert CloneAt(st, k, b + 2 * j); }
    forall j | 0 <= j < n - 1 ensures LinkedTo(st', b + 2 * j + 1, b + 2 * j + 2) {
      assert LinkedTo(st, b + 2 * j + 1, b + 2 * j + 2);
    }
  }

  /** The body in a loop, entered from a split that may also leave. */
  lemma LoopTail(st: Nfa, ic: bool, q: nat, loop: nat, end: nat, f: Frag, L: Lang, c: Cert) returns (c': Cert)
    requires Certified(st, ic, f, L, c)
    requires q < |st| && loop < |st| && end < |st| && q != loop && q != end && loop != end && st[end].kind.Split?
    requires q !in c.states && loop !in c.states && end !in c.states
    requires Outs(st[q], loop, end) && Outs(st[loop], f.start, end) && Outs(st[f.end], f.start, end)
    ensures Certified(st, ic, Frag(q, end), Star(L), c')
    ensures c'.states == c.states + {q as int, loop, end}
  {
    hide InCat, InStar, Certified, StateOk, Pow;
    var c0 := StarFrag(st, ic, f, L, c, loop, f.start, end);
    AtLeastLang(L);
    c' := SplitFrag(st, ic, q, Frag(loop, end), Star(L), c0, true);
  }

  /** A fragment whose open end has been linked, in an arena that has grown. */
  lemma Reframe(st0: Nfa, st: Nfa, ic: bool, f: Frag, L: Lang, c: Cert)
    requires FragOk(st0, ic, f, L, c) && |st0| <= |st| && f.end < |st| && st[f.end].kind.Split?
    requires forall q | 0 <= q < |st0| && q != f.end :: st[q] == st0[q]
    ensures Certified(st, ic, f, L, c) && f.start in c.states && f.end in c.states
    ensures forall q | q in c.states :: 0 <= q < |st0|
  {
    hide StateOk, Complete;
    FrameFrag(st0, st, ic, f, L, c);
  }

  lemma AtLeastCert(st0: Nfa, st1: Nfa, st: Nfa, ic: bool, b: nat, n: nat, split: nat, loop: nat, end: nat,
                    f: Frag, L: Lang, c: Cert) returns (c': Cert)
    requires n > 0 && OneChar(st0, ic, f, L) && FragOk(st0, ic, f, L, c)
    requires split == |st0| && end == split + 1 && b == split + 2 && loop == b + 2 * n && |st1| == loop && |st| == loop + 1
    requires forall q | 0 <= q < |st0| && q != f.end :: st[q] == st0[q]
    requires Cloned(st1, st0[f.start].kind, b, n) && LinkedUpTo(st1, b, n, n)
    requires forall q | b <= q < b + 2 * n - 1 :: st[q] == st1[q]
    requires LinkedTo(st, split, b) && Bare(st[end]) && Outs(st[b + 2 * n - 1], loop, end)
    requires Outs(st[loop], f.start, end) && Outs(st[f.end], f.start, end)
    ensures FragOk(st, ic, Frag(split, end), Cat(Pow(L, n), Star(L)), c')
    ensures forall q | q in c'.states :: q in c.states || q >= |st0|
  {
    hide InCat, InStar, Certified, StateOk, Pow, KindLang, CloneAt;
    Reframe(st0, st, ic, f, L, c);
    CloseChain(st1, st, st0[f.start].kind, b, n);
    hide Cloned, LinkedUpTo;
    var tail := LoopTail(st, ic, b + 2 * n - 1, loop, end, f, L, c);
    c' := EntryChain(st, ic, st0[f.start].kind, b, n, split, end, Star(L), tail);
  }

  lemma AtLeastLang(A: Lang)
    ensures Eps() + Star(A) == Star(A)
  {
    hide InCat, InStar;
    StarUnroll(A);
  }

  /** An entry split, n linked clones, then at most d optional ones from b2 on. */
  lemma BetweenFrag(st: Nfa, ic: bool, k: Kind, b: nat, n: nat, b2: nat, d: nat, split: nat, end: nat) returns (c: Cert)
    requires k.Character? || k.CharSet?
    requires 0 < n && 0 < d && Cloned(st, k, b, n) && end < split < b && st[end].kind.Split?
    requires forall j | 0 <= j < n - 1 :: LinkedTo(st, b + 2 * j + 1, b + 2 * j + 2)
    requires b2 == b + 2 * n && b2 + 3 * d <= |st|
    requires forall j | 0 <= j < d :: OptionAt(st, k, b2, d, j, end)
    requires LinkedTo(st, split, b) && Outs(st[b2 - 1], b2 + 2, end)
    ensures Certified(st, ic, Frag(split, end), Cat(Pow(KindLang(k, ic), n), UpTo(KindLang(k, ic), d)), c)
    ensures c.states == {split as int, end} + Range(b, b2 + 3 * d)
  {
    hide InCat, Certified, StateOk, Pow, UpTo;
    var A := KindLang(k, ic);
    var c0 := OptionsFrag(st, ic, k, b2, d, 0, end);
    UpToSucc(A, d);
    var c1 := SplitFrag(st, ic, b2 - 1, Frag(b2 + 2, end), UpTo(A, d), c0, true);
    c := EntryChain(st, ic, k, b, n, split, end, UpTo(A, d), c1);
  }

  lemma BetweenCert(st1: Nfa, st: Nfa, ic: bool, k: Kind, b: nat, n: nat, b2: nat, d: nat, split: nat, end: nat) returns (c: Cert)
    requires k.Character? || k.CharSet?
    requires 0 < n && 0 < d && end < split < b && b2 == b + 2 * n && |st1| == b2 && b2 + 3 * d == |st|
    requires Cloned(st1, k, b, n) && LinkedUpTo(st1, b, n, n)
    requires forall q | b <= q < b2 - 1 :: st[q] == st1[q]
    requires LinkedTo(st, split, b) && Bare(st[end]) && Outs(st[b2 - 1], b2 + 2, end)
    requires forall j | 0 <= j < d :: OptionAt(st, k, b2, d, j, end)
    ensures FragOk(st, ic, Frag(split, end), Cat(Pow(KindLang(k, ic), n), UpTo(KindLang(k, ic), d)), c)
    ensures forall q | q in c.states :: q >= end
  {
    CloseChain(st1, st, k, b, n);
    hide InCat, Certified, StateOk, Pow, UpTo;
    c := BetweenFrag(st, ic, k, b, n, b2, d, split, end);
  }

  /** A split around a body whose end leads nowhere, or to a bare state: only the empty word gets through. */
  lemma SkipOnlyFrag(st: Nfa, ic: bool, f: Frag, L: Lang, c: Cert, split: nat, end: nat, last: int) returns (c': Cert)
    requires Certified(st, ic, f, L, c)
    requires split < |st| && end < |st| && split != end && split !in c.states && end !in c.states && st[end].kind.Split?
    requires Outs(st[split], f.start, end)
    requires last != NULL ==> 0 <= last < |st| && last !in c.states && last != split && last != end && Bare(st[last])
    requires st[f.end].out1 == last && st[f.end].out2 == NULL
    ensures Certified(st, ic, Frag(split, end), Eps(), c')
    ensures c'.states == c.states + {split as int, end} + if last == NULL then {} else {last}
  {
    c' := Cert(c.states + {split as int, end} + (if last == NULL then {} else {last}),
               (q: int) => if q == split || q == end then Eps() else iset{},
               (q: int) => if q in c.states then c.rank(q) + 1 else 0, c.bound + 1);
    forall q | q in c'.states && q != end ensures StateOk(st, ic, c', q) {
      if q in c.states && q != f.end {
        assert StateOk(st, ic, c, q);
        assert Cat(KindLang(st[q].kind, ic), iset{}) <= iset{};
      }
    }
    PathRefl(st, ic, end);
    PathSplit(st, ic, split, "", end);
  }

  lemma FragRange(st: Nfa, ic: bool, f: Frag, L: Lang, c: Cert)
    requires Certified(st, ic, f, L, c)
    ensures f.start < |st| && f.end < |st| && st[f.end].kind.Split? && f.end in c.states
    ensures forall q | q in c.states :: 0 <= q < |st|
  {
  }

  lemma StarCert(st0: Nfa, st: Nfa, ic: bool, f: Frag, L: Lang, c: Cert, split: nat, end: nat) returns (c': Cert)
    requires FragOk(st0, ic, f, L, c) && |st0| <= split < |st| && |st0| <= end < |st| && split != end
    requires forall q | 0 <= q < |st0| && q != f.end :: st[q] == st0[q]
    requires Bare(st[end]) && Outs(st[split], f.start, end) && Outs(st[f.end], split, end)
    ensures FragOk(st, ic, Frag(split, end), Star(L), c')
    ensures forall q | q in c'.states :: q in c.states || q >= |st0|
  {
    hide InCat, InStar;
    FrameFrag(st0, st, ic, f, L, c);
    c' := StarFrag(st, ic, f, L, c, split, split, end);
  }

  lemma PlusCert(st0: Nfa, st: Nfa, ic: bool, f: Frag, L: Lang, c: Cert, split: nat, end: nat) returns (c': Cert)
    requires FragOk(st0, ic, f, L, c) && |st0| <= split < |st| && |st0| <= end < |st| && split != end
    requires forall q | 0 <= q < |st0| && q != f.end :: st[q] == st0[q]
    requires Bare(st[end]) && LinkedTo(st, split, f.start) && Outs(st[f.end], split, end)
    ensures FragOk(st, ic, Frag(split, end), Cat(L, Star(L)), c')
    ensures forall q | q in c'.states :: q in c.states || q >= |st0|
  {
    FragRange(st0, ic, f, L, c);
    hide InCat, InStar, Certified;
    Reframe(st0, st, ic, f, L, c);
    c' := PlusFrag(st, ic, f, L, c, split, end);
  }

  lemma OptCert(st0: Nfa, st: Nfa, ic: bool, f: Frag, L: Lang, c: Cert, split: nat, end: nat) returns (c': Cert)
    requires FragOk(st0, ic, f, L, c) && |st0| <= split < |st| && |st0| <= end < |st| && split != end
    requires forall q | 0 <= q < |st0| && q != f.end :: st[q] == st0[q]
    requires Bare(st[end]) && Outs(st[split], f.start, end) && LinkedTo(st, f.end, end)
    ensures FragOk(st, ic, Frag(split, end), Eps() + L, c')
    ensures forall q | q in c'.states :: q in c.states || q >= |st0|
  {
    hide InCat, InStar;
    FrameFrag(st0, st, ic, f, L, c);
    c' := OptFrag(st, ic, f, L, c, split, end);
  }

  lemma OrCert(st0: Nfa, st1: Nfa, st: Nfa, ic: bool, split: nat, f: Frag, L: Lang, c: Cert,
               next: Frag, N: Lang, c2: Cert, end: nat) returns (c': Cert)
    requires FragOk(st0, ic, f, L, c) && FragOk(st1, ic, next, N, c2) && |st0| <= |st1|
    requires forall q | 0 <= q < |st0| :: st1[q] == st0[q]
    requires forall q | q in c2.states :: q >= |st0|
    requires |st1| <= split < |st| && |st1| <= end < |st| && split != end
    requires forall q | 0 <= q < |st1| && q != f.end && q != next.end :: st[q] == st1[q]
    requires Bare(st[end]) && st[split].kind.Split? && st[split].out1 == f.start && st[split].out2 == next.start
    requires LinkedTo(st, f.end, end) && LinkedTo(st, next.end, end)
    ensures FragOk(st, ic, Frag(split, end), L + N, c')
    ensures forall q | q in c'.states :: q in c.states || q in c2.states || q >= |st1|
  {
    hide InCat, InStar, StateOk, Complete;
    assert forall q | q in c.states :: q < |st0|;
    FrameFrag(st0, st, ic, f, L, c);
    FrameFrag(st1, st, ic, next, N, c2);
    c' := OrFrag(st, ic, split, f, L, c, next, N, c2, end);
  }

  lemma UpperCert(st0: Nfa, st: Nfa, ic: bool, f: Frag, L: Lang, c: Cert, split: nat, end: nat, last: int) returns (c': Cert)
    requires FragOk(st0, ic, f, L, c) && |st0| <= split < |st| && |st0| <= end < |st| && split != end
    requires forall q | 0 <= q < |st0| && q != f.end :: st[q] == st0[q]
    requires Bare(st[end]) && Outs(st[split], f.start, end)
    requires last != NULL ==> |st0| <= last < |st| && last != split && last != end && Bare(st[last])
    requires st[f.end].kind.Split? && st[f.end].out1 == last && st[f.end].out2 == NULL
    ensures FragOk(st, ic, Frag(split, end), Eps(), c')
    ensures forall q | q in c'.states :: q in c.states || q >= |st0|
  {
    FrameFrag(st0, st, ic, f, L, c);
    c' := SkipOnlyFrag(st, ic, f, L, c, split, end, last);
  }

  /** The chain without an exit is dead. */
  lemma DeadChain(st: Nfa, ic: bool, k: Kind, b: nat, n: nat, split: nat, end: nat) returns (c: Cert)
    requires k.Character? || k.CharSet?
    requires 0 < n && Cloned(st, k, b, n) && LinkedUpTo(st, b, n, n) && end < split && split + 1 == b && st[end].kind.Split?
    requires LinkedTo(st, split, b)
    ensures Certified(st, ic, Frag(split, end), iset{}, c)
    ensures c.states == {end as int} + Range(split, b + 2 * n)
  {
    forall q | split <= q < b + 2 * n
      ensures !st[q].kind.Match? && st[q].out2 == NULL && (st[q].out1 == NULL || q < st[q].out1 < b + 2 * n)
    {
      if q >= b {
        var j := (q - b) / 2;
        assert q == b + 2 * j || q == b + 2 * j + 1;
        assert CloneAt(st, k, b + 2 * j);
        if j < n - 1 {
          assert LinkedTo(st, b + 2 * j + 1, b + 2 * j + 2);
        } else {
          assert Bare(st[b + 2 * j + 1]);
        }
      }
    }
    c := DeadFrag(st, ic, split, b + 2 * n, end, split);
  }

  /** A start that never reaches the end: the fragment of no word. */
  lemma DeadFrag(st: Nfa, ic: bool, lo: nat, hi: nat, e: nat, start: nat) returns (c: Cert)
    requires hi <= |st| && e < |st| && lo <= start < hi && !(lo <= e < hi) && st[e].kind.Split?
    requires forall q | lo <= q < hi :: !st[q].kind.Match? && st[q].out2 == NULL && (st[q].out1 == NULL || q < st[q].out1 < hi)
    ensures Certified(st, ic, Frag(start, e), iset{}, c)
    ensures c.states == {e as int} + Range(lo, hi)
  {
    c := Cert({e as int} + Range(lo, hi), (q: int) => if q == e then Eps() else iset{},
              (q: int) => if lo <= q < hi then hi - q else 0, hi + 1);
    forall q | q in c.states && q != e ensures StateOk(st, ic, c, q) {
      if st[q].out1 != NULL {
        var K := KindLang(st[q].kind, ic);
        assert Cat(K, iset{}) <= iset{};
      }
    }
  }

  /** A certified fragment closed by a match state. */
  ghost predicate Automaton(st: Nfa, ic: bool, f: Frag, L: Lang, c: Cert, m: nat) {
    && Certified(st, ic, f, L, c) && m < |st| && m !in c.states
    && st[f.end].out1 == m && st[f.end].out2 == NULL && st[m] == Fresh(Match)
  }

  // ---------- Copies of fragments ----------

  /** The arena with a copy of f's start and end at its end. */
  function WithCopy(st: Nfa, f: Frag): Nfa
    requires f.start < |st| && f.end < |st|
  {
    var s, e := st[f.start], st[f.end];
    st + [s.(out1 := if s.out1 == f.end then |st| + 1 else s.out1, out2 := NULL), e.(out1 := NULL, out2 := NULL)]
  }

  /** w leads from the start of the copy to its end. */
  ghost predicate CopyHas(st: Nfa, ic: bool, f: Frag, w: string)
    requires f.start < |st| && f.end < |st|
  {
    Path(WithCopy(st, f), ic, |st|, w, |st| + 1)
  }

  /** One more copy of a one-character fragment after those from b on. */
  lemma CopyStep(st: Nfa, ic: bool, f: Frag, k: Kind, b: nat, i: nat)
    requires f.start < b && f.end < b && |st| == b + 2 * i
    requires st[f.start].kind == k && OneChar(st, ic, f, KindLang(k, ic))
    requires Cloned(st, k, b, i) && forall j | 0 <= j < i :: Bare(st[b + 2 * j + 1])
    ensures var st' := WithCopy(st, f);
            && |st'| == |st| + 2 && st'[..b] == st[..b] && st'[f.start].kind == k && OneChar(st', ic, f, KindLang(k, ic))
            && Cloned(st', k, b, i + 1) && forall j | 0 <= j < i + 1 :: Bare(st'[b + 2 * j + 1])
  {
    hide KindLang;
    var st' := WithCopy(st, f);
    forall j | 0 <= j < i + 1 ensures CloneAt(st', k, b + 2 * j) && Bare(st'[b + 2 * j + 1]) {
      if j < i { assert CloneAt(st, k, b + 2 * j); }
    }
  }

  /** What the copy reads: the character at most that stands between start and end. */
  ghost function CopyLang(st: Nfa, ic: bool, f: Frag): Lang
    requires f.start < |st|
  {
    if st[f.start].out1 != f.end then iset{}
    else if st[f.start].kind.Split? then Eps()
    else KindLang(st[f.start].kind, ic)
  }

  lemma {:induction false} StaysBelow(st: Nfa, st': Nfa, ic: bool, q: int, w: string, r: nat, n: nat)
    requires WellLinked(st) && |st| <= |st'| && (forall p | 0 <= p < |st| :: st'[p] == st[p])
    requires NULL <= q < |st| <= r
    ensures !Steps(st', ic, q, w, r, n)
    decreases n
  {
    if n > 0 && q != NULL {
      StaysBelow(st, st', ic, st[q].out1, w, r, n - 1);
      StaysBelow(st, st', ic, st[q].out2, w, r, n - 1);
      if |w| > 0 { StaysBelow(st, st', ic, st[q].out1, w[1..], r, n - 1); }
    }
  }

  lemma BareStays(st: Nfa, ic: bool, e: nat, w: string, n: nat)
    requires e < |st| && Bare(st[e])
    ensures Steps(st, ic, e, w, e, n) <==> n == 0 && w == ""
  {
  }

  lemma CopyReads(st: Nfa, ic: bool, f: Frag, w: string)
    requires WellLinked(st) && f.start < |st| && f.end < |st| && !st[f.start].kind.Match? && st[f.end].kind.Split?
    ensures CopyHas(st, ic, f, w) <==> w in CopyLang(st, ic, f)
  {
    var st', q, e := WithCopy(st, f), |st|, |st| + 1;
    var split := st'[q].kind.Split?;
    if Path(st', ic, q, w, e) {
      var n: nat :| Steps(st', ic, q, w, e, n);
      assert !Steps(st', ic, NULL, w, e, n - 1);
      var v := if split then w else w[1..];
      if st[f.start].out1 != f.end {
        StaysBelow(st, st', ic, st[f.start].out1, v, e, n - 1);
      } else {
        BareStays(st', ic, e, v, n - 1);
      }
    }
    if w in CopyLang(st, ic, f) {
      PathRefl(st', ic, e);
      if split { PathSplit(st', ic, q, w, e); } else { PathConsume(st', ic, q, w, e); }
    }
  }

  /** The fragments whose copy reads what they read: the start leads straight to the end, and if it reads nothing,
      that is all there is to read. A fragment that nothing leads through may also be copied. */
  ghost predicate MayCopy(st: Nfa, f: Frag, L: Lang)
    requires f.start < |st|
  {
    if st[f.start].out1 != f.end then L == iset{} else st[f.start].kind.Split? ==> L == Eps()
  }

  lemma CopyIsRightExactly(st: Nfa, ic: bool, f: Frag, L: Lang, c: Cert)
    requires WellLinked(st) && FragOk(st, ic, f, L, c)
    ensures (forall w :: CopyHas(st, ic, f, w) <==> w in L) <==> MayCopy(st, f, L)
  {
    assert StateOk(st, ic, c, f.start) || f.start == f.end;
    forall w ensures CopyHas(st, ic, f, w) <==> w in CopyLang(st, ic, f) {
      CopyReads(st, ic, f, w);
    }
    if st[f.start].out1 == f.end && !st[f.start].kind.Split? {
      StraightLang(st, ic, f, L, c);
    }
    assert CopyLang(st, ic, f) == L <==> MayCopy(st, f, L);
  }

  /** A reading state that leads straight to the end makes its fragment read one character. */
  lemma StraightLang(st: Nfa, ic: bool, f: Frag, L: Lang, c: Cert)
    requires FragOk(st, ic, f, L, c) && st[f.start].out1 == f.end && !st[f.start].kind.Split?
    ensures L == KindLang(st[f.start].kind, ic)
  {
    hide InCat, KindLang;
    var K := KindLang(st[f.start].kind, ic);
    CatEps(K);
    assert K <= L by { assert StateOk(st, ic, c, f.start); }
    hide StateOk;
    forall w | w in L ensures w in K {
      assert Path(st, ic, f.start, w, f.end);
      StraightPath(st, ic, f, w);
    }
  }

  lemma StraightPath(st: Nfa, ic: bool, f: Frag, w: string)
    requires f.start < |st| && f.end < |st| && Bare(st[f.end]) && Path(st, ic, f.start, w, f.end)
    requires st[f.start].out1 == f.end && !st[f.start].kind.Split?
    ensures w in KindLang(st[f.start].kind, ic)
  {
    var n: nat :| Steps(st, ic, f.start, w, f.end, n);
    BareStays(st, ic, f.end, w[1..], n - 1);
  }

  /** The copy of a capturing group reads nothing, whatever the group reads. */
  lemma GroupMayNotBeCopied(ch: char) returns (st: Nfa, f: Frag, c: Cert)
    ensures WellLinked(st) && FragOk(st, false, f, AtomLang(Chr(ch), false), c)
    ensures [ch] in AtomLang(Chr(ch), false)
    ensures forall w :: !CopyHas(st, false, f, w)
  {
    hide InCat, StateOk, Complete, KindLang;
    st := [Fresh(Character(ch)).(out1 := 1), Fresh(Split), Fresh(Split).(out1 := 0, groupId := 0, groupStart := true)];
    f := Frag(2, 1);
    var K := KindLang(Character(ch), false);
    var c1 := BareFrag(st, false, 1);
    var c2 := ConsumeFrag(st, false, 0, Frag(1, 1), Eps(), c1);
    CatEps(K);
    c := SplitFrag(st, false, 2, Frag(0, 1), K, c2, false);
    CharacterLang(ch);
    forall w ensures !CopyHas(st, false, f, w) {
      CopyReads(st, false, f, w);
    }
  }

  lemma CharacterLang(ch: char)
    ensures KindLang(Character(ch), false) == AtomLang(Chr(ch), false) && [ch] in AtomLang(Chr(ch), false)
  {
  }

  class Compiler {
    var states: Nfa
    var groupCount: nat
    const ignoreCase: bool

    constructor (ignoreCase: bool)
      ensures states == [] && groupCount == 0 && this.ignoreCase == ignoreCase
    {
      states, groupCount := [], 0;
      this.ignoreCase := ignoreCase;
    }

    method NewState(k: Kind) returns (q: nat)
      modifies this`states
      ensures states == old(states) + [Fresh(k)] && q == |old(states)|
      ensures old(WellLinked(states)) ==> WellLinked(states)
    {
      q := |states|;
      states := states + [Fresh(k)];
    }

    method SetOuts(q: nat, out1: int, out2: int)
      requires q < |states|
      modifies this`states
      ensures states == old(states)[q := old(states)[q].(out1 := out1, out2 := out2)]
      ensures old(WellLinked(states)) && NULL <= out1 < |states| && NULL <= out2 < |states| ==> WellLinked(states)
    {
      states := states[q := states[q].(out1 := out1, out2 := out2)];
    }

    method SetNonGreedy(q: nat, nonGreedy: bool)
      requires q < |states|
      modifies this`states
      ensures states == old(states)[q := old(states)[q].(nonGreedy := nonGreedy)]
      ensures old(WellLinked(states)) ==> WellLinked(states)
    {
      states := states[q := states[q].(nonGreedy := nonGreedy)];
    }

    /** clone_fragment: copies the start and the end state of a fragment, and no state between them. */
    method CloneFragment(f: Frag) returns (g: Frag)
      requires WellLinked(states) && f.start < |states| && f.end < |states|
      modifies this`states
      ensures WellLinked(states) && g == Frag(|old(states)|, |old(states)| + 1)
      ensures states == WithCopy(old(states), f)
    {
      var newStart := NewState(states[f.start].kind);
      states := states[newStart := states[f.start]];
      var newEnd := NewState(states[f.end].kind);
      states := states[newEnd := states[f.end].(out1 := NULL, out2 := NULL)];
      if states[f.start].out1 == f.end {
        SetOuts(newStart, newEnd, NULL);
      } else {
        SetOuts(newStart, states[f.start].out1, NULL);
      }
      g := Frag(newStart, newEnd);
    }

    /** The first loop of each counted quantifier: n clones in a row. */
    method CloneMany(f: Frag, n: nat) returns (frags: seq<Frag>)
      requires WellLinked(states) && f.start < |states|
      requires OneChar(states, ignoreCase, f, KindLang(states[f.start].kind, ignoreCase))
      modifies this`states
      ensures WellLinked(states) && |states| == |old(states)| + 2 * n && states[..|old(states)|] == old(states)
      ensures |frags| == n && forall i | 0 <= i < n :: frags[i] == Frag(|old(states)| + 2 * i, |old(states)| + 2 * i + 1)
      ensures Cloned(states, states[f.start].kind, |old(states)|, n)
      ensures forall i | 0 <= i < n :: Bare(states[|old(states)| + 2 * i + 1])
    {
      ghost var b := |states|;
      ghost var k := states[f.start].kind;
      frags := [];
      assert Cloned(states, k, b, 0);
      hide WellLinked, Cloned, OneChar, WithCopy, KindLang;
      for i := 0 to n
        invariant WellLinked(states) && |states| == b + 2 * i && states[..b] == old(states)
        invariant |frags| == i && forall j | 0 <= j < i :: frags[j] == Frag(b + 2 * j, b + 2 * j + 1)
        invariant f.start < b && f.end < b && states[f.start].kind == k && OneChar(states, ignoreCase, f, KindLang(k, ignoreCase))
        invariant Cloned(states, k, b, i) && forall j | 0 <= j < i :: Bare(states[b + 2 * j + 1])
      {
        CopyStep(states, ignoreCase, f, k, b, i);
        var g := CloneFragment(f);
        frags := frags + [g];
      }
    }

    /** The second loop: from the entry split through all clones; the last clone's end is left open. */
    method LinkClones(entry: nat, frags: seq<Frag>, ghost k: Kind, ghost b: nat)
      requires WellLinked(states) && entry < b < |states| && states[entry].kind.Split?
      requires |frags| > 0 && Cloned(states, k, b, |frags|)
      requires forall i | 0 <= i < |frags| :: frags[i] == Frag(b + 2 * i, b + 2 * i + 1)
      requires forall i | 0 <= i < |frags| :: Bare(states[b + 2 * i + 1])
      modifies this`states
      ensures WellLinked(states) && |states| == |old(states)|
      ensures LinkedTo(states, entry, b) && LinkedUpTo(states, b, |frags|, |frags|)
      ensures Cloned(states, k, b, |frags|)
      ensures forall q | 0 <= q < |states| && q != entry && !(b <= q < b + 2 * |frags|) :: states[q] == old(states)[q]
    {
      var current := entry;
      for i := 0 to |frags|
        invariant WellLinked(states) && |states| == |old(states)|
        invariant current == if i == 0 then entry else b + 2 * i - 1
        invariant states[entry].kind.Split? && (i > 0 ==> LinkedTo(states, entry, b))
        invariant Cloned(states, k, b, |frags|)
        invariant LinkedUpTo(states, b, |frags|, i)
        invariant forall q | 0 <= q < |states| && q != entry && !(b <= q < b + 2 * |frags|) :: states[q] == old(states)[q]
      {
        ghost var before := states;
        SetOuts(current, frags[i].start, NULL);
        LinkStep(before, states, k, b, |frags|, i, current);
        current := frags[i].end;
      }
    }

    /** `*`, and `{0,}`, whose body end loops back and out in the order of the priorities. */
    method ZeroOrMore(f: Frag, nonGreedy: bool, swapBack: bool, ghost L: Lang, ghost c: Cert) returns (g: Frag, ghost c': Cert)
      requires WellLinked(states) && FragOk(states, ignoreCase, f, L, c)
      modifies this`states
      ensures WellLinked(states) && |old(states)| <= |states|
      ensures forall q | 0 <= q < |old(states)| && q != f.end :: states[q] == old(states)[q]
      ensures FragOk(states, ignoreCase, g, Star(L), c')
      ensures forall q | q in c'.states :: q in c.states || q >= |old(states)|
    {
      hide InCat, InStar, StateOk, Complete;
      var split := NewState(Split);
      var end := NewState(Split);
      states := states[split := states[split].(nonGreedy := nonGreedy)];
      SetOuts(split, if nonGreedy then end else f.start, if nonGreedy then f.start else end);
      SetOuts(f.end, if swapBack then end else split, if swapBack then split else end);
      g := Frag(split, end);
      c' := StarCert(old(states), states, ignoreCase, f, L, c, split, end);
    }

    method OneOrMore(f: Frag, nonGreedy: bool, ghost L: Lang, ghost c: Cert) returns (g: Frag, ghost c': Cert)
      requires WellLinked(states) && FragOk(states, ignoreCase, f, L, c)
      modifies this`states
      ensures WellLinked(states) && |old(states)| <= |states|
      ensures forall q | 0 <= q < |old(states)| && q != f.end :: states[q] == old(states)[q]
      ensures FragOk(states, ignoreCase, g, Cat(L, Star(L)), c')
      ensures forall q | q in c'.states :: q in c.states || q >= |old(states)|
    {
      FragRange(states, ignoreCase, f, L, c);
      hide InCat, InStar, StateOk, Complete, Certified, WellLinked;
      var split := NewState(Split);
      var end := NewState(Split);
      SetOuts(split, f.start, NULL);
      if nonGreedy { SetOuts(f.end, end, split); } else { SetOuts(f.end, split, end); }
      SetNonGreedy(f.end, nonGreedy);
      g := Frag(split, end);
      c' := PlusCert(old(states), states, ignoreCase, f, L, c, split, end);
    }

    method ZeroOrOne(f: Frag, nonGreedy: bool, ghost L: Lang, ghost c: Cert) returns (g: Frag, ghost c': Cert)
      requires WellLinked(states) && FragOk(states, ignoreCase, f, L, c)
      modifies this`states
      ensures WellLinked(states) && |old(states)| <= |states|
      ensures forall q | 0 <= q < |old(states)| && q != f.end :: states[q] == old(states)[q]
      ensures FragOk(states, ignoreCase, g, Eps() + L, c')
      ensures forall q | q in c'.states :: q in c.states || q >= |old(states)|
    {
      FragRange(states, ignoreCase, f, L, c);
      hide InCat, InStar, StateOk, Complete, Certified;
      var split := NewState(Split);
      var end := NewState(Split);
      if nonGreedy { SetOuts(split, end, f.start); } else { SetOuts(split, f.start, end); }
      SetOuts(f.end, end, NULL);
      g := Frag(split, end);
      c' := OptCert(old(states), states, ignoreCase, f, L, c, split, end);
    }

    /** Both loops: an entry split followed by n linked clones, the last one open. */
    method EntryAndClones(f: Frag, n: nat, split: nat) returns (current: nat)
      requires WellLinked(states) && f.start < |states| && split < |states| && states[split].kind.Split? && n > 0
      requires split != f.start && split != f.end
      requires OneChar(states, ignoreCase, f, KindLang(states[f.start].kind, ignoreCase))
      modifies this`states
      ensures WellLinked(states) && |states| == |old(states)| + 2 * n
      ensures current == |states| - 1 && states[current].kind.Split?
      ensures LinkedTo(states, split, |old(states)|)
      ensures Cloned(states, old(states)[f.start].kind, |old(states)|, n) && LinkedUpTo(states, |old(states)|, n, n)
      ensures forall q | 0 <= q < |old(states)| && q != split :: states[q] == old(states)[q]
    {
      ghost var b, k := |states|, states[f.start].kind;
      var frags := CloneMany(f, n);
      assert forall q | 0 <= q < b :: states[q] == old(states)[q];
      LinkClones(split, frags, k, b);
      current := frags[n - 1].end;
      assert Bare(states[b + 2 * (n - 1) + 1]);
    }

    /** `{n}`: n clones in a line; the body itself is not used. */
    method ExactCount(f: Frag, n: nat, ghost L: Lang) returns (g: Frag, ghost c': Cert)
      requires WellLinked(states) && (n > 0 ==> OneChar(states, ignoreCase, f, L))
      modifies this`states
      ensures WellLinked(states) && |old(states)| <= |states|
      ensures forall q | 0 <= q < |old(states)| :: states[q] == old(states)[q]
      ensures FragOk(states, ignoreCase, g, if n <= 128 then Pow(L, n) else iset{}, c')
      ensures forall q | q in c'.states :: q >= |old(states)|
    {
      hide InCat, StateOk, Complete;
      if n == 0 {
        var only := NewState(Split);
        c' := BareFrag(states, ignoreCase, only);
        return Frag(only, only), c';
      }
      var split := NewState(Split);
      var end := NewState(Split);
      g := Frag(split, end);
      if n > 128 {
        c' := DeadFrag(states, ignoreCase, split, split + 1, end, split);
        return;
      }
      ghost var b, k := |states|, states[f.start].kind;
      var current := EntryAndClones(f, n, split);
      ghost var before := states;
      SetOuts(current, end, NULL);
      CloseChain(before, states, k, b, n);
      c' := ExactFrag(states, ignoreCase, k, b, n, split, end);
    }

    /** `{n,}` with n > 0: n clones, then the body in a loop. */
    method AtLeastCount(f: Frag, n: nat, nonGreedy: bool, ghost L: Lang, ghost c: Cert) returns (g: Frag, ghost c': Cert)
      requires WellLinked(states) && n > 0 && OneChar(states, ignoreCase, f, L) && FragOk(states, ignoreCase, f, L, c)
      modifies this`states
      ensures WellLinked(states) && |old(states)| <= |states|
      ensures forall q | 0 <= q < |old(states)| && q != f.end :: states[q] == old(states)[q]
      ensures FragOk(states, ignoreCase, g, if n <= 128 then Cat(Pow(L, n), Star(L)) else iset{}, c')
      ensures forall q | q in c'.states :: q in c.states || q >= |old(states)|
    {
      hide InCat, InStar, Certified, KindLang, StateOk, Complete, Cloned, LinkedUpTo;
      var split := NewState(Split);
      var end := NewState(Split);
      g := Frag(split, end);
      if n > 128 {
        c' := DeadFrag(states, ignoreCase, split, split + 1, end, split);
        return;
      }
      ghost var b := |states|;
      var current := EntryAndClones(f, n, split);
      ghost var before := states;
      var loopSplit := LoopBack(f, current, end, nonGreedy);
      c' := AtLeastCert(old(states), before, states, ignoreCase, b, n, split, loopSplit, end, f, L, c);
    }

    /** The last part of `{n,}`: from the last clone, and from the body itself, another round or out. */
    method LoopBack(f: Frag, current: nat, end: nat, nonGreedy: bool) returns (loopSplit: nat)
      requires WellLinked(states) && f.start < |states| && f.end < |states| && end < |states| && current < |states|
      requires states[current].kind.Split? && states[f.end].kind.Split? && current != f.end
      modifies this`states
      ensures WellLinked(states) && loopSplit == |old(states)| && |states| == |old(states)| + 1
      ensures forall q | 0 <= q < |old(states)| && q != f.end && q != current :: states[q] == old(states)[q]
      ensures Outs(states[current], loopSplit, end) && Outs(states[loopSplit], f.start, end)
      ensures Outs(states[f.end], f.start, end)
    {
      loopSplit := NewState(Split);
      SetOuts(current, loopSplit, end);
      var first, second := if nonGreedy then end else f.start, if nonGreedy then f.start else end;
      SetOuts(loopSplit, first, second);
      SetOuts(f.end, first, second);
    }

    /** One optional clone: a copy of the body and a split that may skip it. */
    method CreateOption(f: Frag, finalEnd: nat, nonGreedy: bool) returns (g: Frag, split: nat)
      requires WellLinked(states) && f.start < |states| && finalEnd < |states|
      requires OneChar(states, ignoreCase, f, KindLang(states[f.start].kind, ignoreCase))
      modifies this`states
      ensures WellLinked(states) && |states| == |old(states)| + 3
      ensures forall q | 0 <= q < |old(states)| :: states[q] == old(states)[q]
      ensures g == Frag(|old(states)|, |old(states)| + 1) && split == |old(states)| + 2
      ensures OptionOpen(states, old(states)[f.start].kind, |old(states)|, 0, finalEnd)
    {
      hide KindLang;
      g := CloneFragment(f);
      split := NewState(Split);
      states := states[split := states[split].(nonGreedy := nonGreedy)];
      SetOuts(split, if nonGreedy then finalEnd else g.start, if nonGreedy then g.start else finalEnd);
    }

    /** The optional clones of `{n,m}`, each with a split around it. */
    method CreateOptions(f: Frag, d: nat, finalEnd: nat, nonGreedy: bool) returns (frags: seq<Frag>, splits: seq<nat>)
      requires WellLinked(states) && f.start < |states| && finalEnd < |states|
      requires OneChar(states, ignoreCase, f, KindLang(states[f.start].kind, ignoreCase))
      modifies this`states
      ensures WellLinked(states) && |states| == |old(states)| + 3 * d
      ensures forall q | 0 <= q < |old(states)| :: states[q] == old(states)[q]
      ensures |frags| == |splits| == d
      ensures forall i | 0 <= i < d :: frags[i] == Frag(|old(states)| + 3 * i, |old(states)| + 3 * i + 1)
      ensures forall i | 0 <= i < d :: splits[i] == |old(states)| + 3 * i + 2
      ensures forall i | 0 <= i < d :: OptionOpen(states, old(states)[f.start].kind, |old(states)|, i, finalEnd)
    {
      ghost var b, k := |states|, states[f.start].kind;
      frags, splits := [], [];
      for i := 0 to d
        invariant WellLinked(states) && |states| == b + 3 * i
        invariant forall q | 0 <= q < b :: states[q] == old(states)[q]
        invariant |frags| == |splits| == i
        invariant forall j | 0 <= j < i :: frags[j] == Frag(b + 3 * j, b + 3 * j + 1)
        invariant forall j | 0 <= j < i :: splits[j] == b + 3 * j + 2
        invariant forall j | 0 <= j < i :: OptionOpen(states, k, b, j, finalEnd)
      {
        ghost var before := states;
        var g, split := CreateOption(f, finalEnd, nonGreedy);
        forall j | 0 <= j < i ensures OptionOpen(states, k, b, j, finalEnd) {
          assert OptionOpen(before, k, b, j, finalEnd);
        }
        assert OptionOpen(states, k, b + 3 * i, 0, finalEnd);
        assert OptionOpen(states, k, b, i, finalEnd);
        frags, splits := frags + [g], splits + [split];
      }
    }

    /** Each optional clone's end leads to the next split or to the common end, the last one to the end only. */
    method LinkOptions(frags: seq<Frag>, splits: seq<nat>, finalEnd: nat, nonGreedy: bool, ghost k: Kind, ghost b: nat)
      requires WellLinked(states) && finalEnd < b && |frags| == |splits| && b + 3 * |frags| <= |states|
      requires forall i | 0 <= i < |frags| :: frags[i] == Frag(b + 3 * i, b + 3 * i + 1)
      requires forall i | 0 <= i < |frags| :: splits[i] == b + 3 * i + 2
      requires forall i | 0 <= i < |frags| :: OptionOpen(states, k, b, i, finalEnd)
      modifies this`states
      ensures WellLinked(states) && |states| == |old(states)|
      ensures forall i | 0 <= i < |frags| :: OptionAt(states, k, b, |frags|, i, finalEnd)
      ensures forall q | 0 <= q < b :: states[q] == old(states)[q]
    {
      hide OptionAt, OptionOpen;
      for i := 0 to |frags|
        invariant WellLinked(states) && |states| == |old(states)|
        invariant forall j | 0 <= j < i :: OptionAt(states, k, b, |frags|, j, finalEnd)
        invariant forall j | i <= j < |frags| :: OptionOpen(states, k, b, j, finalEnd)
        invariant forall q | 0 <= q < b :: states[q] == old(states)[q]
      {
        ghost var before := states;
        EndOfOption(states, k, b, |frags|, i, finalEnd);
        var end := frags[i].end;
        if i < |frags| - 1 {
          SetOuts(end, if nonGreedy then finalEnd else splits[i + 1], if nonGreedy then splits[i + 1] else finalEnd);
        } else {
          SetOuts(end, finalEnd, NULL);
        }
        LinkOption(before, states, k, b, |frags|, i, finalEnd);
      }
    }

    /** `{n,m}` with 0 < n < m: n clones, then m - n optional ones. */
    method BetweenCount(f: Frag, n: nat, m: nat, nonGreedy: bool, ghost L: Lang) returns (g: Frag, ghost c': Cert)
      requires WellLinked(states) && 0 < n < m && OneChar(states, ignoreCase, f, L)
      modifies this`states
      ensures WellLinked(states) && |old(states)| <= |states|
      ensures forall q | 0 <= q < |old(states)| :: states[q] == old(states)[q]
      ensures FragOk(states, ignoreCase, g, if n <= 128 && m - n <= 128 then Cat(Pow(L, n), UpTo(L, m - n)) else iset{}, c')
      ensures forall q | q in c'.states :: q >= |old(states)|
    {
      hide InCat, InStar, Certified, KindLang, StateOk, Complete, Cloned, LinkedUpTo, OptionOpen, OptionAt;
      var quantEnd := NewState(Split);
      var finalEnd := NewState(Split);
      var split := NewState(Split);
      g := Frag(split, finalEnd);
      if n > 128 {
        c' := DeadFrag(states, ignoreCase, split, split + 1, finalEnd, split);
        return;
      }
      ghost var b, k := |states|, states[f.start].kind;
      var current := EntryAndClones(f, n, split);
      if m - n > 128 {
        c' := DeadChain(states, ignoreCase, k, b, n, split, finalEnd);
        return;
      }
      c' := OptionalCopies(f, n, m - n, nonGreedy, split, finalEnd, current, k, b);
    }

    /** The rest of `{n,m}`: the optional copies and their links. */
    method OptionalCopies(f: Frag, n: nat, d: nat, nonGreedy: bool, split: nat, finalEnd: nat, current: nat,
                          ghost k: Kind, ghost b: nat) returns (ghost c: Cert)
      requires WellLinked(states) && f.start < |states| && 0 < n && 0 < d && k == states[f.start].kind
      requires OneChar(states, ignoreCase, f, KindLang(k, ignoreCase))
      requires finalEnd < split < b && |states| == b + 2 * n && current == |states| - 1 && states[current].kind.Split?
      requires Cloned(states, k, b, n) && LinkedUpTo(states, b, n, n) && LinkedTo(states, split, b) && Bare(states[finalEnd])
      modifies this`states
      ensures WellLinked(states) && |old(states)| <= |states|
      ensures forall q | 0 <= q < |old(states)| && q != current :: states[q] == old(states)[q]
      ensures FragOk(states, ignoreCase, Frag(split, finalEnd),
                     Cat(Pow(KindLang(k, ignoreCase), n), UpTo(KindLang(k, ignoreCase), d)), c)
      ensures forall q | q in c.states :: q >= finalEnd
    {
      hide InCat, InStar, Certified, KindLang, StateOk, Complete, Cloned, LinkedUpTo, OptionOpen, OptionAt;
      ghost var before := states;
      var frags, splits := CreateOptions(f, d, finalEnd, nonGreedy);
      ghost var open := states;
      SetOuts(current, if nonGreedy then finalEnd else splits[0], if nonGreedy then splits[0] else finalEnd);
      KeepOptions(open, states, k, |before|, d, finalEnd);
      LinkOptions(frags, splits, finalEnd, nonGreedy, k, |before|);
      c := BetweenCert(before, states, ignoreCase, k, b, n, |before|, d, split, finalEnd);
    }

    /** The loop body of `{0,m}`. */
    method NextRound(f: Frag, quantEnd: nat, lastSplit: nat) returns (newEnd: nat)
      requires WellLinked(states) && f.start < |states| && f.end < |states| && quantEnd < |states|
      requires lastSplit < |states| && lastSplit != f.end
      modifies this`states
      ensures WellLinked(states) && |states| == |old(states)| + 2 && newEnd == |old(states)| + 1 && Bare(states[newEnd])
      ensures states[f.end] == old(states)[f.end].(out1 := newEnd)
      ensures states[lastSplit].kind == old(states)[lastSplit].kind
      ensures forall q | 0 <= q < |old(states)| && q != f.end && q != lastSplit :: states[q] == old(states)[q]
    {
      var newSplit := NewState(Split);
      SetOuts(lastSplit, states[lastSplit].out1, newSplit);
      SetOuts(newSplit, f.start, quantEnd);
      newEnd := NewState(Split);
      SetOuts(f.end, newEnd, states[f.end].out2);
    }

    /** `{0,m}`: each round relinks the same body end, and the entry split is finally set to skip the body. */
    method UpperOnly(f: Frag, m: nat, nonGreedy: bool, ghost L: Lang, ghost c: Cert) returns (g: Frag, ghost c': Cert)
      requires WellLinked(states) && m > 0 && FragOk(states, ignoreCase, f, L, c)
      modifies this`states
      ensures WellLinked(states) && |old(states)| <= |states|
      ensures forall q | 0 <= q < |old(states)| && q != f.end :: states[q] == old(states)[q]
      ensures FragOk(states, ignoreCase, g, Eps(), c')
      ensures forall q | q in c'.states :: q in c.states || q >= |old(states)|
    {
      FragRange(states, ignoreCase, f, L, c);
      hide InCat, StateOk, Complete, Certified;
      var quantEnd := NewState(Split);
      var split := NewState(Split);
      SetOuts(split, f.start, quantEnd);
      var lastSplit := split;
      for i := 1 to m
        invariant WellLinked(states) && |old(states)| + 2 <= |states|
        invariant forall q | 0 <= q < |old(states)| && q != f.end :: states[q] == old(states)[q]
        invariant Bare(states[quantEnd]) && states[split].kind.Split?
        invariant states[f.end].kind.Split? && states[f.end].out2 == NULL
        invariant |old(states)| < lastSplit < |states| && lastSplit != quantEnd
        invariant i == 1 ==> lastSplit == split && states[f.end].out1 == NULL
        invariant i > 1 ==> split < lastSplit < |states| && states[f.end].out1 == lastSplit && Bare(states[lastSplit])
      {
        lastSplit := NextRound(f, quantEnd, lastSplit);
      }
      SetOuts(split, if nonGreedy then quantEnd else f.start, if nonGreedy then f.start else quantEnd);
      g := Frag(split, quantEnd);
      c' := UpperCert(old(states), states, ignoreCase, f, L, c, split, quantEnd, states[f.end].out1);
    }

    /** apply_quantifier. */
    method ApplyQuantifier(f: Frag, q: Quant, ghost L: Lang, ghost c: Cert) returns (g: Frag, ghost c': Cert)
      requires WellLinked(states) && FragOk(states, ignoreCase, f, L, c)
      requires CopiesBody(q) ==> OneChar(states, ignoreCase, f, L)
      modifies this`states
      ensures WellLinked(states) && |old(states)| <= |states|
      ensures forall q | 0 <= q < |old(states)| && q != f.end :: states[q] == old(states)[q]
      ensures FragOk(states, ignoreCase, g, CompiledQuant(L, q), c')
      ensures q.Once? ==> g == f && states == old(states)
      ensures forall q | q in c'.states :: q in c.states || q >= |old(states)|
    {
      hide InCat, InStar, StateOk, Complete, Certified, WellLinked, OneChar;
      match q {
        case Once => g, c' := f, c;
        case ZeroOrMore(lazy) => g, c' := ZeroOrMore(f, lazy, false, L, c);
        case OneOrMore(lazy) => g, c' := OneOrMore(f, lazy, L, c);
        case ZeroOrOne(lazy) => g, c' := ZeroOrOne(f, lazy, L, c);
        case Exactly(n, _) => g, c' := ExactCount(f, n, L);
        case AtLeast(n, lazy) =>
          if n == 0 {
            g, c' := ZeroOrMore(f, lazy, lazy, L, c);
            CatEps(Star(L));
          } else {
            g, c' := AtLeastCount(f, n, lazy, L, c);
          }
        case Between(n, m, lazy) =>
          if m <= n {
            g, c' := ExactCount(f, n, L);
          } else if n == 0 {
            g, c' := UpperOnly(f, m, lazy, L, c);
          } else {
            g, c' := BetweenCount(f, n, m, lazy, L);
          }
      }
    }

    /** A one-character state that leads to a fresh open end. */
    method OneCharacter(k: Kind) returns (f: Frag, ghost c: Cert)
      requires WellLinked(states) && (k.Character? || k.CharSet?)
      modifies this`states
      ensures WellLinked(states) && |old(states)| <= |states|
      ensures forall q | 0 <= q < |old(states)| :: states[q] == old(states)[q]
      ensures FragOk(states, ignoreCase, f, KindLang(k, ignoreCase), c)
      ensures OneChar(states, ignoreCase, f, KindLang(k, ignoreCase))
      ensures forall q | q in c.states :: q >= |old(states)|
    {
      hide InCat, StateOk, Complete;
      var state := NewState(k);
      var end := NewState(Split);
      SetOuts(state, end, NULL);
      f := Frag(state, end);
      c := BareFrag(states, ignoreCase, end);
      c := ConsumeFrag(states, ignoreCase, state, Frag(end, end), Eps(), c);
      CatEps(KindLang(k, ignoreCase));
    }

    /** parse_atom. */
    method CompileAtom(a: Atom) returns (f: Frag, ghost c: Cert)
      requires WellLinked(states) && (a.Group? ==> InScope(a.body))
      modifies this
      ensures WellLinked(states) && |old(states)| <= |states|
      ensures forall q | 0 <= q < |old(states)| :: states[q] == old(states)[q]
      ensures FragOk(states, ignoreCase, f, CompiledAtom(a, ignoreCase), c)
      ensures OneCharAtom(a) ==> OneChar(states, ignoreCase, f, CompiledAtom(a, ignoreCase))
      ensures forall q | q in c.states :: q >= |old(states)|
      decreases if a.Group? then ExprSize(a.body) else 0, 1
    {
      match a {
        case Chr(ch) =>
          f, c := OneCharacter(Character(ch));
          SameIsAlike(ignoreCase);
          assert CompiledAtom(a, ignoreCase) == KindLang(Character(ch), ignoreCase);
        case Class(chars) =>
          f, c := OneCharacter(CharSet(chars));
          assert CompiledAtom(a, ignoreCase) == KindLang(CharSet(chars), ignoreCase);
        case Group(capturing, body) =>
          if !capturing {
            f, c := CompileExpr(body);
          } else {
            var id := groupCount;
            groupCount := groupCount + 1;
            var inner;
            inner, c := CompileExpr(body);
            f, c := MarkGroup(inner, id, CompiledExpr(body, ignoreCase), c);
          }
      }
    }

    /** A capturing group: a marked entry split, and the mark on the body's end. */
    method MarkGroup(inner: Frag, id: nat, ghost L: Lang, ghost c: Cert) returns (f: Frag, ghost c': Cert)
      requires WellLinked(states) && FragOk(states, ignoreCase, inner, L, c)
      modifies this`states
      ensures WellLinked(states) && |old(states)| <= |states|
      ensures forall q | 0 <= q < |old(states)| && q != inner.end :: states[q] == old(states)[q]
      ensures FragOk(states, ignoreCase, f, L, c')
      ensures forall q | q in c'.states :: q in c.states || q >= |old(states)|
    {
      hide InCat, Complete;
      var marker := NewState(Split);
      states := states[marker := states[marker].(groupId := id, groupStart := true)];
      SetOuts(marker, inner.start, NULL);
      states := states[inner.end := states[inner.end].(groupId := id, groupStart := false)];
      f := Frag(marker, inner.end);
      FrameFrag(old(states), states, ignoreCase, inner, L, c);
      c' := SplitFrag(states, ignoreCase, marker, inner, L, c, false);
    }

    /** parse_factor. */
    method CompileFactor(x: Factor) returns (f: Frag, ghost c: Cert)
      requires WellLinked(states) && InScopeFactor(x)
      modifies this
      ensures WellLinked(states) && |old(states)| <= |states|
      ensures forall q | 0 <= q < |old(states)| :: states[q] == old(states)[q]
      ensures FragOk(states, ignoreCase, f, CompiledFactor(x, ignoreCase), c)
      ensures x.quant.Once? && OneCharAtom(x.atom) ==> OneChar(states, ignoreCase, f, CompiledFactor(x, ignoreCase))
      ensures forall q | q in c.states :: q >= |old(states)|
      decreases FactorSize(x), 0
    {
      hide InCat, InStar, StateOk, Complete, WellLinked, OneChar;
      f, c := CompileAtom(x.atom);
      f, c := ApplyQuantifier(f, x.quant, CompiledAtom(x.atom, ignoreCase), c);
    }

    /** parse_term: the factors one after the other, each end linked to the next start. */
    method CompileTerm(t: Term) returns (f: Frag, ghost c: Cert)
      requires WellLinked(states) && InScopeTerm(t)
      modifies this
      ensures WellLinked(states) && |old(states)| <= |states|
      ensures forall q | 0 <= q < |old(states)| :: states[q] == old(states)[q]
      ensures FragOk(states, ignoreCase, f, CompiledTerm(t, ignoreCase), c)
      ensures OneCharTerm(t) ==> OneChar(states, ignoreCase, f, CompiledTerm(t, ignoreCase))
      ensures forall q | q in c.states :: q >= |old(states)|
      decreases TermSize(t), 1
    {
      hide InCat, StateOk, Complete, WellLinked;
      f, c := CompileFactor(t.f);
      ghost var L := CompiledFactor(t.f, ignoreCase);
      CatEps(L);
      var rest := t;
      while rest.Then?
        invariant WellLinked(states) && |old(states)| <= |states|
        invariant forall q | 0 <= q < |old(states)| :: states[q] == old(states)[q]
        invariant FragOk(states, ignoreCase, f, L, c)
        invariant forall q | q in c.states :: q >= |old(states)|
        invariant InScopeTerm(rest) && TermSize(rest) <= TermSize(t)
        invariant Cat(L, AfterFirst(rest, ignoreCase)) == CompiledTerm(t, ignoreCase)
        invariant rest == t && OneCharTerm(t) ==> OneChar(states, ignoreCase, f, L)
        invariant t.Single? ==> rest == t && L == CompiledTerm(t, ignoreCase)
        decreases TermSize(rest)
      {
        rest := rest.rest;
        ghost var before := states;
        ghost var N := CompiledFactor(rest.f, ignoreCase);
        var next, c2 := CompileFactor(rest.f);
        CatAssoc(L, N, AfterFirst(rest, ignoreCase));
        CatEps(N);
        f, c := Concatenate(before, f, L, c, next, N, c2);
        L := Cat(L, N);
      }
      CatEps(L);
    }

    /** The loop body of parse_term: the open end of one fragment leads to the next fragment. */
    method Concatenate(ghost before: Nfa, f: Frag, ghost L: Lang, ghost c: Cert, next: Frag, ghost N: Lang, ghost c2: Cert)
      returns (g: Frag, ghost c': Cert)
      requires FragOk(before, ignoreCase, f, L, c) && |before| <= |states|
      requires forall q | 0 <= q < |before| :: states[q] == before[q]
      requires WellLinked(states) && FragOk(states, ignoreCase, next, N, c2) && forall q | q in c2.states :: q >= |before|
      modifies this`states
      ensures WellLinked(states) && |states| == |old(states)|
      ensures forall q | 0 <= q < |states| && q != f.end :: states[q] == old(states)[q]
      ensures FragOk(states, ignoreCase, g, Cat(L, N), c') && c'.states == c.states + c2.states
    {
      hide InCat, StateOk, Complete;
      assert forall q | q in c.states :: q < |before|;
      assert c.states !! c2.states;
      SetOuts(f.end, next.start, NULL);
      FrameFrag(before, states, ignoreCase, f, L, c);
      FrameFrag(old(states), states, ignoreCase, next, N, c2);
      g := Frag(f.start, next.end);
      c' := CatFrag(states, ignoreCase, f, L, c, next, N, c2);
    }

    /** parse_expr: alternatives joined from the left, each by a split and a common end. */
    method CompileExpr(e: Expr) returns (f: Frag, ghost c: Cert)
      requires WellLinked(states) && InScope(e)
      modifies this
      ensures WellLinked(states) && |old(states)| <= |states|
      ensures forall q | 0 <= q < |old(states)| :: states[q] == old(states)[q]
      ensures FragOk(states, ignoreCase, f, CompiledExpr(e, ignoreCase), c)
      ensures OneCharExpr(e) ==> OneChar(states, ignoreCase, f, CompiledExpr(e, ignoreCase))
      ensures forall q | q in c.states :: q >= |old(states)|
      decreases ExprSize(e), 0
    {
      hide InCat, StateOk, Complete, WellLinked;
      f, c := CompileTerm(e.t);
      ghost var L := CompiledTerm(e.t, ignoreCase);
      var rest := e;
      while rest.Or?
        invariant WellLinked(states) && |old(states)| <= |states|
        invariant forall q | 0 <= q < |old(states)| :: states[q] == old(states)[q]
        invariant FragOk(states, ignoreCase, f, L, c)
        invariant forall q | q in c.states :: q >= |old(states)|
        invariant InScope(rest) && ExprSize(rest) <= ExprSize(e)
        invariant L + OtherAlternatives(rest, ignoreCase) == CompiledExpr(e, ignoreCase)
        invariant rest == e && OneCharTerm(e.t) ==> OneChar(states, ignoreCase, f, L)
        invariant e.Only? ==> rest == e && L == CompiledExpr(e, ignoreCase)
        decreases ExprSize(rest)
      {
        rest := rest.others;
        ghost var before := states;
        ghost var N := CompiledTerm(rest.t, ignoreCase);
        var next, c2 := CompileTerm(rest.t);
        f, c := Alternate(before, f, L, c, next, N, c2);
        L := L + N;
      }
      assert L + iset{} == L;
    }

    /** The loop body of parse_expr. */
    method Alternate(ghost before: Nfa, f: Frag, ghost L: Lang, ghost c: Cert, next: Frag, ghost N: Lang, ghost c2: Cert)
      returns (g: Frag, ghost c': Cert)
      requires FragOk(before, ignoreCase, f, L, c) && |before| <= |states|
      requires forall q | 0 <= q < |before| :: states[q] == before[q]
      requires WellLinked(states) && FragOk(states, ignoreCase, next, N, c2) && forall q | q in c2.states :: q >= |before|
      modifies this`states
      ensures WellLinked(states) && |old(states)| <= |states|
      ensures forall q | 0 <= q < |old(states)| && q != f.end && q != next.end :: states[q] == old(states)[q]
      ensures FragOk(states, ignoreCase, g, L + N, c')
      ensures forall q | q in c'.states :: q in c.states || q in c2.states || q >= |old(states)|
    {
      FragRange(before, ignoreCase, f, L, c);
      FragRange(states, ignoreCase, next, N, c2);
      assert f.end != next.end && next.end >= |before|;
      hide InCat, StateOk, Complete, Certified;
      var split := NewState(Split);
      var end := NewState(Split);
      SetOuts(split, f.start, next.start);
      SetOuts(f.end, end, NULL);
      SetOuts(next.end, end, NULL);
      g := Frag(split, end);
      c' := OrCert(before, old(states), states, ignoreCase, split, f, L, c, next, N, c2, end);
    }

    /** The automaton part of vox_regex_compile: the automaton accepts exactly the compiled language. */
    method Compile(e: Expr) returns (start: nat, ghost c: Cert, ghost f: Frag, ghost m: nat)
      requires states == [] && InScope(e)
      modifies this
      ensures WellLinked(states) && start == f.start
      ensures Automaton(states, ignoreCase, f, CompiledExpr(e, ignoreCase), c, m)
      ensures forall w :: Accepts(states, ignoreCase, start, w) <==> w in CompiledExpr(e, ignoreCase)
    {
      hide InCat, StateOk, Complete;
      var frag, c0 := CompileExpr(e);
      ghost var before := states;
      var matchState := NewState(Match);
      SetOuts(frag.end, matchState, NULL);
      FrameFrag(before, states, ignoreCase, frag, CompiledExpr(e, ignoreCase), c0);
      Closed(states, ignoreCase, frag, CompiledExpr(e, ignoreCase), c0, matchState);
      start, c, f, m := frag.start, c0, frag, matchState;
    }
  }
}
