/** Languages as sets of words, and the pattern syntax of vox_regex.c with its meaning. */
module RegexLang {

  type Lang = iset<string>

  ghost function Eps(): Lang { iset{""} }

  ghost function Cat(A: Lang, B: Lang): Lang {
    iset w: string | InCat(A, B, w)
  }

  ghost predicate InCat(A: Lang, B: Lang, w: string) {
    exists k :: Splits(A, B, w, k)
  }

  ghost predicate Splits(A: Lang, B: Lang, w: string, k: nat) {
    k <= |w| && w[..k] in A && w[k..] in B
  }

  ghost function Pow(A: Lang, n: nat): Lang {
    if n == 0 then Eps() else Cat(A, Pow(A, n - 1))
  }

  /** At most n copies. */
  ghost function UpTo(A: Lang, n: nat): Lang {
    if n == 0 then Eps() else Eps() + Cat(A, UpTo(A, n - 1))
  }

  ghost function Star(A: Lang): Lang {
    iset w: string | InStar(A, w)
  }

  ghost predicate InStar(A: Lang, w: string) {
    exists n: nat :: w in Pow(A, n)
  }

  lemma CatIntro(A: Lang, B: Lang, u: string, v: string)
    requires u in A && v in B
    ensures u + v in Cat(A, B)
  {
    assert (u + v)[..|u|] == u && (u + v)[|u|..] == v;
    assert Splits(A, B, u + v, |u|);
  }

  lemma CatEps(A: Lang)
    ensures Cat(A, Eps()) == A && Cat(Eps(), A) == A
  {
    forall w: string ensures w in Cat(A, Eps()) <==> w in A {
      if w in A { CatIntro(A, Eps(), w, ""); assert w + "" == w; }
      if k: nat :| Splits(A, Eps(), w, k) { assert w[..k] == w; }
    }
    forall w: string ensures w in Cat(Eps(), A) <==> w in A {
      if w in A { CatIntro(Eps(), A, "", w); assert "" + w == w; }
      if k: nat :| Splits(Eps(), A, w, k) { assert w[k..] == w; }
    }
  }

  lemma CatAssoc(A: Lang, B: Lang, C: Lang)
    ensures Cat(Cat(A, B), C) == Cat(A, Cat(B, C))
  {
    forall w | w in Cat(Cat(A, B), C) ensures w in Cat(A, Cat(B, C)) {
      var k: nat :| Splits(Cat(A, B), C, w, k);
      var j: nat :| Splits(A, B, w[..k], j);
      CatIntro(B, C, w[..k][j..], w[k..]);
      CatIntro(A, Cat(B, C), w[..k][..j], w[..k][j..] + w[k..]);
      assert w == w[..k][..j] + (w[..k][j..] + w[k..]);
    }
    forall w | w in Cat(A, Cat(B, C)) ensures w in Cat(Cat(A, B), C) {
      var k: nat :| Splits(A, Cat(B, C), w, k);
      var j: nat :| Splits(B, C, w[k..], j);
      CatIntro(A, B, w[..k], w[k..][..j]);
      CatIntro(Cat(A, B), C, w[..k] + w[k..][..j], w[k..][j..]);
      assert w == (w[..k] + w[k..][..j]) + w[k..][j..];
    }
  }

  lemma CatMono(A: Lang, B: Lang, C: Lang, D: Lang)
    requires A <= B && C <= D
    ensures Cat(A, C) <= Cat(B, D)
  {
    forall w | w in Cat(A, C) ensures w in Cat(B, D) {
      var k: nat :| Splits(A, C, w, k);
      assert Splits(B, D, w, k);
    }
  }

  lemma {:induction false} PowStar(A: Lang, n: nat)
    ensures Pow(A, n) <= Star(A)
  {
  }

  /** A* = eps + A A*. */
  lemma StarUnroll(A: Lang)
    ensures Star(A) == Eps() + Cat(A, Star(A))
  {
    forall w | w in Star(A) ensures w in Eps() + Cat(A, Star(A)) {
      var n: nat :| w in Pow(A, n);
      if n > 0 {
        PowStar(A, n - 1);
        CatMono(A, A, Pow(A, n - 1), Star(A));
      }
    }
    assert "" in Pow(A, 0);
    forall w | w in Cat(A, Star(A)) ensures w in Star(A) {
      var k: nat :| Splits(A, Star(A), w, k);
      var n: nat :| w[k..] in Pow(A, n);
      assert Splits(A, Pow(A, n), w, k);
      assert w in Pow(A, n + 1);
    }
  }

  /** Repetition counts between two bounds, as the union of the powers. */
  ghost function Repeat(A: Lang, lo: nat, hi: nat): Lang {
    iset w: string | InRepeat(A, lo, hi, w)
  }

  ghost predicate InRepeat(A: Lang, lo: nat, hi: nat, w: string) {
    exists n: nat :: lo <= n <= hi && w in Pow(A, n)
  }

  ghost function RepeatFrom(A: Lang, lo: nat): Lang {
    iset w: string | InRepeatFrom(A, lo, w)
  }

  ghost predicate InRepeatFrom(A: Lang, lo: nat, w: string) {
    exists n: nat :: lo <= n && w in Pow(A, n)
  }

  /** A^n A^{<=d} = A^{n..n+d}, the meaning of {n,m}. */
  lemma {:induction false} RepeatIsChain(A: Lang, n: nat, d: nat)
    ensures Cat(Pow(A, n), UpTo(A, d)) == Repeat(A, n, n + d)
  {
    hide InCat, InRepeat;
    if n == 0 {
      assert Pow(A, 0) == Eps();
      CatEps(UpTo(A, d));
      UpToIsRepeat(A, d);
    } else {
      RepeatIsChain(A, n - 1, d);
      ChainStep(A, n - 1, d);
    }
  }

  lemma ChainStep(A: Lang, n: nat, d: nat)
    requires Cat(Pow(A, n), UpTo(A, d)) == Repeat(A, n, n + d)
    ensures Cat(Pow(A, n + 1), UpTo(A, d)) == Repeat(A, n + 1, n + 1 + d)
  {
    hide InCat, InRepeat;
    assert Pow(A, n + 1) == Cat(A, Pow(A, n));
    CatAssoc(A, Pow(A, n), UpTo(A, d));
    RepeatShift(A, n, n + d);
  }

  lemma RepeatShift(A: Lang, lo: nat, hi: nat)
    ensures Cat(A, Repeat(A, lo, hi)) == Repeat(A, lo + 1, hi + 1)
  {
    forall w | w in Cat(A, Repeat(A, lo, hi)) ensures w in Repeat(A, lo + 1, hi + 1) {
      var k: nat :| Splits(A, Repeat(A, lo, hi), w, k);
      var n: nat :| lo <= n <= hi && w[k..] in Pow(A, n);
      assert Splits(A, Pow(A, n), w, k);
      assert w in Pow(A, n + 1);
    }
    forall w | w in Repeat(A, lo + 1, hi + 1) ensures w in Cat(A, Repeat(A, lo, hi)) {
      var n: nat :| lo + 1 <= n <= hi + 1 && w in Pow(A, n);
      var k: nat :| Splits(A, Pow(A, n - 1), w, k);
      assert w[k..] in Repeat(A, lo, hi);
      assert Splits(A, Repeat(A, lo, hi), w, k);
    }
  }

  lemma {:induction false} UpToIsRepeat(A: Lang, d: nat)
    ensures UpTo(A, d) == Repeat(A, 0, d)
  {
    if d == 0 {
      assert forall w :: w in Pow(A, 0) <==> w in Eps();
    } else {
      UpToIsRepeat(A, d - 1);
      RepeatShift(A, 0, d - 1);
      forall w ensures w in Repeat(A, 0, d) <==> w in Eps() + Repeat(A, 1, d) {
        if w in Repeat(A, 0, d) {
          var n: nat :| 0 <= n <= d && w in Pow(A, n);
          if n == 0 { assert w in Eps(); } else { assert w in Repeat(A, 1, d); }
        }
        if w in Eps() { assert w in Pow(A, 0); }
      }
    }
  }

  /** A^n A* = A^{>=n}, the meaning of {n,}. */
  lemma {:induction false} RepeatFromIsChain(A: Lang, n: nat)
    ensures Cat(Pow(A, n), Star(A)) == RepeatFrom(A, n)
  {
    if n == 0 {
      CatEps(Star(A));
    } else {
      CatAssoc(A, Pow(A, n - 1), Star(A));
      RepeatFromIsChain(A, n - 1);
      forall w | w in Cat(A, RepeatFrom(A, n - 1)) ensures w in RepeatFrom(A, n) {
        var k: nat :| Splits(A, RepeatFrom(A, n - 1), w, k);
        var j: nat :| n - 1 <= j && w[k..] in Pow(A, j);
        assert Splits(A, Pow(A, j), w, k);
        assert w in Pow(A, j + 1);
      }
      forall w | w in RepeatFrom(A, n) ensures w in Cat(A, RepeatFrom(A, n - 1)) {
        var j: nat :| n <= j && w in Pow(A, j);
        var k: nat :| Splits(A, Pow(A, j - 1), w, k);
        assert w[k..] in RepeatFrom(A, n - 1);
        assert Splits(A, RepeatFrom(A, n - 1), w, k);
      }
    }
  }

  // ---------- Syntax ----------

  /** An atom: a literal character, a character class (also `.` and `\d` and so on), or a group. */
  datatype Atom = Chr(ch: char) | Class(chars: set<char>) | Group(capturing: bool, body: Expr)

  /** The quantifier after an atom; `lazy` is the trailing question mark. */
  datatype Quant =
    | Once
    | ZeroOrMore(lazy: bool)
    | OneOrMore(lazy: bool)
    | ZeroOrOne(lazy: bool)
    | Exactly(n: nat, lazy: bool)
    | AtLeast(n: nat, lazy: bool)
    | Between(n: nat, m: nat, lazy: bool)

  datatype Factor = Factor(atom: Atom, quant: Quant)

  datatype Term = Single(f: Factor) | Then(f: Factor, rest: Term)

  datatype Expr = Only(t: Term) | Or(t: Term, others: Expr)

  /** to_lower_if_needed */
  function Lower(c: char): char {
    if 'A' <= c <= 'Z' then c - 'A' + 'a' else c
  }

  predicate SameChar(ignoreCase: bool, a: char, b: char) {
    if ignoreCase then Lower(a) == Lower(b) else a == b
  }

  // ---------- Meaning ----------

  /** The same character, or, when case is ignored, the two cases of one of the 26 letters. */
  predicate Alike(ignoreCase: bool, a: char, b: char) {
    a == b || (ignoreCase && (IsUpperOf(a, b) || IsUpperOf(b, a)))
  }

  predicate IsUpperOf(u: char, l: char) { 'A' <= u <= 'Z' && l as int == u as int + 32 }

  /** Comparing by to_lower_if_needed finds exactly the characters alike. */
  lemma SameIsAlike(ignoreCase: bool)
    ensures forall a: char, b: char :: SameChar(ignoreCase, a, b) <==> Alike(ignoreCase, a, b)
  {
    forall a: char, b: char ensures SameChar(ignoreCase, a, b) <==> Alike(ignoreCase, a, b) {
      assert 'a' as int == 'A' as int + 32 && 'z' as int == 'Z' as int + 32;
    }
  }

  /** What a quantifier should mean. */
  ghost function QuantLang(A: Lang, q: Quant): Lang {
    match q
    case Once => A
    case ZeroOrMore(_) => Star(A)
    case OneOrMore(_) => RepeatFrom(A, 1)
    case ZeroOrOne(_) => Repeat(A, 0, 1)
    case Exactly(n, _) => Repeat(A, n, n)
    case AtLeast(n, _) => RepeatFrom(A, n)
    case Between(n, m, _) => Repeat(A, n, m)
  }

  /** What apply_quantifier makes of it. Its scratch arrays hold 128 fragments, and a longer count leaves the
      fragment's start unconnected; an upper bound with lower bound 0 leaves the body's end unconnected; an upper
      bound below the lower one is ignored. */
  ghost function CompiledQuant(A: Lang, q: Quant): Lang {
    match q
    case Once => A
    case ZeroOrMore(_) => Star(A)
    case OneOrMore(_) => Cat(A, Star(A))
    case ZeroOrOne(_) => Eps() + A
    case Exactly(n, _) => if n <= 128 then Pow(A, n) else iset{}
    case AtLeast(n, _) => if n <= 128 then Cat(Pow(A, n), Star(A)) else iset{}
    case Between(n, m, _) =>
      if m <= n then (if n <= 128 then Pow(A, n) else iset{})
      else if n == 0 then Eps()
      else if n <= 128 && m - n <= 128 then Cat(Pow(A, n), UpTo(A, m - n))
      else iset{}
  }

  /** The quantifiers that compile to what they should mean. */
  predicate Supported(q: Quant) {
    match q
    case Exactly(n, _) => n <= 128
    case AtLeast(n, _) => n <= 128
    case Between(n, m, _) => if m < n then n > 128 else n <= 128 && m - n <= 128 && (n == 0 ==> m == 0)
    case _ => true
  }

  lemma PowIsRepeat(A: Lang, n: nat)
    ensures Pow(A, n) == Repeat(A, n, n)
  {
    RepeatIsChain(A, n, 0);
    CatEps(Pow(A, n));
  }

  lemma SupportedQuant(A: Lang, q: Quant)
    requires Supported(q)
    ensures CompiledQuant(A, q) == QuantLang(A, q)
  {
    match q
    case Once =>
    case ZeroOrMore(_) =>
    case OneOrMore(_) => RepeatFromIsChain(A, 1); CatEps(A); assert Pow(A, 1) == Cat(A, Pow(A, 0));
    case ZeroOrOne(_) => UpToIsRepeat(A, 1); CatEps(A); assert UpTo(A, 1) == Eps() + Cat(A, UpTo(A, 0));
    case Exactly(n, _) => PowIsRepeat(A, n);
    case AtLeast(n, _) => RepeatFromIsChain(A, n);
    case Between(n, m, _) =>
      if m < n {
        assert Repeat(A, n, m) == iset{};
      } else if m == n {
        PowIsRepeat(A, n);
      } else {
        RepeatIsChain(A, n, m - n);
      }
  }

  /** Words of single characters. */
  ghost function CharLang(chars: iset<char>): Lang {
    iset w: string | |w| == 1 && w[0] in chars
  }

  /** Repeating a character gives one word of every length. */
  lemma {:induction false} CharPow(chars: iset<char>, c: char, n: nat) returns (w: string)
    requires c in chars
    ensures w in Pow(CharLang(chars), n) && |w| == n
  {
    if n == 0 { w := ""; } else {
      var v := CharPow(chars, c, n - 1);
      assert [c] in CharLang(chars);
      CatIntro(CharLang(chars), Pow(CharLang(chars), n - 1), [c], v);
      w := [c] + v;
    }
  }

  /** On a single-character atom, a quantifier means what it should exactly when it is supported. */
  lemma SupportedExactly(chars: iset<char>, c: char, q: Quant)
    requires c in chars
    ensures CompiledQuant(CharLang(chars), q) == QuantLang(CharLang(chars), q) <==> Supported(q)
  {
    var A := CharLang(chars);
    if Supported(q) {
      SupportedQuant(A, q);
    } else {
      match q
      case Exactly(n, _) =>
        var w := CharPow(chars, c, n);
        assert w in QuantLang(A, q);
      case AtLeast(n, _) =>
        var w := CharPow(chars, c, n);
        assert w in QuantLang(A, q);
      case Between(n, m, _) =>
        if m < n {
          var w := CharPow(chars, c, n);
          assert w in CompiledQuant(A, q) && w !in QuantLang(A, q);
        } else if n == 0 {
          var w := CharPow(chars, c, m);
          assert w in QuantLang(A, q) && w !in Eps();
        } else {
          var w := CharPow(chars, c, n);
          assert w in QuantLang(A, q);
        }
    }
  }

  ghost function AtomLang(a: Atom, ignoreCase: bool): Lang
    decreases a
  {
    match a
    case Chr(c) => CharLang(iset b: char | Alike(ignoreCase, b, c))
    case Class(chars) => CharLang(iset b: char | b in chars)
    case Group(_, e) => ExprLang(e, ignoreCase)
  }

  ghost function FactorLang(f: Factor, ignoreCase: bool): Lang
    decreases f
  {
    QuantLang(AtomLang(f.atom, ignoreCase), f.quant)
  }

  ghost function TermLang(t: Term, ignoreCase: bool): Lang
    decreases t
  {
    match t
    case Single(f) => FactorLang(f, ignoreCase)
    case Then(f, rest) => Cat(FactorLang(f, ignoreCase), TermLang(rest, ignoreCase))
  }

  /** The language a pattern denotes. */
  ghost function ExprLang(e: Expr, ignoreCase: bool): Lang
    decreases e
  {
    match e
    case Only(t) => TermLang(t, ignoreCase)
    case Or(t, others) => TermLang(t, ignoreCase) + ExprLang(others, ignoreCase)
  }

  ghost function CompiledAtom(a: Atom, ignoreCase: bool): Lang
    decreases a
  {
    match a
    case Group(_, e) => CompiledExpr(e, ignoreCase)
    case _ => AtomLang(a, ignoreCase)
  }

  ghost function CompiledFactor(f: Factor, ignoreCase: bool): Lang
    decreases f
  {
    CompiledQuant(CompiledAtom(f.atom, ignoreCase), f.quant)
  }

  ghost function CompiledTerm(t: Term, ignoreCase: bool): Lang
    decreases t
  {
    match t
    case Single(f) => CompiledFactor(f, ignoreCase)
    case Then(f, rest) => Cat(CompiledFactor(f, ignoreCase), CompiledTerm(rest, ignoreCase))
  }

  /** The language of the automaton that the compiler builds. */
  ghost function CompiledExpr(e: Expr, ignoreCase: bool): Lang
    decreases e
  {
    match e
    case Only(t) => CompiledTerm(t, ignoreCase)
    case Or(t, others) => CompiledTerm(t, ignoreCase) + CompiledExpr(others, ignoreCase)
  }

  // ---------- What the languages are, in plain words ----------

  ghost predicate AllIn(w: string, chars: iset<char>) {
    forall i | 0 <= i < |w| :: w[i] in chars
  }

  /** n characters in a row. */
  lemma {:induction false} CharPowWords(chars: iset<char>, n: nat, w: string)
    ensures w in Pow(CharLang(chars), n) <==> |w| == n && AllIn(w, chars)
  {
    if n > 0 {
      var A := CharLang(chars);
      if w in Pow(A, n) {
        var k: nat :| Splits(A, Pow(A, n - 1), w, k);
        CharPowWords(chars, n - 1, w[k..]);
        assert w == w[..k] + w[k..];
      }
      if |w| == n && AllIn(w, chars) {
        CharPowWords(chars, n - 1, w[1..]);
        assert w[..1] in A && Splits(A, Pow(A, n - 1), w, 1);
      }
    }
  }

  /** How many repetitions a quantifier asks for. */
  predicate Counts(q: Quant, n: nat) {
    match q
    case Once => n == 1
    case ZeroOrMore(_) => true
    case OneOrMore(_) => n > 0
    case ZeroOrOne(_) => n < 2
    case Exactly(k, _) => n == k
    case AtLeast(k, _) => k <= n
    case Between(k, m, _) => k <= n <= m
  }

  /** A quantified character or class denotes the words of its characters whose length the quantifier asks for. */
  lemma QuantifiedChars(chars: iset<char>, q: Quant, w: string)
    ensures w in QuantLang(CharLang(chars), q) <==> AllIn(w, chars) && Counts(q, |w|)
  {
    hide Pow, CharLang, AllIn;
    var A := CharLang(chars);
    forall n: nat ensures w in Pow(A, n) <==> n == |w| && AllIn(w, chars) { CharPowWords(chars, n, w); }
    OneCopy(A);
    if AllIn(w, chars) {
      assert w in Pow(A, |w|);
    }
  }

  lemma OneCopy(A: Lang)
    ensures Pow(A, 1) == A
  {
    hide InCat;
    CatEps(A);
    assert Pow(A, 1) == Cat(A, Pow(A, 0));
  }

  /** The characters of a word one after the other. */
  function Literal(w: string): Term
    requires w != ""
  {
    var f := Factor(Chr(w[0]), Once);
    if |w| == 1 then Single(f) else Then(f, Literal(w[1..]))
  }

  /** A literal word denotes the words that are like it, character by character. */
  lemma {:induction false} LiteralMeaning(w: string, ignoreCase: bool, u: string)
    requires w != ""
    ensures u in TermLang(Literal(w), ignoreCase) <==> |u| == |w| && forall i | 0 <= i < |w| :: Alike(ignoreCase, u[i], w[i])
    decreases |w|
  {
    var A := AtomLang(Chr(w[0]), ignoreCase);
    if |w| > 1 {
      var B := TermLang(Literal(w[1..]), ignoreCase);
      if u in Cat(A, B) {
        var k: nat :| Splits(A, B, u, k);
        LiteralMeaning(w[1..], ignoreCase, u[k..]);
        assert u == u[..k] + u[k..];
        assert forall i | 1 <= i < |w| :: u[i] == u[1..][i - 1] && w[i] == w[1..][i - 1];
      }
      if |u| == |w| && forall i | 0 <= i < |w| :: Alike(ignoreCase, u[i], w[i]) {
        LiteralMeaning(w[1..], ignoreCase, u[1..]);
        assert u[..1] in A && Splits(A, B, u, 1);
      }
    }
  }

  // ---------- Patterns within the compiler's limits ----------

  predicate SupportedFactor(f: Factor)
    decreases f
  {
    Supported(f.quant) && (f.atom.Group? ==> SupportedExpr(f.atom.body))
  }

  predicate SupportedTerm(t: Term)
    decreases t
  {
    SupportedFactor(t.f) && (t.Then? ==> SupportedTerm(t.rest))
  }

  predicate SupportedExpr(e: Expr)
    decreases e
  {
    SupportedTerm(e.t) && (e.Or? ==> SupportedExpr(e.others))
  }

  lemma {:induction false} SupportedFactorMeaning(f: Factor, ignoreCase: bool)
    requires SupportedFactor(f)
    ensures CompiledFactor(f, ignoreCase) == FactorLang(f, ignoreCase)
    decreases f
  {
    if f.atom.Group? { SupportedExprMeaning(f.atom.body, ignoreCase); }
    SupportedQuant(CompiledAtom(f.atom, ignoreCase), f.quant);
  }

  lemma {:induction false} SupportedTermMeaning(t: Term, ignoreCase: bool)
    requires SupportedTerm(t)
    ensures CompiledTerm(t, ignoreCase) == TermLang(t, ignoreCase)
    decreases t
  {
    SupportedFactorMeaning(t.f, ignoreCase);
    if t.Then? { SupportedTermMeaning(t.rest, ignoreCase); }
  }

  /** Within the limits, the compiled language is the language the pattern denotes. */
  lemma {:induction false} SupportedExprMeaning(e: Expr, ignoreCase: bool)
    requires SupportedExpr(e)
    ensures CompiledExpr(e, ignoreCase) == ExprLang(e, ignoreCase)
    decreases e
  {
    SupportedTermMeaning(e.t, ignoreCase);
    if e.Or? { SupportedExprMeaning(e.others, ignoreCase); }
  }
}
