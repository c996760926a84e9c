/** The text of a pattern, and how vox_regex_compile looks for lazy quantifiers in it. */
module RegexText {
  import opened RegexLang

  /** How counts and classes are spelled. */
  datatype Spelling = Spelling(count: nat -> string, charClass: set<char> -> string)

  /** Counts are digits; a class neither begins with a question mark nor ends in what could stand before one. */
  ghost predicate Sensible(sp: Spelling) {
    && (forall n: nat {:trigger sp.count(n)} :: forall i | 0 <= i < |sp.count(n)| :: '0' <= sp.count(n)[i] <= '9')
    && (forall cs: set<char> {:trigger sp.charClass(cs)} ::
          var t := sp.charClass(cs); t != "" && t[0] != '?' && !Quantifies(t[|t| - 1]))
  }

  /** The characters that need a backslash to stand for themselves. */
  predicate Special(c: char) { c in "\\.[](){}*+?|^$" }

  function QuantText(sp: Spelling, q: Quant): string {
    match q
    case Once => ""
    case ZeroOrMore(lazy) => "*" + LazyText(lazy)
    case OneOrMore(lazy) => "+" + LazyText(lazy)
    case ZeroOrOne(lazy) => "?" + LazyText(lazy)
    case Exactly(n, lazy) => "{" + sp.count(n) + "}" + LazyText(lazy)
    case AtLeast(n, lazy) => "{" + sp.count(n) + "," + "}" + LazyText(lazy)
    case Between(n, m, lazy) => "{" + sp.count(n) + "," + sp.count(m) + "}" + LazyText(lazy)
  }

  function LazyText(lazy: bool): string { if lazy then "?" else "" }

  function AtomText(sp: Spelling, a: Atom): string
    decreases a
  {
    match a
    case Chr(c) => if Special(c) then ['\\', c] else [c]
    case Class(chars) => sp.charClass(chars)
    case Group(capturing, body) => (if capturing then "(" else "(?:") + ExprText(sp, body) + ")"
  }

  function FactorText(sp: Spelling, f: Factor): string
    decreases f
  {
    AtomText(sp, f.atom) + QuantText(sp, f.quant)
  }

  function TermText(sp: Spelling, t: Term): string
    decreases t
  {
    match t
    case Single(f) => FactorText(sp, f)
    case Then(f, rest) => FactorText(sp, f) + TermText(sp, rest)
  }

  function ExprText(sp: Spelling, e: Expr): string
    decreases e
  {
    match e
    case Only(t) => TermText(sp, t)
    case Or(t, others) => TermText(sp, t) + "|" + ExprText(sp, others)
  }

  // ---------- The scan ----------

  /** What the scan takes for a quantifier when a question mark follows. */
  predicate Quantifies(c: char) { c == '*' || c == '+' || c == '?' || c == '}' }

  ghost predicate Marked(s: string) {
    exists i :: 0 < i < |s| && s[i] == '?' && Quantifies(s[i - 1])
  }

  /** The loop of vox_regex_compile over the pattern's text. */
  method ScanForLazy(pattern: string) returns (found: bool)
    ensures found <==> Marked(pattern)
  {
    found := false;
    for i := 0 to |pattern|
      invariant !found && forall j | 0 < j < i && pattern[j] == '?' :: !Quantifies(pattern[j - 1])
    {
      if pattern[i] == '?' && i > 0 && Quantifies(pattern[i - 1]) {
        return true;
      }
    }
  }

  // ---------- What it finds ----------

  predicate IsLazy(q: Quant) { !q.Once? && q.lazy }

  predicate LazyFactor(f: Factor)
    decreases f
  {
    IsLazy(f.quant) || (f.atom.Group? && LazyExpr(f.atom.body))
  }

  predicate LazyTerm(t: Term)
    decreases t
  {
    LazyFactor(t.f) || (t.Then? && LazyTerm(t.rest))
  }

  /** The pattern has a lazy quantifier. */
  predicate LazyExpr(e: Expr)
    decreases e
  {
    LazyTerm(e.t) || (e.Or? && LazyExpr(e.others))
  }

  /** A class spelled with a mark inside, or an optional literal asterisk, plus, question mark or brace. */
  ghost predicate MisreadFactor(sp: Spelling, f: Factor)
    decreases f
  {
    match f.atom
    case Chr(c) => f.quant.ZeroOrOne? && Quantifies(c)
    case Class(chars) => Marked(sp.charClass(chars))
    case Group(_, body) => MisreadExpr(sp, body)
  }

  ghost predicate MisreadTerm(sp: Spelling, t: Term)
    decreases t
  {
    MisreadFactor(sp, t.f) || (t.Then? && MisreadTerm(sp, t.rest))
  }

  ghost predicate MisreadExpr(sp: Spelling, e: Expr)
    decreases e
  {
    MisreadTerm(sp, e.t) || (e.Or? && MisreadExpr(sp, e.others))
  }

  lemma MarkedConcat(a: string, b: string)
    ensures Marked(a + b) <==> Marked(a) || Marked(b) || (a != "" && b != "" && b[0] == '?' && Quantifies(a[|a| - 1]))
  {
    var s := a + b;
    if Marked(a) {
      var i :| 0 < i < |a| && a[i] == '?' && Quantifies(a[i - 1]);
      assert s[i] == '?' && Quantifies(s[i - 1]);
    }
    if Marked(b) {
      var i :| 0 < i < |b| && b[i] == '?' && Quantifies(b[i - 1]);
      assert s[|a| + i] == '?' && s[|a| + i - 1] == b[i - 1];
    }
    if a != "" && b != "" && b[0] == '?' && Quantifies(a[|a| - 1]) {
      assert s[|a|] == '?' && s[|a| - 1] == a[|a| - 1];
    }
    if Marked(s) {
      var i :| 0 < i < |s| && s[i] == '?' && Quantifies(s[i - 1]);
      if i < |a| { assert a[i] == '?'; } else if i > |a| { assert b[i - |a|] == '?'; }
    }
  }

  lemma MarkedQuant(sp: Spelling, q: Quant)
    requires Sensible(sp)
    ensures Marked(QuantText(sp, q)) <==> IsLazy(q)
    ensures QuantText(sp, q) != "" && QuantText(sp, q)[0] == '?' <==> q.ZeroOrOne?
  {
    if !q.Once? {
      var t := LazyText(q.lazy);
      var body :=
        match q
        case ZeroOrMore(_) => "*"
        case OneOrMore(_) => "+"
        case ZeroOrOne(_) => "?"
        case Exactly(n, _) => "{" + sp.count(n) + "}"
        case AtLeast(n, _) => "{" + sp.count(n) + "," + "}"
        case Between(n, m, _) => "{" + sp.count(n) + "," + sp.count(m) + "}"
        case Once => "*";
      assert QuantText(sp, q) == body + t;
      assert !q.ZeroOrOne? ==> forall i | 0 <= i < |body| :: body[i] != '?';
      MarkedConcat(body, t);
    }
  }

  lemma {:induction false} MarkedFactor(sp: Spelling, f: Factor)
    requires Sensible(sp)
    ensures FactorText(sp, f) != "" && FactorText(sp, f)[0] != '?'
    ensures Marked(FactorText(sp, f)) <==> LazyFactor(f) || MisreadFactor(sp, f)
    decreases f
  {
    var a, q := AtomText(sp, f.atom), QuantText(sp, f.quant);
    MarkedQuant(sp, f.quant);
    if f.atom.Group? { MarkedGroup(sp, f.atom); }
    hide Marked, QuantText;
    MarkedConcat(a, q);
    if f.atom.Chr? { LiteralUnmarked(f.atom.ch); }
  }

  lemma LiteralUnmarked(c: char)
    ensures !Marked(['\\', c]) && !Marked([c])
  {
  }

  lemma {:induction false} MarkedGroup(sp: Spelling, a: Atom)
    requires Sensible(sp) && a.Group?
    ensures Marked(AtomText(sp, a)) <==> LazyExpr(a.body) || MisreadExpr(sp, a.body)
    ensures var t := AtomText(sp, a); t != "" && t[0] != '?' && !Quantifies(t[|t| - 1])
    decreases a
  {
    var open, body := if a.capturing then "(" else "(?:", ExprText(sp, a.body);
    MarkedExpr(sp, a.body);
    OpenUnmarked();
    hide Marked;
    MarkedConcat(open, body);
    MarkedConcat(open + body, ")");
  }

  lemma OpenUnmarked()
    ensures !Marked("(") && !Marked("(?:") && !Marked(")") && !Marked("|")
  {
  }

  lemma {:induction false} MarkedTerm(sp: Spelling, t: Term)
    requires Sensible(sp)
    ensures TermText(sp, t) != "" && TermText(sp, t)[0] != '?'
    ensures Marked(TermText(sp, t)) <==> LazyTerm(t) || MisreadTerm(sp, t)
    decreases t
  {
    hide Marked, FactorText;
    MarkedFactor(sp, t.f);
    if t.Then? {
      MarkedTerm(sp, t.rest);
      MarkedConcat(FactorText(sp, t.f), TermText(sp, t.rest));
    }
  }

  /** The scan finds a mark exactly if the pattern has a lazy quantifier or something that it misreads for one. */
  lemma {:induction false} MarkedExpr(sp: Spelling, e: Expr)
    requires Sensible(sp)
    ensures ExprText(sp, e) != "" && ExprText(sp, e)[0] != '?'
    ensures Marked(ExprText(sp, e)) <==> LazyExpr(e) || MisreadExpr(sp, e)
    decreases e
  {
    MarkedTerm(sp, e.t);
    OpenUnmarked();
    hide Marked, TermText;
    if e.Or? {
      MarkedExpr(sp, e.others);
      MarkedConcat(TermText(sp, e.t), "|");
      MarkedConcat(TermText(sp, e.t) + "|", ExprText(sp, e.others));
    }
  }

  /** So it tells whether there is a lazy quantifier exactly unless it misreads a pattern without one. */
  lemma ScanIsExact(sp: Spelling, e: Expr)
    requires Sensible(sp)
    ensures (Marked(ExprText(sp, e)) <==> LazyExpr(e)) <==> (MisreadExpr(sp, e) ==> LazyExpr(e))
  {
    MarkedExpr(sp, e);
  }

  /** `\*?`, an optional asterisk, is taken for a lazy quantifier. */
  lemma OptionalAsterisk(sp: Spelling)
    requires Sensible(sp)
    ensures var e := Only(Single(Factor(Chr('*'), ZeroOrOne(false))));
            ExprText(sp, e) == "\\*?" && Marked(ExprText(sp, e)) && !LazyExpr(e)
  {
    MarkedExpr(sp, Only(Single(Factor(Chr('*'), ZeroOrOne(false)))));
  }
}
