/** The parser of vox_json.c undoes its serialiser, up to the spelling of strings. */
module JsonRoundTrip {
  import opened Prelude
  import opened Json

  // ---------- What comes back ----------

  /** The number that decimal digits stand for. */
  function DigitsValue(w: string): nat
    requires forall i | 0 <= i < |w| :: '0' <= w[i] <= '9'
  {
    if w == "" then 0 else 10 * DigitsValue(w[..|w| - 1]) + (w[|w| - 1] as int - '0' as int)
  }

  predicate Decimal(w: string) { w != "" && forall i | 0 <= i < |w| :: '0' <= w[i] <= '9' }

  /** A decimal integer without leading zeros. */
  predicate IntegerWord(w: string) {
    w == "0" || (Decimal(w) && w[0] != '0') || (w != "" && w[0] == '-' && Decimal(w[1..]) && w[1] != '0')
  }

  function IntegerValue(w: string): int
    requires IntegerWord(w)
  {
    if w[0] == '-' then 0 - DigitsValue(w[1..]) else DigitsValue(w)
  }

  /** strtod is exact on the decimal integers that a double can hold. */
  ghost predicate ExactOnIntegers(libc: Libc) {
    forall w: string | IntegerWord(w) && -MAX_EXACT <= IntegerValue(w) <= MAX_EXACT :: libc.strtod(w) == Some(Int(IntegerValue(w)))
  }

  /** The serialiser's text of an integer is its decimal representation. */
  lemma {:induction false} NatTextValue(n: nat)
    ensures Decimal(NatText(n)) && DigitsValue(NatText(n)) == n && (n > 0 ==> NatText(n)[0] != '0')
  {
    if n < 10 {
      assert NatText(n)[..0] == "";
      OneDigit(n);
    } else {
      NatTextValue(n / 10);
      OneDigit(n % 10);
      var t, u := NatText(n), NatText(n / 10);
      assert t[..|t| - 1] == u && t[|t| - 1] == Digit(n % 10) && t[0] == u[0];
    }
  }

  lemma OneDigit(d: nat)
    requires d < 10
    ensures '0' <= Digit(d) <= '9' && Digit(d) as int == '0' as int + d
  {
  }

  lemma IntTextValue(n: int)
    ensures IntegerWord(IntText(n)) && IntegerValue(IntText(n)) == n
  {
    NatTextValue(if n < 0 then -n else n);
    if n < 0 {
      assert IntText(n)[1..] == NatText(-n);
    } else if n == 0 {
      assert NatText(0) == [Digit(0)];
    }
  }

  predicate ExactNum(num: Num) { num.Int? && -MAX_EXACT <= num.n <= MAX_EXACT }

  /** All numbers are integers that a double holds exactly. */
  predicate AllInts(e: Json) {
    match e
    case Number(num) => ExactNum(num)
    case Array(items) => forall k | 0 <= k < |items| :: AllInts(items[k])
    case Object(members) => forall k | 0 <= k < |members| :: AllInts(members[k].value)
    case _ => true
  }

  /** The scanner takes blanks that follow an opening quote for white space between tokens. */
  function Trimmed(s: string): string {
    if s != "" && s[0] == ' ' then Trimmed(s[1..]) else s
  }

  /** The tree with every string and name as the serialiser spells it, less its leading blanks. */
  function Spelled(e: Json): Json
    decreases e, 1, 0
  {
    match e
    case String(s) => String(Escape(Trimmed(s)))
    case Array(items) => Array(SpelledItems(e, 0))
    case Object(members) => Object(SpelledMembers(e, 0))
    case _ => e
  }

  function SpelledItems(e: Json, k: nat): seq<Json>
    requires e.Array? && k <= |e.items|
    decreases e, 0, |e.items| - k
  {
    if k == |e.items| then [] else [Spelled(e.items[k])] + SpelledItems(e, k + 1)
  }

  function SpelledMembers(e: Json, k: nat): seq<Member>
    requires e.Object? && k <= |e.members|
    decreases e, 0, |e.members| - k
  {
    if k == |e.members| then []
    else [Member(Escape(Trimmed(e.members[k].name)), Spelled(e.members[k].value))] + SpelledMembers(e, k + 1)
  }

  // ---------- Scanning ----------

  lemma SkipNone(s: string)
    requires s == "" || !IsSpace(s[0])
    ensures Skip(s) == s
  {
  }

  lemma {:induction false} SkipSpaces(indent: nat, s: string)
    ensures Skip(Spaces(indent) + s) == Skip(s)
  {
    hide Skip;
    if indent == 0 {
      assert Spaces(indent) + s == s;
    } else {
      SkipBlanks(Spaces(indent - 1) + s);
      SkipSpaces(indent - 1, s);
      Regroup3("  ", Spaces(indent - 1), s);
    }
  }

  lemma SkipBlanks(s: string)
    ensures Skip("  " + s) == Skip(s)
  {
    assert "  " + s == [' '] + ([' '] + s);
    SkipOne(' ', [' '] + s);
    SkipOne(' ', s);
  }

  lemma SkipOne(c: char, s: string)
    requires IsSpace(c)
    ensures Skip([c] + s) == Skip(s)
  {
    assert ([c] + s)[1..] == s;
  }

  lemma SkipNewLine(pretty: bool, indent: nat, s: string)
    ensures Skip(NewLine(pretty, indent) + s) == Skip(s)
  {
    if pretty {
      assert NewLine(pretty, indent) + s == ['\n'] + (Spaces(indent) + s);
      SkipOne('\n', Spaces(indent) + s);
      SkipSpaces(indent, s);
    } else {
      assert NewLine(pretty, indent) + s == s;
    }
  }

  // ---------- Strings ----------

  /** The escape of one character is passed over as a whole. */
  lemma EscapeCharEnd(c: char, p: string, s: string)
    ensures |p + EscapeChar(c)| <= |p + EscapeChar(c) + s|
    ensures StringEnd(p + EscapeChar(c) + s, |p|) == StringEnd(p + EscapeChar(c) + s, |p + EscapeChar(c)|)
  {
    var x := EscapeChar(c);
    var t := p + x + s;
    assert forall i | 0 <= i < |x| :: t[|p| + i] == x[i];
    if |x| > 1 {
      assert t[|p|] == '\\';
      if |x| == 6 {
        var d := c as int;
        assert IsHex(HexDigit(d / 16)) && IsHex(HexDigit(d % 16));
        assert t[|p| + 1] == 'u' && t[|p| + 2] == '0' && t[|p| + 3] == '0' && t[|p| + 4] == x[4] && t[|p| + 5] == x[5];
      } else {
        assert t[|p| + 1] == x[1] && x[1] != 'u';
      }
    } else {
      assert t[|p|] == c;
    }
  }

  lemma {:induction false} EscapeEnd(u: string, p: string, s: string)
    ensures |p + Escape(u)| <= |p + Escape(u) + "\"" + s|
    ensures StringEnd(p + Escape(u) + "\"" + s, |p|) == Some(|p + Escape(u)|)
    decreases u
  {
    if u == "" {
      assert (p + Escape(u) + "\"" + s)[|p|] == '\"';
    } else {
      hide StringEnd, EscapeChar;
      var x, v := EscapeChar(u[0]), Escape(u[1..]);
      EscapeCharEnd(u[0], p, v + "\"" + s);
      EscapeEnd(u[1..], p + x, s);
      assert p + Escape(u) == p + x + v by { Regroup3(p, x, v); }
      assert p + x + v + "\"" + s == p + x + (v + "\"" + s) by { Regroup4(p + x, v, "\"", s); }
    }
  }

  lemma {:induction false} SkipQuoted(s: string, rest: string)
    ensures Skip(Escape(s) + "\"" + rest) == Escape(Trimmed(s)) + "\"" + rest
  {
    var t := Escape(s) + "\"" + rest;
    if s == "" || s[0] != ' ' {
      assert t[0] == if s == "" then '\"' else EscapeChar(s[0])[0];
      SkipNone(t);
    } else {
      assert t == [' '] + (Escape(s[1..]) + "\"" + rest);
      SkipOne(' ', Escape(s[1..]) + "\"" + rest);
      SkipQuoted(s[1..], rest);
    }
  }

  lemma StringParsed(s: string, u: string, rest: string)
    requires s != "" && s[0] == '\"' && Skip(s[1..]) == u + "\"" + rest
    requires StringEnd(u + "\"" + rest, 0) == Some(|u|)
    ensures ParseString(s) == Some((u, Skip(rest)))
  {
    hide Skip, StringEnd;
    var t := u + "\"" + rest;
    assert t[..|u|] == u && t[|u| + 1..] == rest;
  }

  lemma StringBack(s: string, rest: string)
    ensures ParseString(Quoted(s) + rest) == Some((Escape(Trimmed(s)), Skip(rest)))
  {
    hide Escape, Trimmed, Skip, StringEnd, ParseString;
    var u := Escape(Trimmed(s));
    assert (Quoted(s) + rest)[0] == '\"' && (Quoted(s) + rest)[1..] == Escape(s) + "\"" + rest;
    SkipQuoted(s, rest);
    EscapeEnd(Trimmed(s), "", rest);
    assert "" + u == u;
    StringParsed(Quoted(s) + rest, u, rest);
  }

  lemma QuoteFirst(s: string, rest: string)
    ensures Quoted(s) + rest != "" && (Quoted(s) + rest)[0] == '\"'
  {
  }

  // ---------- Numbers ----------

  /** What may follow a number without being taken for a part of it. */
  predicate Stops(s: string) {
    s == "" || !(IsDigit(s[0]) || s[0] == '.' || s[0] == 'e' || s[0] == 'E')
  }

  lemma {:induction false} NatTextDigits(n: nat)
    ensures NatText(n) != "" && (forall i | 0 <= i < |NatText(n)| :: IsDigit(NatText(n)[i]))
    ensures NatText(n)[0] == '0' ==> n == 0 && |NatText(n)| == 1
  {
    if n >= 10 {
      NatTextDigits(n / 10);
    }
  }

  lemma {:induction false} DigitsRun(s: string, i: nat, j: nat)
    requires i <= j <= |s| && (forall k | i <= k < j :: IsDigit(s[k])) && (j == |s| || !IsDigit(s[j]))
    ensures DigitsEnd(s, i) == j
    decreases j - i
  {
    if i < j {
      DigitsRun(s, i + 1, j);
    }
  }

  lemma NumberText(n: int, rest: string)
    requires Stops(rest)
    ensures IntText(n) != "" && (IntText(n)[0] == '-' || IsDigit(IntText(n)[0]))
    ensures NumberEnd(IntText(n) + rest) == Some(|IntText(n)|)
  {
    hide NatText, DigitsEnd;
    var u := if n < 0 then -n else n;
    var d := NatText(u);
    NatTextDigits(u);
    var s := IntText(n) + rest;
    var i := if n < 0 then 1 else 0;
    assert forall k | i <= k < i + |d| :: s[k] == d[k - i];
    assert i + |d| == |IntText(n)|;
    assert s[0] == '-' <==> n < 0;
    if |IntText(n)| < |s| {
      assert s[|IntText(n)|] == rest[0];
    }
    assert s[i] == d[0];
    if d[0] != '0' {
      DigitsRun(s, i + 1, i + |d|);
    }
  }

  lemma NumberBack(libc: Libc, n: int, rest: string)
    requires ExactOnIntegers(libc) && -MAX_EXACT <= n <= MAX_EXACT && Stops(rest)
    ensures IntText(n) != "" && ParseNumber(libc, IntText(n) + rest) == Some((Number(Int(n)), Skip(rest)))
    ensures IntText(n)[0] == '-' || IsDigit(IntText(n)[0])
  {
    NumberText(n, rest);
    IntTextValue(n);
    hide IntegerValue, IntegerWord, IntText, NumberEnd, Stops;
    var s := IntText(n) + rest;
    assert s[..|IntText(n)|] == IntText(n) && s[|IntText(n)|..] == rest;
  }

  // ---------- Trees ----------

  /** No value's text begins with white space. */
  lemma TextStarts(libc: Libc, e: Json, pretty: bool, indent: nat)
    requires AllInts(e)
    ensures Text(libc, e, pretty, indent) != "" && !IsSpace(Text(libc, e, pretty, indent)[0])
    ensures Text(libc, e, pretty, indent)[0] != ']' && Text(libc, e, pretty, indent)[0] != '}'
  {
    if e.Number? {
      NumberText(e.num.n, "");
    }
  }

  lemma WordBack(libc: Libc, e: Json, word: string, rest: string)
    requires (e.Null? && word == "null") || (e == Bool(true) && word == "true") || (e == Bool(false) && word == "false")
    ensures ParseValue(libc, word + rest) == Some((e, Skip(rest)))
  {
    var s := word + rest;
    assert s[0] == word[0] && s[|word|..] == rest && word <= s;
  }

  lemma NumberValueBack(libc: Libc, n: int, rest: string)
    requires ExactOnIntegers(libc) && -MAX_EXACT <= n <= MAX_EXACT && Stops(rest)
    ensures ParseValue(libc, IntText(n) + rest) == Some((Number(Int(n)), Skip(rest)))
  {
    hide ExactOnIntegers, Skip, Stops, IntText, ParseNumber, ParseWord, ParseString, ParseItems, ParseMembers;
    NumberBack(libc, n, rest);
    assert (IntText(n) + rest)[0] == IntText(n)[0];
  }

  lemma StringValue(libc: Libc, s: string)
    requires s != "" && s[0] == '\"'
    ensures ParseValue(libc, s)
         == var r := ParseString(s); if r.None? then None else Some((String(r.value.0), r.value.1))
  {
  }

  lemma SkipsTo(pretty: bool, indent: nat, t: string)
    requires t != "" && !IsSpace(t[0])
    ensures Skip(NewLine(pretty, indent) + t) == t
  {
    SkipNewLine(pretty, indent, t);
    SkipNone(t);
  }

  /** What a bracket followed by u is parsed into. */
  lemma ArrayOpened(libc: Libc, u: string)
    ensures ParseValue(libc, "[" + u)
         == var t := Skip(u);
            if t != "" && t[0] == ']' then Some((Array([]), Skip(t[1..])))
            else var r := ParseItems(libc, t); if r.None? then None else Some((Array(r.value.0), r.value.1))
  {
    hide Skip, ParseItems, ParseMembers, ParseNumber, ParseWord, ParseString;
    var s := "[" + u;
    assert s[0] == '[' && s[1..] == u;
  }

  lemma ObjectOpened(libc: Libc, u: string)
    ensures ParseValue(libc, "{" + u)
         == var t := Skip(u);
            if t != "" && t[0] == '}' then Some((Object([]), Skip(t[1..])))
            else var r := ParseMembers(libc, t); if r.None? then None else Some((Object(r.value.0), r.value.1))
  {
    hide Skip, ParseItems, ParseMembers, ParseNumber, ParseWord, ParseString;
    var s := "{" + u;
    assert s[0] == '{' && s[1..] == u;
  }

  lemma ItemInts(e: Json, k: nat)
    requires AllInts(e) && e.Array? && k < |e.items|
    ensures AllInts(e.items[k])
  {
  }

  lemma MemberInts(e: Json, k: nat)
    requires AllInts(e) && e.Object? && k < |e.members|
    ensures AllInts(e.members[k].value)
  {
  }

  // What follows the item or member before the k-th: separators and texts up to the closing bracket, then rest.

  function ItemsTail(libc: Libc, e: Json, k: nat, pretty: bool, indent: nat, rest: string): string
    requires e.Array? && k <= |e.items|
    decreases |e.items| - k
  {
    if k == |e.items| then NewLine(pretty, indent) + ("]" + rest)
    else
      "," + (NewLine(pretty, Deeper(pretty, indent))
             + (Text(libc, e.items[k], pretty, Deeper(pretty, indent)) + ItemsTail(libc, e, k + 1, pretty, indent, rest)))
  }

  function MemberText(libc: Libc, m: Member, pretty: bool, inner: nat): string {
    Quoted(m.name) + ((if pretty then ": " else ":") + Text(libc, m.value, pretty, inner))
  }

  function MembersTail(libc: Libc, e: Json, k: nat, pretty: bool, indent: nat, rest: string): string
    requires e.Object? && k <= |e.members|
    decreases |e.members| - k
  {
    if k == |e.members| then NewLine(pretty, indent) + ("}" + rest)
    else
      "," + (NewLine(pretty, Deeper(pretty, indent))
             + (MemberText(libc, e.members[k], pretty, Deeper(pretty, indent)) + MembersTail(libc, e, k + 1, pretty, indent, rest)))
  }

  lemma {:induction false} ItemsTailText(libc: Libc, e: Json, k: nat, pretty: bool, indent: nat, rest: string)
    requires e.Array? && 0 < k <= |e.items|
    ensures ItemsText(libc, e, k, pretty, Deeper(pretty, indent)) + (NewLine(pretty, indent) + ("]" + rest))
         == ItemsTail(libc, e, k, pretty, indent, rest)
    decreases |e.items| - k
  {
    hide Text, NewLine, Deeper;
    var close := NewLine(pretty, indent) + ("]" + rest);
    if k == |e.items| {
      assert ItemsText(libc, e, k, pretty, Deeper(pretty, indent)) == "";
      assert "" + close == close;
    } else {
      var inner := Deeper(pretty, indent);
      ItemsTailText(libc, e, k + 1, pretty, indent, rest);
      Nest5(",", NewLine(pretty, inner), Text(libc, e.items[k], pretty, inner), ItemsText(libc, e, k + 1, pretty, inner), close);
    }
  }

  lemma {:induction false} MembersTailText(libc: Libc, e: Json, k: nat, pretty: bool, indent: nat, rest: string)
    requires e.Object? && 0 < k <= |e.members|
    ensures MembersText(libc, e, k, pretty, Deeper(pretty, indent)) + (NewLine(pretty, indent) + ("}" + rest))
         == MembersTail(libc, e, k, pretty, indent, rest)
    decreases |e.members| - k
  {
    hide Text, NewLine, Deeper, Quoted;
    var close := NewLine(pretty, indent) + ("}" + rest);
    if k == |e.members| {
      assert MembersText(libc, e, k, pretty, Deeper(pretty, indent)) == "";
      assert "" + close == close;
    } else {
      var inner := Deeper(pretty, indent);
      MembersTailText(libc, e, k + 1, pretty, indent, rest);
      MembersOne(libc, e, k, pretty, inner);
      Nest5(",", NewLine(pretty, inner), MemberText(libc, e.members[k], pretty, inner), MembersText(libc, e, k + 1, pretty, inner), close);
    }
  }

  lemma MembersOne(libc: Libc, e: Json, k: nat, pretty: bool, inner: nat)
    requires e.Object? && k < |e.members|
    ensures MembersText(libc, e, k, pretty, inner)
         == (if k > 0 then "," else "") + NewLine(pretty, inner) + MemberText(libc, e.members[k], pretty, inner)
            + MembersText(libc, e, k + 1, pretty, inner)
  {
    hide Text, NewLine, Quoted;
    var m := e.members[k];
    var sep, nl := if k > 0 then "," else "", NewLine(pretty, inner);
    var colon := if pretty then ": " else ":";
    Regroup4(sep + nl, Quoted(m.name), colon, Text(libc, m.value, pretty, inner));
    Regroup3(Quoted(m.name), colon, Text(libc, m.value, pretty, inner));
  }

  lemma TailStops(c: char, pretty: bool, indent: nat, rest: string)
    requires c == ']' || c == '}'
    ensures Stops(NewLine(pretty, indent) + ([c] + rest))
    ensures Skip(NewLine(pretty, indent) + ([c] + rest)) == [c] + rest
  {
    SkipNewLine(pretty, indent, [c] + rest);
    SkipNone([c] + rest);
  }

  lemma CommaStops(s: string)
    ensures Stops("," + s) && ("," + s)[0] == ',' && ("," + s)[1..] == s && Skip("," + s) == "," + s
  {
    SkipNone("," + s);
  }

  lemma FirstStays(a: string, b: string)
    requires a != ""
    ensures (a + b)[0] == a[0]
  {
  }

  /** Parsing the text of a value yields the value in its spelling and goes on after it. */
  lemma {:induction false} ValueBack(libc: Libc, e: Json, pretty: bool, indent: nat, rest: string)
    requires ExactOnIntegers(libc) && AllInts(e) && Stops(rest)
    ensures ParseValue(libc, Text(libc, e, pretty, indent) + rest) == Some((Spelled(e), Skip(rest)))
    decreases e, 2, 0
  {
    hide ExactOnIntegers, Skip, Stops, ParseValue, ParseString, IntText, Quoted, Escape, Trimmed;
    match e
    case Null => WordBack(libc, e, "null", rest);
    case Bool(b) => WordBack(libc, e, if b then "true" else "false", rest);
    case Number(num) => NumberValueBack(libc, num.n, rest);
    case String(str) =>
      StringBack(str, rest);
      QuoteFirst(str, rest);
      StringValue(libc, Quoted(str) + rest);
    case Array(items) => ArrayBack(libc, e, pretty, indent, rest);
    case Object(members) => ObjectBack(libc, e, pretty, indent, rest);
  }

  lemma ArrayText(libc: Libc, e: Json, pretty: bool, indent: nat, rest: string)
    requires e.Array?
    ensures e.items == [] ==> Text(libc, e, pretty, indent) + rest == "[" + (NewLine(false, 0) + ("]" + rest))
    ensures e.items != [] ==>
              Text(libc, e, pretty, indent) + rest
              == "[" + (NewLine(pretty, Deeper(pretty, indent))
                        + (Text(libc, e.items[0], pretty, Deeper(pretty, indent)) + ItemsTail(libc, e, 1, pretty, indent, rest)))
  {
    hide NewLine, Deeper, ItemsTail;
    if e.items == [] {
      assert NewLine(false, 0) == "" by { EmptyLine(); }
      assert "[" + "" + "" + "]" + rest == "[" + ("" + ("]" + rest));
    } else {
      var inner := Deeper(pretty, indent);
      var nl, first, more, close :=
        NewLine(pretty, inner), Text(libc, e.items[0], pretty, inner), ItemsText(libc, e, 1, pretty, inner), NewLine(pretty, indent);
      ItemsTailText(libc, e, 1, pretty, indent, rest);
      assert ItemsText(libc, e, 0, pretty, inner) == nl + first + more by { assert "" + nl + first + more == nl + first + more; }
      Nest7("[", nl, first, more, close, "]", rest);
    }
  }

  lemma EmptyLine()
    ensures NewLine(false, 0) == ""
  {
  }

  lemma {:induction false} ArrayBack(libc: Libc, e: Json, pretty: bool, indent: nat, rest: string)
    requires ExactOnIntegers(libc) && AllInts(e) && e.Array? && Stops(rest)
    ensures ParseValue(libc, Text(libc, e, pretty, indent) + rest) == Some((Spelled(e), Skip(rest)))
    decreases e, 1, 0
  {
    hide AllInts, ExactOnIntegers, Skip, Stops, Text, ParseValue, ParseItems, NewLine, ItemsTail;
    ArrayText(libc, e, pretty, indent, rest);
    if e.items == [] {
      SkipsTo(false, 0, "]" + rest);
      ArrayOpened(libc, NewLine(false, 0) + ("]" + rest));
      assert ("]" + rest)[1..] == rest;
    } else {
      var inner := Deeper(pretty, indent);
      var first, more := Text(libc, e.items[0], pretty, inner), ItemsTail(libc, e, 1, pretty, indent, rest);
      ItemInts(e, 0);
      TextStarts(libc, e.items[0], pretty, inner);
      FirstStays(first, more);
      SkipsTo(pretty, inner, first + more);
      ArrayOpened(libc, NewLine(pretty, inner) + (first + more));
      ItemsBack(libc, e, 0, pretty, indent, rest);
    }
  }

  /** What follows an item decides how the list goes on. */
  lemma ItemsGoOn(libc: Libc, s: string, v: Json, t: string)
    requires t != "" && ParseValue(libc, s) == Some((v, t))
    ensures ParseItems(libc, s)
         == if t[0] == ']' then Some(([v], Skip(t[1..])))
            else if t[0] != ',' then None
            else var r := ParseItems(libc, Skip(t[1..])); if r.None? then None else Some(([v] + r.value.0, r.value.1))
  {
    hide ParseValue, Skip;
  }

  lemma MembersGoOn(libc: Libc, s: string, m: Member, t: string)
    requires t != "" && ParseMember(libc, s) == Some((m, t))
    ensures ParseMembers(libc, s)
         == if t[0] == '}' then Some(([m], Skip(t[1..])))
            else if t[0] != ',' then None
            else var r := ParseMembers(libc, Skip(t[1..])); if r.None? then None else Some(([m] + r.value.0, r.value.1))
  {
    hide ParseMember, Skip;
  }

  lemma {:induction false} ItemsBack(libc: Libc, e: Json, k: nat, pretty: bool, indent: nat, rest: string)
    requires ExactOnIntegers(libc) && AllInts(e) && e.Array? && k < |e.items|
    ensures ParseItems(libc, Text(libc, e.items[k], pretty, Deeper(pretty, indent)) + ItemsTail(libc, e, k + 1, pretty, indent, rest))
         == Some((SpelledItems(e, k), Skip(rest)))
    decreases e, 0, |e.items| - k
  {
    hide AllInts, ExactOnIntegers, Skip, Stops, ParseValue, ParseItems, Text, NewLine, Deeper, Spelled;
    var inner := Deeper(pretty, indent);
    var tail := ItemsTail(libc, e, k + 1, pretty, indent, rest);
    var s := Text(libc, e.items[k], pretty, inner) + tail;
    ItemInts(e, k);
    if k + 1 == |e.items| {
      TailStops(']', pretty, indent, rest);
      ValueBack(libc, e.items[k], pretty, inner, tail);
      ItemsGoOn(libc, s, Spelled(e.items[k]), "]" + rest);
      assert ("]" + rest)[1..] == rest;
      assert SpelledItems(e, k) == [Spelled(e.items[k])];
    } else {
      var u := NextItemText(libc, e, k + 1, pretty, indent, rest);
      CommaStops(u);
      ValueBack(libc, e.items[k], pretty, inner, tail);
      NextItemSkips(libc, e, k + 1, pretty, indent, rest);
      ItemsBack(libc, e, k + 1, pretty, indent, rest);
      ItemsGoOn(libc, s, Spelled(e.items[k]), "," + u);
    }
  }

  function NextItemText(libc: Libc, e: Json, k: nat, pretty: bool, indent: nat, rest: string): string
    requires e.Array? && k < |e.items|
  {
    NewLine(pretty, Deeper(pretty, indent))
    + (Text(libc, e.items[k], pretty, Deeper(pretty, indent)) + ItemsTail(libc, e, k + 1, pretty, indent, rest))
  }

  lemma NextItemSkips(libc: Libc, e: Json, k: nat, pretty: bool, indent: nat, rest: string)
    requires AllInts(e) && e.Array? && k < |e.items|
    ensures Skip(NextItemText(libc, e, k, pretty, indent, rest))
         == Text(libc, e.items[k], pretty, Deeper(pretty, indent)) + ItemsTail(libc, e, k + 1, pretty, indent, rest)
  {
    hide AllInts, Skip, Text, NewLine, Deeper, ItemsTail;
    var first, tail := Text(libc, e.items[k], pretty, Deeper(pretty, indent)), ItemsTail(libc, e, k + 1, pretty, indent, rest);
    ItemInts(e, k);
    TextStarts(libc, e.items[k], pretty, Deeper(pretty, indent));
    FirstStays(first, tail);
    SkipNewLine(pretty, Deeper(pretty, indent), first + tail);
    SkipNone(first + tail);
  }

  lemma ObjectText(libc: Libc, e: Json, pretty: bool, indent: nat, rest: string)
    requires e.Object?
    ensures e.members == [] ==> Text(libc, e, pretty, indent) + rest == "{" + (NewLine(false, 0) + ("}" + rest))
    ensures e.members != [] ==>
              Text(libc, e, pretty, indent) + rest
              == "{" + (NewLine(pretty, Deeper(pretty, indent))
                        + (MemberText(libc, e.members[0], pretty, Deeper(pretty, indent)) + MembersTail(libc, e, 1, pretty, indent, rest)))
  {
    hide NewLine, Deeper, MembersTail, MemberText, MembersText;
    if e.members == [] {
      assert MembersText(libc, e, 0, pretty, Deeper(pretty, indent)) == "" by { NoMembersText(libc, e, pretty, Deeper(pretty, indent)); }
      assert NewLine(false, 0) == "" by { EmptyLine(); }
      assert "{" + "" + "" + "}" + rest == "{" + ("" + ("}" + rest));
    } else {
      var inner := Deeper(pretty, indent);
      var nl, first, more, close :=
        NewLine(pretty, inner), MemberText(libc, e.members[0], pretty, inner), MembersText(libc, e, 1, pretty, inner), NewLine(pretty, indent);
      MembersTailText(libc, e, 1, pretty, indent, rest);
      MembersOne(libc, e, 0, pretty, inner);
      assert MembersText(libc, e, 0, pretty, inner) == nl + first + more by { assert "" + nl + first + more == nl + first + more; }
      Nest7("{", nl, first, more, close, "}", rest);
    }
  }

  lemma NoMembersText(libc: Libc, e: Json, pretty: bool, inner: nat)
    requires e.Object? && e.members == []
    ensures MembersText(libc, e, 0, pretty, inner) == ""
  {
  }

  lemma MemberStarts(libc: Libc, m: Member, pretty: bool, inner: nat)
    ensures MemberText(libc, m, pretty, inner) != "" && MemberText(libc, m, pretty, inner)[0] == '\"'
  {
  }

  lemma {:induction false} ObjectBack(libc: Libc, e: Json, pretty: bool, indent: nat, rest: string)
    requires ExactOnIntegers(libc) && AllInts(e) && e.Object? && Stops(rest)
    ensures ParseValue(libc, Text(libc, e, pretty, indent) + rest) == Some((Spelled(e), Skip(rest)))
    decreases e, 1, 0
  {
    hide AllInts, ExactOnIntegers, Skip, Stops, Text, ParseValue, ParseMembers, NewLine, MembersTail, MemberText;
    ObjectText(libc, e, pretty, indent, rest);
    if e.members == [] {
      SkipsTo(false, 0, "}" + rest);
      ObjectOpened(libc, NewLine(false, 0) + ("}" + rest));
      assert ("}" + rest)[1..] == rest;
    } else {
      var inner := Deeper(pretty, indent);
      var first, more := MemberText(libc, e.members[0], pretty, inner), MembersTail(libc, e, 1, pretty, indent, rest);
      MemberStarts(libc, e.members[0], pretty, inner);
      FirstStays(first, more);
      SkipsTo(pretty, inner, first + more);
      ObjectOpened(libc, NewLine(pretty, inner) + (first + more));
      MembersBack(libc, e, 0, pretty, indent, rest);
    }
  }

  lemma ColonSkip(pretty: bool, v: string)
    requires v != "" && !IsSpace(v[0])
    ensures var s := (if pretty then ": " else ":") + v; s[0] == ':' && Skip(s) == s && Skip(s[1..]) == v
  {
    var s := (if pretty then ": " else ":") + v;
    SkipNone(s);
    SkipNone(v);
    if pretty {
      assert s[1..] == [' '] + v;
      SkipOne(' ', v);
    } else {
      assert s[1..] == v;
    }
  }

  lemma {:induction false} MemberBack(libc: Libc, e: Json, k: nat, pretty: bool, inner: nat, rest: string)
    requires ExactOnIntegers(libc) && AllInts(e) && e.Object? && k < |e.members| && Stops(rest)
    ensures ParseMember(libc, MemberText(libc, e.members[k], pretty, inner) + rest)
         == Some((Member(Escape(Trimmed(e.members[k].name)), Spelled(e.members[k].value)), Skip(rest)))
    decreases e, 0, 0
  {
    hide AllInts, ExactOnIntegers, Skip, Stops, ParseValue, Text, ParseString, Quoted, Spelled, Escape, Trimmed;
    var m := e.members[k];
    var text := Text(libc, m.value, pretty, inner);
    var colon := if pretty then ": " else ":";
    assert MemberText(libc, m, pretty, inner) + rest == Quoted(m.name) + (colon + (text + rest))
    by { Regroup3(Quoted(m.name), colon + text, rest); Regroup3(colon, text, rest); }
    StringBack(m.name, colon + (text + rest));
    MemberInts(e, k);
    TextStarts(libc, m.value, pretty, inner);
    FirstStays(text, rest);
    ColonSkip(pretty, text + rest);
    ValueBack(libc, m.value, pretty, inner, rest);
  }

  lemma {:induction false} MembersBack(libc: Libc, e: Json, k: nat, pretty: bool, indent: nat, rest: string)
    requires ExactOnIntegers(libc) && AllInts(e) && e.Object? && k < |e.members|
    ensures ParseMembers(libc, MemberText(libc, e.members[k], pretty, Deeper(pretty, indent)) + MembersTail(libc, e, k + 1, pretty, indent, rest))
         == Some((SpelledMembers(e, k), Skip(rest)))
    decreases e, 0, 1 + |e.members| - k
  {
    hide AllInts, ExactOnIntegers, Skip, Stops, ParseMember, ParseMembers, MemberText, NewLine, Deeper, Spelled, Escape, Trimmed;
    var inner := Deeper(pretty, indent);
    var tail := MembersTail(libc, e, k + 1, pretty, indent, rest);
    var s := MemberText(libc, e.members[k], pretty, inner) + tail;
    var m := Member(Escape(Trimmed(e.members[k].name)), Spelled(e.members[k].value));
    if k + 1 == |e.members| {
      TailStops('}', pretty, indent, rest);
      MemberBack(libc, e, k, pretty, inner, tail);
      MembersGoOn(libc, s, m, "}" + rest);
      assert ("}" + rest)[1..] == rest;
      assert SpelledMembers(e, k) == [m];
    } else {
      var u := NextMemberText(libc, e, k + 1, pretty, indent, rest);
      CommaStops(u);
      MemberBack(libc, e, k, pretty, inner, tail);
      NextMemberSkips(libc, e, k + 1, pretty, indent, rest);
      MembersBack(libc, e, k + 1, pretty, indent, rest);
      MembersGoOn(libc, s, m, "," + u);
    }
  }

  function NextMemberText(libc: Libc, e: Json, k: nat, pretty: bool, indent: nat, rest: string): string
    requires e.Object? && k < |e.members|
  {
    NewLine(pretty, Deeper(pretty, indent))
    + (MemberText(libc, e.members[k], pretty, Deeper(pretty, indent)) + MembersTail(libc, e, k + 1, pretty, indent, rest))
  }

  lemma NextMemberSkips(libc: Libc, e: Json, k: nat, pretty: bool, indent: nat, rest: string)
    requires e.Object? && k < |e.members|
    ensures Skip(NextMemberText(libc, e, k, pretty, indent, rest))
         == MemberText(libc, e.members[k], pretty, Deeper(pretty, indent)) + MembersTail(libc, e, k + 1, pretty, indent, rest)
  {
    hide Skip, MemberText, NewLine, Deeper, MembersTail;
    var first, tail := MemberText(libc, e.members[k], pretty, Deeper(pretty, indent)), MembersTail(libc, e, k + 1, pretty, indent, rest);
    MemberStarts(libc, e.members[k], pretty, Deeper(pretty, indent));
    FirstStays(first, tail);
    SkipNewLine(pretty, Deeper(pretty, indent), first + tail);
    SkipNone(first + tail);
  }

  /** Serialising a tree and parsing the text yields the tree in its spelling and uses up the text, compact or pretty. */
  lemma RoundTrip(libc: Libc, e: Json, pretty: bool)
    requires ExactOnIntegers(libc) && AllInts(e)
    ensures Parse(libc, Text(libc, e, pretty, 0)) == Some((Spelled(e), ""))
  {
    hide Text, AllInts, Spelled, ParseValue;
    var s := Text(libc, e, pretty, 0);
    TextStarts(libc, e, pretty, 0);
    SkipNone(s);
    ValueBack(libc, e, pretty, 0, "");
    assert s + "" == s;
  }

  // ---------- When the tree itself comes back ----------

  predicate NeedsEscape(c: char) { c == '\"' || c == '\\' || c < ' ' }

  /** A string that is spelled as it is: nothing to escape, and no leading blank. */
  predicate Plain(s: string) {
    (forall i | 0 <= i < |s| :: !NeedsEscape(s[i])) && (s != "" ==> s[0] != ' ')
  }

  lemma {:induction false} EscapeGrows(s: string)
    ensures |Escape(s)| >= |s|
    ensures Escape(s) == s <==> forall i | 0 <= i < |s| :: !NeedsEscape(s[i])
    ensures |Escape(s)| == |s| ==> Escape(s) == s
  {
    if s != "" {
      EscapeGrows(s[1..]);
      assert |EscapeChar(s[0])| == 1 <==> !NeedsEscape(s[0]);
      assert s == [s[0]] + s[1..];
      assert forall i | 0 < i < |s| :: s[i] == s[1..][i - 1];
      if Escape(s) == s {
        assert |EscapeChar(s[0])| == 1;
        assert Escape(s)[1..] == Escape(s[1..]);
      }
    }
  }

  lemma {:induction false} TrimmedStarts(s: string)
    ensures Trimmed(s) == "" || Trimmed(s)[0] != ' '
    ensures s == "" || s[0] != ' ' ==> Trimmed(s) == s
  {
    if s != "" && s[0] == ' ' {
      TrimmedStarts(s[1..]);
    }
  }

  lemma PlainExactly(s: string)
    ensures Escape(Trimmed(s)) == s <==> Plain(s)
  {
    TrimmedStarts(s);
    EscapeGrows(s);
    if s != "" && s[0] == ' ' && Trimmed(s) != "" {
      assert Escape(Trimmed(s))[0] == EscapeChar(Trimmed(s)[0])[0] != ' ';
    }
  }

  /** Every string and every name is spelled as it is. */
  predicate AllPlain(e: Json) {
    match e
    case String(s) => Plain(s)
    case Array(items) => forall k | 0 <= k < |items| :: AllPlain(items[k])
    case Object(members) => forall k | 0 <= k < |members| :: Plain(members[k].name) && AllPlain(members[k].value)
    case _ => true
  }

  /** A tree is its own spelling exactly when all its strings and names are plain. */
  lemma {:induction false} SpelledExactly(e: Json)
    ensures Spelled(e) == e <==> AllPlain(e)
    decreases e, 1, 0
  {
    match e
    case String(s) => PlainExactly(s);
    case Array(items) =>
      assert e.items[0..] == items;
      SpelledItemsExactly(e, 0);
    case Object(members) =>
      assert e.members[0..] == members;
      SpelledMembersExactly(e, 0);
    case _ =>
  }

  lemma {:induction false} SpelledItemsExactly(e: Json, k: nat)
    requires e.Array? && k <= |e.items|
    ensures SpelledItems(e, k) == e.items[k..] <==> forall j | k <= j < |e.items| :: AllPlain(e.items[j])
    decreases e, 0, |e.items| - k
  {
    if k < |e.items| {
      hide AllPlain, Spelled;
      SpelledExactly(e.items[k]);
      SpelledItemsExactly(e, k + 1);
      var a, b := SpelledItems(e, k), e.items[k..];
      assert a[0] == Spelled(e.items[k]) && a[1..] == SpelledItems(e, k + 1);
      assert b[0] == e.items[k] && b[1..] == e.items[k + 1..];
      assert a == b <==> a[0] == b[0] && a[1..] == b[1..] by { assert a == [a[0]] + a[1..] && b == [b[0]] + b[1..]; }
    }
  }

  lemma {:induction false} SpelledMembersExactly(e: Json, k: nat)
    requires e.Object? && k <= |e.members|
    ensures SpelledMembers(e, k) == e.members[k..]
            <==> forall j | k <= j < |e.members| :: Plain(e.members[j].name) && AllPlain(e.members[j].value)
    decreases e, 0, |e.members| - k
  {
    if k < |e.members| {
      hide AllPlain, Spelled, Plain;
      SpelledExactly(e.members[k].value);
      PlainExactly(e.members[k].name);
      SpelledMembersExactly(e, k + 1);
      var a, b := SpelledMembers(e, k), e.members[k..];
      assert a[1..] == SpelledMembers(e, k + 1) && b[0] == e.members[k] && b[1..] == e.members[k + 1..];
      assert a == b <==> a[0] == b[0] && a[1..] == b[1..] by { assert a == [a[0]] + a[1..] && b == [b[0]] + b[1..]; }
    }
  }

  /** Serialising and parsing gives the very tree back exactly when no string needs escaping or starts with a blank. */
  lemma RoundTripExactly(libc: Libc, e: Json, pretty: bool)
    requires ExactOnIntegers(libc) && AllInts(e)
    ensures Parse(libc, Text(libc, e, pretty, 0)) == Some((e, "")) <==> AllPlain(e)
  {
    RoundTrip(libc, e, pretty);
    SpelledExactly(e);
  }

  /** A blank string comes back empty, and a line break comes back as its escape. */
  lemma BlankAndBreak(libc: Libc)
    requires ExactOnIntegers(libc)
    ensures Parse(libc, Text(libc, String(" "), false, 0)) == Some((String(""), ""))
    ensures Parse(libc, Text(libc, String("\n"), false, 0)) == Some((String("\\n"), ""))
  {
    RoundTrip(libc, String(" "), false);
    RoundTrip(libc, String("\n"), false);
    BlankAndBreakSpelled();
    hide Parse, Text, Escape, Trimmed;
  }

  lemma BlankAndBreakSpelled()
    ensures Escape(Trimmed(" ")) == "" && Escape(Trimmed("\n")) == "\\n"
  {
    var b, n := " ", "\n";
    assert b[1..] == "" && n[1..] == "";
    assert Trimmed(b) == Trimmed("") == "" && Trimmed(n) == n;
    assert Escape(n) == EscapeChar('\n') + Escape("");
  }
}
